/** What the two crates receive from outside: the host's result codes,
    HTTP responses and the dynamic loader. Each is an input of the model. */
module Env {
  import opened Fs

  /** The `i32` the host receives from `gmod13_open` and `gmod13_close`. */
  newtype Int32 = x: int | -0x8000_0000 <= x < 0x8000_0000

  /** How an entry point ends: with a return code, or in a panic (which
      unwinds into the host). */
  datatype Exit = Returned(code: Int32) | Panicked

  /** What one HTTP GET yields: no response at all (connection, timeout),
      or a status and the body bytes that arrived; `complete` is false when
      the body stream broke after `body`. */
  datatype Response = Unreachable | Responded(status: int, body: Bytes, complete: bool)

  /** What the dynamic loader makes of a library image and a symbol name:
      the image does not load, the symbol is missing, or calling the symbol
      returns a code. */
  datatype Link = LoadFails | NoSymbol | Calls(code: Int32)

  /** How an entry point ends, and the filesystem as its own steps leave
      it. A library it delegates to is a `Link`, whose effects on the
      filesystem are not part of `tree`. */
  datatype Run = Run(exit: Exit, tree: Tree)
}
