/** What several modules need. */
module Basics {
  datatype Option<T> = None | Some(value: T)

  function Min(a: nat, b: nat): nat {
    if a < b then a else b
  }

  /** A character buffer starts with a text and a NUL behind it. */
  ghost predicate Filled(buf: array<char>, t: string)
    reads buf
  {
    |t| < buf.Length && buf[..|t|] == t && buf[|t|] == '\0'
  }
}
