/** Option and Result, the two failure-carrying shapes the Rust code uses
    (`Option<T>` and `syn::Result<T>` / `Result<T, String>`). */
module Wrappers {

  datatype Option<+T> = None | Some(value: T) {
    /** `Option::unwrap_or`: the value, or `default` when there is none. */
    function GetOr(default: T): T {
      match this
      case Some(v) => v
      case None => default
    }
  }

  datatype Result<+T, +E> = Ok(value: T) | Err(error: E)
}

/** The unsigned byte (`u8`) of the Rust code. */
module Bytes {
  type byte = x: int | 0 <= x < 256
}

/** Two facts about sequences that the proofs need in generic form. */
module Seqs {
  lemma AppendAssoc<T>(a: seq<T>, b: seq<T>, c: seq<T>)
    ensures a + (b + c) == (a + b) + c
  {
  }

  lemma SplitLast<T>(s: seq<T>)
    requires s != []
    ensures s == s[..|s| - 1] + [s[|s| - 1]]
  {
  }
}
