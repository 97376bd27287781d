/** Error kinds raised by the solving engine, and the result types that carry them. */
module Wrappers {

  /** The exceptions the engine raises, one constructor per distinct failure. */
  datatype Error =
    | OutOfRange       // row or column outside [0, size)
    | InvalidValue     // value outside [0, MAX_VALUE]
    | NotEditable      // write attempted on a clue cell
    | MissingValue     // a non-editable cell constructed without a value
    | InvalidPosition  // a cell constructed with row or column outside [0, MAX_VALUE)
    | InvalidFormat    // the factory's ValueError
    | UnknownSize      // the factory's KeyError when no digit line is present
    | EmptyStack       // pop from an empty undo or redo list
    | IndexOutOfRange  // list indexing beyond either end (IndexError)

  datatype Result<+T> = Success(value: T) | Failure(error: Error)

  /** A result that carries no value. */
  datatype Outcome = Pass | Fail(error: Error)

  datatype Option<+T> = None | Some(value: T)

  /** Concatenation regroups freely. */
  lemma ConcatAssoc<T>(a: seq<T>, b: seq<T>, c: seq<T>)
    ensures (a + b) + c == a + (b + c)
  {
  }

  /** The suffix from `t` starts with `s[t]` and continues with the suffix from `t + 1`. */
  lemma SuffixHead<T>(s: seq<T>, t: nat)
    requires t < |s|
    ensures s[t..] != [] && s[t..][0] == s[t] && s[t..][1..] == s[t + 1..]
  {
  }

  /** A sequence built from a head and a tail gives them back. */
  lemma ConsParts<T>(x: T, rest: seq<T>)
    ensures [x] + rest != [] && ([x] + rest)[0] == x && ([x] + rest)[1..] == rest
  {
  }
}
