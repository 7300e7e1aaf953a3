/** Types shared by every module: optional values and octets. */
module Basics {

  datatype Option<+T> = None | Some(value: T)

  /** An octet, `uint8_t` in the sources. */
  type byte = x: int | 0 <= x < 256

  /** The contents of a `der::Input` or of a byte span. */
  type Bytes = seq<byte>

  /** The number of values of `uint64_t`, and of `size_t` here. */
  const U64: nat := 0x1_0000_0000_0000_0000

  /** OCSPRevocationStatus and CRLRevocationStatus. */
  datatype RevocationStatus = GOOD | REVOKED | UNKNOWN

  /** The parts with a separator between each two. */
  function Join(parts: seq<string>, sep: char): string {
    if parts == [] then "" else if |parts| == 1 then parts[0] else parts[0] + [sep] + Join(parts[1..], sep)
  }

  /** What a loop that appends to `done` ends with, when `rest` is what is still to come. */
  function After<T>(done: seq<T>, rest: Option<seq<T>>): Option<seq<T>> {
    match rest
    case None => None
    case Some(s) => Some(done + s)
  }

  lemma AfterEnds<T>(done: seq<T>, rest: Option<seq<T>>)
    ensures After([], rest) == rest && After(done, Some([])) == Some(done) && After(done, None) == None
  {
    if rest.Some? { assert [] + rest.value == rest.value; }
    assert done + [] == done;
  }

  lemma AfterCons<T>(done: seq<T>, x: T, rest: Option<seq<T>>)
    ensures After(done, After([x], rest)) == After(done + [x], rest)
  {
    if rest.Some? { assert done + ([x] + rest.value) == done + [x] + rest.value; }
  }
}
