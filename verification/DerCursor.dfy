/** The DER cursor of pki/parser.cc, over any element reader that returns a non-empty
  * prefix of its input.
  */
module DerCursor {
  import opened Basics

  /** What `CBS_get_any_asn1_element` reports: the tag, and the lengths of the header and of
    * the whole element. */
  datatype Tlv = Tlv(tag: nat, header: nat, len: nat)

  ghost predicate ReadsPrefix(f: Bytes -> Option<Tlv>) {
    forall b: Bytes :: f(b).Some? ==> 0 < f(b).value.len <= |b|
  }

  /** An element reader.  Nothing is assumed of how it finds the element. */
  type Reader = f: Bytes -> Option<Tlv> | ReadsPrefix(f) witness b => None

  const CONSTRUCTED: nat := 0x2000_0000
  const CONTEXT_SPECIFIC: nat := 0x8000_0000
  const BOOLEAN: nat := 0x1
  const INTEGER: nat := 0x2
  const UTC_TIME: nat := 0x17
  const GENERALIZED_TIME: nat := 0x18
  const SEQUENCE: nat := CONSTRUCTED + 0x10

  /** One element cut off the front of a byte string. */
  datatype Element = Element(tag: nat, value: Bytes, rest: Bytes)

  function Peeked(read: Reader, b: Bytes): (e: Option<Element>)
    ensures e.Some? ==> |e.value.rest| < |b| && b[|b| - |e.value.rest|..] == e.value.rest
  {
    match read(b)
    case None => None
    case Some(t) =>
      if t.header > t.len then None else Some(Element(t.tag, b[t.header..t.len], b[t.len..]))
  }

  /** The element at the front when it has the given tag. */
  function Tagged(read: Reader, tag: nat, b: Bytes): Option<Element> {
    var e := Peeked(read, b);
    if e.Some? && e.value.tag == tag then e else None
  }

  class Parser {
    const read: Reader
    var cbs: Bytes
    var advanceLen: nat

    constructor (read: Reader, input: Bytes)
      ensures this.read == read && cbs == input && advanceLen == 0
    {
      this.read := read;
      cbs := input;
      advanceLen := 0;
    }

    predicate HasMore()
      reads this
    {
      |cbs| > 0
    }

    method PeekTagAndValue() returns (e: Option<Element>)
      modifies this`advanceLen
      ensures e == Peeked(read, cbs)
      ensures e.Some? ==> 0 < advanceLen <= |cbs| && cbs[advanceLen..] == e.value.rest
      ensures e == None ==> advanceLen == old(advanceLen)
    {
      match read(cbs)
      case None =>
        return None;
      case Some(t) =>
        if t.header > t.len {
          return None;
        }
        advanceLen := t.len;
        return Some(Element(t.tag, cbs[t.header..t.len], cbs[t.len..]));
    }

    method Advance() returns (ok: bool)
      modifies this
      ensures ok <==> 0 < old(advanceLen) <= |old(cbs)|
      ensures cbs == if ok then old(cbs)[old(advanceLen)..] else old(cbs)
      ensures advanceLen == 0
    {
      if advanceLen == 0 {
        return false;
      }
      ok := advanceLen <= |cbs|;
      if ok {
        cbs := cbs[advanceLen..];
      }
      advanceLen := 0;
    }

    method ReadRawTLV() returns (raw: Option<Bytes>)
      modifies this`cbs
      ensures raw.Some? <==> read(old(cbs)).Some?
      ensures raw.Some? ==> raw.value != [] && raw.value + cbs == old(cbs) && |raw.value| == read(old(cbs)).value.len
      ensures raw == None ==> cbs == old(cbs)
    {
      match read(cbs)
      case None =>
        return None;
      case Some(t) =>
        raw := Some(cbs[..t.len]);
        cbs := cbs[t.len..];
    }

    /** The assertion is the code's BSSL_CHECK. */
    method ReadTagAndValue() returns (e: Option<Element>)
      modifies this
      ensures e == Peeked(read, old(cbs))
      ensures cbs == if e.Some? then e.value.rest else old(cbs)
    {
      e := PeekTagAndValue();
      if e.Some? {
        var ok := Advance();
        assert ok;
      }
    }

    /** Succeeds with no value at the end of the input and on a different tag. */
    method ReadOptionalTag(tag: nat) returns (ok: bool, value: Option<Bytes>)
      modifies this
      ensures ok <==> old(cbs) == [] || Peeked(read, old(cbs)).Some?
      ensures var e := Tagged(read, tag, old(cbs));
              if old(cbs) != [] && e.Some? then value == Some(e.value.value) && cbs == e.value.rest
              else value == None && cbs == old(cbs)
    {
      if !HasMore() {
        return true, None;
      }
      var e := PeekTagAndValue();
      if e == None {
        return false, None;
      }
      if e.value.tag == tag {
        var advanced := Advance();
        assert advanced;
        value := Some(e.value.value);
      } else {
        advanceLen := 0;
        value := None;
      }
      ok := true;
    }

    method ReadTag(tag: nat) returns (value: Option<Bytes>)
      modifies this
      ensures var e := Tagged(read, tag, old(cbs));
              if e.Some? then value == Some(e.value.value) && cbs == e.value.rest
              else value == None && cbs == old(cbs)
    {
      var e := PeekTagAndValue();
      if e == None || e.value.tag != tag {
        return None;
      }
      var ok := Advance();
      assert ok;
      value := Some(e.value.value);
    }

    method ReadSequence() returns (inner: Parser?)
      modifies this
      ensures var e := Tagged(read, SEQUENCE, old(cbs));
              && (inner != null <==> e.Some?)
              && cbs == (if e.Some? then e.value.rest else old(cbs))
              && (inner != null ==> fresh(inner) && inner.read == read && inner.cbs == e.value.value)
    {
      var value := ReadTag(SEQUENCE);
      if value == None {
        return null;
      }
      inner := new Parser(read, value.value);
    }
  }

  // ----- loops over a whole body

  /** The elements of a body, each as its raw bytes. */
  function Elements(read: Reader, b: Bytes): Option<seq<Bytes>>
    decreases |b|
  {
    if b == [] then Some([])
    else
      match read(b)
      case None => None
      case Some(t) =>
        After([b[..t.len]], Elements(read, b[t.len..]))
  }

  function Flatten(es: seq<Bytes>): Bytes {
    if es == [] then [] else es[0] + Flatten(es[1..])
  }

  /** The loop `while (HasMore()) { ReadRawTLV ... }`: it terminates, and leaves the cursor at
    * the end exactly when it succeeds. */
  method ReadAllElements(p: Parser) returns (es: Option<seq<Bytes>>)
    modifies p`cbs
    ensures es == Elements(p.read, old(p.cbs))
    ensures es.Some? ==> p.cbs == [] && Flatten(es.value) == old(p.cbs)
  {
    hide After, Elements, Flatten;
    var out: seq<Bytes> := [];
    AfterEnds(out, Elements(p.read, p.cbs));
    NothingFlat(p.cbs);
    while p.HasMore()
      invariant Elements(p.read, old(p.cbs)) == After(out, Elements(p.read, p.cbs))
      invariant Flatten(out) + p.cbs == old(p.cbs)
      decreases |p.cbs|
    {
      ghost var before := p.cbs;
      ReadStep(p.read, out, before);
      var raw := p.ReadRawTLV();
      if raw == None {
        return None;
      }
      assert raw.value == before[..|raw.value|] && p.cbs == before[|raw.value|..];
      FlattenSnoc(out, raw.value);
      assert Flatten(out) + raw.value + p.cbs == Flatten(out) + before;
      out := out + [raw.value];
    }
    ReadEnd(p.read, out);
    assert Flatten(out) + [] == Flatten(out);
    return Some(out);
  }

  lemma NothingFlat(b: Bytes)
    ensures Flatten([]) + b == b
  {
  }

  /** One turn of a loop that reads elements, and its end. */
  lemma ReadStep(read: Reader, out: seq<Bytes>, b: Bytes)
    requires b != []
    ensures After(out, Elements(read, b)) ==
            match read(b)
            case None => None
            case Some(t) => After(out + [b[..t.len]], Elements(read, b[t.len..]))
  {
    match read(b)
    case None =>
    case Some(t) => AfterCons(out, b[..t.len], Elements(read, b[t.len..]));
  }

  lemma ReadEnd(read: Reader, out: seq<Bytes>)
    ensures After(out, Elements(read, [])) == Some(out)
  {
    AfterEnds(out, None);
  }

  lemma {:induction false} FlattenSnoc(es: seq<Bytes>, e: Bytes)
    ensures Flatten(es + [e]) == Flatten(es) + e
  {
    if es == [] {
      assert [e][1..] == [];
    } else {
      FlattenSnoc(es[1..], e);
      assert (es + [e])[1..] == es[1..] + [e];
    }
  }

  /** `es` cuts `b` where the reader does. */
  ghost predicate Cuts(read: Reader, es: seq<Bytes>, b: Bytes)
    decreases |es|
  {
    if es == [] then b == []
    else
      && read(b).Some? && read(b).value.len == |es[0]| && es[0] <= b
      && Cuts(read, es[1..], b[|es[0]|..])
  }

  /** Conservation and its converse: the elements read, put together in order, are the body,
    * and no other way of cutting the body agrees with the reader. */
  lemma {:induction false} ElementsConserve(read: Reader, b: Bytes, es: seq<Bytes>)
    ensures Elements(read, b) == Some(es) <==> Cuts(read, es, b)
    ensures Elements(read, b) == Some(es) ==> Flatten(es) == b && forall e | e in es :: e != []
    decreases |b|
  {
    if b == [] {
      if es != [] { assert !Cuts(read, es, b); }
    } else if read(b).Some? {
      var n := read(b).value.len;
      if es != [] {
        ElementsConserve(read, b[n..], es[1..]);
        assert b == b[..n] + b[n..];
        assert es == [es[0]] + es[1..];
        if Elements(read, b) == Some(es) {
          assert es[1..] == Elements(read, b[n..]).value;
        }
        if |es[0]| == n && es[0] <= b {
          assert es[0] == b[..n];
        }
      }
    }
  }

  /** Where an element ends depends only on its own bytes. */
  ghost predicate SelfDelimiting(read: Reader) {
    forall e: Bytes, rest: Bytes :: IsWhole(read, e) ==> read(e + rest) == read(e)
  }

  /** `e` is one whole element. */
  predicate IsWhole(read: Reader, e: Bytes) {
    read(e).Some? && read(e).value.len == |e|
  }
}
