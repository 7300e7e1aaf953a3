/** Parsing of distinguished names, pki/parse_name.cc: what reaches the printer has no empty RDN. */
module NameParser {
  import opened Basics
  import opened DerCursor
  import opened NamePrinter

  const OBJECT: nat := 0x6
  const SET: nat := CONSTRUCTED + 0x11

  /** One AttributeTypeAndValue, from the contents of its SEQUENCE. */
  function ParsedAttribute(read: Reader, v: Bytes): Option<Attribute> {
    match Tagged(read, OBJECT, v)
    case None => None
    case Some(t) =>
      match Peeked(read, t.rest)
      case None => None
      case Some(e) => if e.rest == [] then Some(Attribute(t.value, e.tag, e.value)) else None
  }

  function ParsedAttributes(read: Reader, b: Bytes): Option<Rdn>
    decreases |b|
  {
    if b == [] then Some([])
    else
      match Tagged(read, SEQUENCE, b)
      case None => None
      case Some(e) =>
        match ParsedAttribute(read, e.value)
        case None => None
        case Some(a) => After([a], ParsedAttributes(read, e.rest))
  }

  function ParsedRdn(read: Reader, b: Bytes): Option<Rdn> {
    if ParsedAttributes(read, b) == Some([]) then None else ParsedAttributes(read, b)
  }

  function ParsedName(read: Reader, b: Bytes): Option<seq<Rdn>>
    decreases |b|
  {
    if b == [] then Some([])
    else
      match Tagged(read, SET, b)
      case None => None
      case Some(e) =>
        match ParsedRdn(read, e.value)
        case None => None
        case Some(r) => After([r], ParsedName(read, e.rest))
  }

  method ReadAttributeTypeAndValue(p: Parser) returns (a: Option<Attribute>)
    modifies p
    ensures a == ParsedAttribute(p.read, old(p.cbs))
  {
    var t := p.ReadTag(OBJECT);
    if t == None {
      return None;
    }
    var e := p.ReadTagAndValue();
    if e == None || p.HasMore() {
      return None;
    }
    return Some(Attribute(t.value, e.value.tag, e.value.value));
  }

  method ReadRdn(p: Parser) returns (out: Option<Rdn>)
    modifies p
    ensures out == ParsedRdn(p.read, old(p.cbs))
  {
    hide After, ParsedAttribute;
    var attributes: Rdn := [];
    AfterEnds(attributes, ParsedAttributes(p.read, p.cbs));
    while p.HasMore()
      invariant ParsedAttributes(p.read, old(p.cbs)) == After(attributes, ParsedAttributes(p.read, p.cbs))
      decreases |p.cbs|
    {
      AfterEnds(attributes, None);
      var inner := p.ReadSequence();
      if inner == null {
        return None;
      }
      var a := ReadAttributeTypeAndValue(inner);
      if a == None {
        return None;
      }
      AfterCons(attributes, a.value, ParsedAttributes(p.read, p.cbs));
      attributes := attributes + [a.value];
    }
    AfterEnds(attributes, None);
    return if attributes == [] then None else Some(attributes);
  }

  /** ParseNameValue */
  method ParseNameValue(read: Reader, value: Bytes) returns (out: Option<seq<Rdn>>)
    ensures out == ParsedName(read, value)
  {
    hide After, ParsedRdn;
    var p := new Parser(read, value);
    var rdns: seq<Rdn> := [];
    AfterEnds(rdns, ParsedName(read, value));
    while p.HasMore()
      invariant p.read == read
      invariant ParsedName(read, value) == After(rdns, ParsedName(read, p.cbs))
      decreases |p.cbs|
    {
      AfterEnds(rdns, None);
      var body := p.ReadTag(SET);
      if body == None {
        return None;
      }
      var inner := new Parser(read, body.value);
      var r := ReadRdn(inner);
      if r == None {
        return None;
      }
      AfterCons(rdns, r.value, ParsedName(read, p.cbs));
      rdns := rdns + [r.value];
    }
    AfterEnds(rdns, None);
    return Some(rdns);
  }

  /** Every RDN that the parser hands on is non-empty. */
  lemma {:induction false} ParsedNonEmpty(read: Reader, b: Bytes)
    requires ParsedName(read, b).Some?
    ensures forall i | 0 <= i < |ParsedName(read, b).value| :: ParsedName(read, b).value[i] != []
    decreases |b|
  {
    if b != [] {
      ParsedNonEmpty(read, Tagged(read, SET, b).value.rest);
      hide ParsedRdn, Tagged;
    }
  }

  /** Two parsed names that print alike show the same keys and values in the same order. */
  lemma PrintedAlikeShowAlike(read: Reader, c: Converters, b1: Bytes, b2: Bytes)
    requires ParsedName(read, b1).Some? && ParsedName(read, b2).Some?
    requires PrintedName(c, ParsedName(read, b1).value).Some?
    requires PrintedName(c, ParsedName(read, b1).value) == PrintedName(c, ParsedName(read, b2).value)
    ensures ShowsName(c, ParsedName(read, b1).value) == ShowsName(c, ParsedName(read, b2).value)
  {
    ParsedNonEmpty(read, b1);
    ParsedNonEmpty(read, b2);
    NamesKeyed(c, ParsedName(read, b1).value);
    NamesKeyed(c, ParsedName(read, b2).value);
    FirstShown(c, ParsedName(read, b1).value);
    FirstShown(c, ParsedName(read, b2).value);
    hide PrintName, ReadName, ShowsName, ParsedName;
    NameRoundTrip(ShowsName(c, ParsedName(read, b1).value).value);
    NameRoundTrip(ShowsName(c, ParsedName(read, b2).value).value);
  }

  lemma FirstShown(c: Converters, rdns: seq<Rdn>)
    requires ShowsName(c, rdns).Some? && forall i | 0 <= i < |rdns| :: rdns[i] != []
    ensures var names := ShowsName(c, rdns).value; names != [] ==> names[0] != []
  {
    NamesKeyed(c, rdns);
    var names := ShowsName(c, rdns).value;
    if names != [] { assert ShowsEach(c, rdns[|rdns| - 1], names[0]); }
  }
}
