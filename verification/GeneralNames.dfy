/** GeneralName parsing, pki/general_names.cc, and the subtree lists of
  * pki/name_constraints.cc that are built from it.
  */
module GeneralNames {
  import opened Basics
  import opened DerCursor
  import Netmask

  datatype NameType =
    OtherName | Rfc822Name | DnsName | X400Address | DirectoryName | EdiPartyName | Uri | IpAddress | RegisteredId

  datatype Range = Range(addr: Netmask.Octets, mask: Netmask.Octets)

  /** The contents of a GeneralNames struct. */
  datatype Names = Names(
    otherNames: seq<Bytes>,
    rfc822Names: seq<string>,
    dnsNames: seq<string>,
    x400Addresses: seq<Bytes>,
    directoryNames: seq<Bytes>,
    ediPartyNames: seq<Bytes>,
    uris: seq<string>,
    ipAddresses: seq<Netmask.Octets>,
    ipRanges: seq<Range>,
    registeredIds: seq<Bytes>,
    present: set<NameType>)

  const EMPTY := Names([], [], [], [], [], [], [], [], [], [], {})

  /** A single parsed GeneralName. */
  datatype Name =
    | Other(bytes: Bytes)
    | Rfc822(text: string)
    | Dns(text: string)
    | X400(bytes: Bytes)
    | Directory(rdns: Bytes)
    | EdiParty(bytes: Bytes)
    | UriText(text: string)
    | Address(addr: Netmask.Octets)
    | AddressRange(range: Range)
    | Registered(bytes: Bytes)

  datatype IpMode = AddressOnly | AddressAndNetmask

  // ----- what one element means

  predicate IsAscii(b: Bytes) {
    forall i | 0 <= i < |b| :: b[i] <= 127
  }

  function AsString(b: Bytes): string {
    seq(|b|, i requires 0 <= i < |b| => b[i] as char)
  }

  function AsOctets(b: Bytes): Netmask.Octets {
    seq(|b|, i requires 0 <= i < |b| => b[i] as bv8)
  }

  ghost function IpName(mode: IpMode, b: Bytes): Option<Name> {
    if mode == AddressOnly then
      if |b| == 4 || |b| == 16 then Some(Address(AsOctets(b))) else None
    else if |b| == 8 || |b| == 32 then
      var n := |b| / 2;
      var r := Range(AsOctets(b[..n]), AsOctets(b[n..]));
      if Netmask.ValidNetmask(r.mask) then Some(AddressRange(r)) else None
    else None
  }

  /** The directoryName branch: the trailing-data test looks at the outer parser. */
  function DirectoryNameOf(read: Reader, value: Bytes, rest: Bytes): Option<Name> {
    var e := Tagged(read, SEQUENCE, value);
    if e == None || rest != [] then None else Some(Directory(e.value.value))
  }

  ghost function ParsedName(read: Reader, mode: IpMode, input: Bytes): Option<Name> {
    match Peeked(read, input)
    case None => None
    case Some(Element(tag, value, rest)) => TaggedName(read, mode, tag, value, rest)
  }

  /** otherName, x400Address, ediPartyName and registeredID are stored as they are. */
  predicate IsRaw(tag: nat) {
    || tag == CONTEXT_SPECIFIC + CONSTRUCTED + 0
    || tag == CONTEXT_SPECIFIC + CONSTRUCTED + 3
    || tag == CONTEXT_SPECIFIC + CONSTRUCTED + 5
    || tag == CONTEXT_SPECIFIC + 8
  }

  function RawName(tag: nat, value: Bytes): Name
    requires IsRaw(tag)
  {
    if tag == CONTEXT_SPECIFIC + CONSTRUCTED + 0 then Other(value)
    else if tag == CONTEXT_SPECIFIC + CONSTRUCTED + 3 then X400(value)
    else if tag == CONTEXT_SPECIFIC + CONSTRUCTED + 5 then EdiParty(value)
    else Registered(value)
  }

  ghost function TaggedName(read: Reader, mode: IpMode, tag: nat, value: Bytes, rest: Bytes): Option<Name> {
    if IsRaw(tag) then Some(RawName(tag, value))
    else if tag == CONTEXT_SPECIFIC + 1 then if IsAscii(value) then Some(Rfc822(AsString(value))) else None
    else if tag == CONTEXT_SPECIFIC + 2 then if IsAscii(value) then Some(Dns(AsString(value))) else None
    else if tag == CONTEXT_SPECIFIC + CONSTRUCTED + 4 then DirectoryNameOf(read, value, rest)
    else if tag == CONTEXT_SPECIFIC + 6 then if IsAscii(value) then Some(UriText(AsString(value))) else None
    else if tag == CONTEXT_SPECIFIC + 7 then IpName(mode, value)
    else None
  }

  function TypeOf(n: Name): NameType {
    match n
    case Other(_) => OtherName
    case Rfc822(_) => Rfc822Name
    case Dns(_) => DnsName
    case X400(_) => X400Address
    case Directory(_) => DirectoryName
    case EdiParty(_) => EdiPartyName
    case UriText(_) => Uri
    case Address(_) => IpAddress
    case AddressRange(_) => IpAddress
    case Registered(_) => RegisteredId
  }

  /** The list a name goes to grows by that name. */
  function Push(ns: Names, n: Name): Names {
    match n
    case Other(b) => ns.(otherNames := ns.otherNames + [b])
    case Rfc822(s) => ns.(rfc822Names := ns.rfc822Names + [s])
    case Dns(s) => ns.(dnsNames := ns.dnsNames + [s])
    case X400(b) => ns.(x400Addresses := ns.x400Addresses + [b])
    case Directory(b) => ns.(directoryNames := ns.directoryNames + [b])
    case EdiParty(b) => ns.(ediPartyNames := ns.ediPartyNames + [b])
    case UriText(s) => ns.(uris := ns.uris + [s])
    case Address(a) => ns.(ipAddresses := ns.ipAddresses + [a])
    case AddressRange(r) => ns.(ipRanges := ns.ipRanges + [r])
    case Registered(b) => ns.(registeredIds := ns.registeredIds + [b])
  }

  function Add(ns: Names, n: Name): Names {
    Push(ns, n).(present := ns.present + {TypeOf(n)})
  }

  /** ParseGeneralName on a value: a failing call changes nothing. */
  ghost function AddParsed(read: Reader, mode: IpMode, ns: Names, input: Bytes): Names {
    match ParsedName(read, mode, input)
    case None => ns
    case Some(n) => Add(ns, n)
  }

  // ----- the struct

  class GeneralNames {
    var otherNames: seq<Bytes>
    var rfc822Names: seq<string>
    var dnsNames: seq<string>
    var x400Addresses: seq<Bytes>
    var directoryNames: seq<Bytes>
    var ediPartyNames: seq<Bytes>
    var uris: seq<string>
    var ipAddresses: seq<Netmask.Octets>
    var ipRanges: seq<Range>
    var registeredIds: seq<Bytes>
    var present: set<NameType>

    function Contents(): Names
      reads this
    {
      Names(otherNames, rfc822Names, dnsNames, x400Addresses, directoryNames, ediPartyNames,
            uris, ipAddresses, ipRanges, registeredIds, present)
    }

    constructor ()
      ensures Contents() == EMPTY
    {
      otherNames, x400Addresses, directoryNames, ediPartyNames, registeredIds := [], [], [], [], [];
      rfc822Names, dnsNames, uris := [], [], [];
      ipAddresses, ipRanges, present := [], [], {};
    }

    /** The iPAddress branch. */
    method PushIp(mode: IpMode, value: Bytes) returns (nameType: Option<NameType>)
      modifies this
      ensures Pushed(nameType, IpName(mode, value), old(Contents()), Contents())
    {
      if mode == AddressOnly {
        if |value| != 4 && |value| != 16 {
          return None;
        }
        ipAddresses := ipAddresses + [AsOctets(value)];
      } else {
        if |value| != 8 && |value| != 32 {
          return None;
        }
        var addr := value[..|value| / 2];
        var mask := value[|value| / 2..];
        var valid := Netmask.IsValidNetmask(AsOctets(mask));
        if !valid {
          return None;
        }
        ipRanges := ipRanges + [Range(AsOctets(addr), AsOctets(mask))];
      }
      return Some(IpAddress);
    }

    /** The IA5String branches. */
    method PushText(tag: nat, value: Bytes) returns (nameType: Option<NameType>)
      requires tag == CONTEXT_SPECIFIC + 1 || tag == CONTEXT_SPECIFIC + 2 || tag == CONTEXT_SPECIFIC + 6
      modifies this
      ensures var n := if !IsAscii(value) then None
                       else if tag == CONTEXT_SPECIFIC + 1 then Some(Rfc822(AsString(value)))
                       else if tag == CONTEXT_SPECIFIC + 2 then Some(Dns(AsString(value)))
                       else Some(UriText(AsString(value)));
              Pushed(nameType, n, old(Contents()), Contents())
    {
      if !IsAscii(value) {
        return None;
      }
      if tag == CONTEXT_SPECIFIC + 1 {
        rfc822Names := rfc822Names + [AsString(value)];
        return Some(Rfc822Name);
      } else if tag == CONTEXT_SPECIFIC + 2 {
        dnsNames := dnsNames + [AsString(value)];
        return Some(DnsName);
      } else {
        uris := uris + [AsString(value)];
        return Some(Uri);
      }
    }

    /** The branches that store the value as it is. */
    method PushRaw(tag: nat, value: Bytes) returns (nameType: Option<NameType>)
      requires IsRaw(tag)
      modifies this
      ensures Pushed(nameType, Some(RawName(tag, value)), old(Contents()), Contents())
    {
      if tag == CONTEXT_SPECIFIC + CONSTRUCTED + 0 {
        otherNames := otherNames + [value];
        return Some(OtherName);
      } else if tag == CONTEXT_SPECIFIC + CONSTRUCTED + 3 {
        x400Addresses := x400Addresses + [value];
        return Some(X400Address);
      } else if tag == CONTEXT_SPECIFIC + CONSTRUCTED + 5 {
        ediPartyNames := ediPartyNames + [value];
        return Some(EdiPartyName);
      } else {
        registeredIds := registeredIds + [value];
        return Some(RegisteredId);
      }
    }

    /** The chain of branches on the tag; `rest` is the data after the element. */
    method PushTagged(read: Reader, mode: IpMode, tag: nat, value: Bytes, rest: Bytes) returns (nameType: Option<NameType>)
      modifies this
      ensures Pushed(nameType, TaggedName(read, mode, tag, value, rest), old(Contents()), Contents())
    {
      hide IpName, IsAscii, AsString, RawName;
      if IsRaw(tag) {
        nameType := PushRaw(tag, value);
      } else if tag == CONTEXT_SPECIFIC + CONSTRUCTED + 4 {
        var nameParser := new Parser(read, value);
        var nameValue := nameParser.ReadTag(SEQUENCE);
        if nameValue == None || rest != [] {
          return None;
        }
        directoryNames := directoryNames + [nameValue.value];
        return Some(DirectoryName);
      } else if tag == CONTEXT_SPECIFIC + 1 || tag == CONTEXT_SPECIFIC + 2 || tag == CONTEXT_SPECIFIC + 6 {
        nameType := PushText(tag, value);
      } else if tag == CONTEXT_SPECIFIC + 7 {
        nameType := PushIp(mode, value);
      } else {
        return None;
      }
    }

    method ParseGeneralName(read: Reader, mode: IpMode, input: Bytes) returns (ok: bool)
      modifies this
      ensures ok <==> ParsedName(read, mode, input).Some?
      ensures Contents() == AddParsed(read, mode, old(Contents()), input)
    {
      hide TaggedName;
      var parser := new Parser(read, input);
      var e := parser.ReadTagAndValue();
      if e == None {
        return false;
      }
      var nameType := PushTagged(read, mode, e.value.tag, e.value.value, parser.cbs);
      if nameType == None {
        return false;
      }
      present := present + {nameType.value};
      return true;
    }
  }

  /** A branch stored the name, if there is one, and reported its type. */
  ghost predicate Pushed(nameType: Option<NameType>, n: Option<Name>, before: Names, after: Names) {
    match n
    case None => nameType == None && after == before
    case Some(n) => nameType == Some(TypeOf(n)) && after == Push(before, n)
  }

  // ----- every run of calls

  datatype Call = Call(mode: IpMode, input: Bytes)

  ghost function RunCalls(read: Reader, ns: Names, calls: seq<Call>): Names
    decreases |calls|
  {
    if calls == [] then ns
    else
      var last := calls[|calls| - 1];
      AddParsed(read, last.mode, RunCalls(read, ns, calls[..|calls| - 1]), last.input)
  }

  /** Whether a list of the given type has an entry. */
  predicate HasEntry(ns: Names, t: NameType) {
    match t
    case OtherName => ns.otherNames != []
    case Rfc822Name => ns.rfc822Names != []
    case DnsName => ns.dnsNames != []
    case X400Address => ns.x400Addresses != []
    case DirectoryName => ns.directoryNames != []
    case EdiPartyName => ns.ediPartyNames != []
    case Uri => ns.uris != []
    case IpAddress => ns.ipAddresses != [] || ns.ipRanges != []
    case RegisteredId => ns.registeredIds != []
  }

  /** A type is recorded exactly when a list of that type has an entry. */
  ghost predicate TypesMatch(ns: Names) {
    forall t :: t in ns.present <==> HasEntry(ns, t)
  }

  ghost predicate RangesValid(ns: Names) {
    forall i | 0 <= i < |ns.ipRanges| :: RangeValid(ns.ipRanges[i])
  }

  lemma AddTypes(ns: Names, n: Name)
    requires TypesMatch(ns)
    ensures TypesMatch(Add(ns, n))
  {
    forall t ensures HasEntry(Add(ns, n), t) <==> HasEntry(ns, t) || t == TypeOf(n) {
      if t == TypeOf(n) { PushOwn(ns, n); } else { PushOther(ns, n, t); }
    }
    hide HasEntry, Push;
  }

  lemma PushOwn(ns: Names, n: Name)
    ensures HasEntry(Add(ns, n), TypeOf(n))
  {
    match n
    case Other(b) => assert (ns.otherNames + [b]) != [];
    case Rfc822(s) => assert (ns.rfc822Names + [s]) != [];
    case Dns(s) => assert (ns.dnsNames + [s]) != [];
    case X400(b) => assert (ns.x400Addresses + [b]) != [];
    case Directory(b) => assert (ns.directoryNames + [b]) != [];
    case EdiParty(b) => assert (ns.ediPartyNames + [b]) != [];
    case UriText(s) => assert (ns.uris + [s]) != [];
    case Address(a) => assert (ns.ipAddresses + [a]) != [];
    case AddressRange(r) => assert (ns.ipRanges + [r]) != [];
    case Registered(b) => assert (ns.registeredIds + [b]) != [];
  }

  lemma PushOther(ns: Names, n: Name, t: NameType)
    requires t != TypeOf(n)
    ensures HasEntry(Add(ns, n), t) <==> HasEntry(ns, t)
  {
  }

  ghost predicate RangeValid(r: Range) {
    |r.addr| == |r.mask| && Netmask.ValidNetmask(r.mask)
  }

  lemma AddRanges(ns: Names, n: Name)
    requires RangesValid(ns) && (n.AddressRange? ==> RangeValid(n.range))
    ensures RangesValid(Add(ns, n))
  {
    hide RangeValid;
  }

  lemma ParsedRangeValid(read: Reader, mode: IpMode, input: Bytes)
    ensures var n := ParsedName(read, mode, input);
            n.Some? && n.value.AddressRange? ==> RangeValid(n.value.range)
  {
    hide Netmask.ValidNetmask, IsAscii, AsString;
  }

  lemma AddKeeps(read: Reader, mode: IpMode, ns: Names, input: Bytes)
    requires TypesMatch(ns) && RangesValid(ns)
    ensures TypesMatch(AddParsed(read, mode, ns, input)) && RangesValid(AddParsed(read, mode, ns, input))
  {
    hide RangeValid, ParsedName, TypesMatch, RangesValid, Add;
    var n := ParsedName(read, mode, input);
    if n.Some? {
      AddTypes(ns, n.value);
      ParsedRangeValid(read, mode, input);
      AddRanges(ns, n.value);
    }
  }

  /** After any calls on an empty struct, failing ones included, the type bits describe the
    * lists and every stored range has a prefix mask of the address's size. */
  lemma {:induction false} RunKeeps(read: Reader, calls: seq<Call>)
    ensures TypesMatch(RunCalls(read, EMPTY, calls)) && RangesValid(RunCalls(read, EMPTY, calls))
    decreases |calls|
  {
    if calls != [] {
      var n := |calls| - 1;
      RunKeeps(read, calls[..n]);
      AddKeeps(read, calls[n].mode, RunCalls(read, EMPTY, calls[..n]), calls[n].input);
    }
  }

  /** The range is the addresses that agree with its own on the first `k` bits. */
  ghost predicate IsPrefixRange(r: Range, k: nat) {
    && k <= 8 * |r.addr|
    && forall x: Netmask.Octets | |x| == |r.addr| ::
         Netmask.Matches(x, r.addr, r.mask) <==> Netmask.SamePrefix(x, r.addr, k)
  }

  /** Any two stored ranges of one size are nested or have no address in common, and an
    * address lies in a range exactly when it shares the prefix the mask gives. */
  lemma StoredRanges(read: Reader, calls: seq<Call>, i: nat, j: nat)
    requires var rs := RunCalls(read, EMPTY, calls).ipRanges;
             i < |rs| && j < |rs| && |rs[i].addr| == |rs[j].addr|
    ensures var rs := RunCalls(read, EMPTY, calls).ipRanges;
            var a, b := rs[i], rs[j];
            || (forall x :: Netmask.Matches(x, a.addr, a.mask) ==> Netmask.Matches(x, b.addr, b.mask))
            || (forall x :: Netmask.Matches(x, b.addr, b.mask) ==> Netmask.Matches(x, a.addr, a.mask))
            || (forall x :: !(Netmask.Matches(x, a.addr, a.mask) && Netmask.Matches(x, b.addr, b.mask)))
    ensures var a := RunCalls(read, EMPTY, calls).ipRanges[i];
            exists k: nat :: IsPrefixRange(a, k)
  {
    RunKeeps(read, calls);
    var rs := RunCalls(read, EMPTY, calls).ipRanges;
    assert RangeValid(rs[i]) && RangeValid(rs[j]);
    Netmask.RangesNestedOrDisjoint(rs[i].addr, rs[i].mask, rs[j].addr, rs[j].mask);
    var a := rs[i];
    var k: nat :| Netmask.PrefixMask(a.mask, k);
    forall x: Netmask.Octets | |x| == |a.addr|
      ensures Netmask.Matches(x, a.addr, a.mask) <==> Netmask.SamePrefix(x, a.addr, k)
    {
      Netmask.MatchIsPrefix(x, a.addr, a.mask, k);
    }
    assert IsPrefixRange(a, k);
  }

  // ----- lists of names

  ghost function AddAll(ns: Names, names: seq<Name>): Names
    decreases |names|
  {
    if names == [] then ns else Add(AddAll(ns, names[..|names| - 1]), names[|names| - 1])
  }

  /** The names of a GeneralNames body, when every element is one. */
  ghost function NamesOf(read: Reader, b: Bytes): Option<seq<Name>>
    decreases |b|
  {
    if b == [] then Some([])
    else
      match read(b)
      case None => None
      case Some(t) => Cons(ParsedName(read, AddressOnly, b[..t.len]), NamesOf(read, b[t.len..]))
  }

  /** The names of a GeneralSubtrees body: each is alone in a SEQUENCE. */
  ghost function SubtreesOf(read: Reader, b: Bytes): Option<seq<Name>>
    decreases |b|
  {
    if b == [] then Some([])
    else
      match Tagged(read, SEQUENCE, b)
      case None => None
      case Some(e) => Cons(SubtreeName(read, e.value), SubtreesOf(read, e.rest))
  }

  ghost function SubtreeName(read: Reader, b: Bytes): Option<Name> {
    match read(b)
    case None => None
    case Some(t) => if t.len < |b| then None else ParsedName(read, AddressAndNetmask, b)
  }

  function Cons(n: Option<Name>, ns: Option<seq<Name>>): Option<seq<Name>> {
    if n == None || ns == None then None else Some([n.value] + ns.value)
  }

  lemma AfterName(done: seq<Name>, n: Option<Name>, ns: Option<seq<Name>>)
    ensures After(done, Cons(n, ns)) == if n == None then None else After(done + [n.value], ns)
  {
    if n.Some? && ns.Some? { assert done + ([n.value] + ns.value) == done + [n.value] + ns.value; }
  }

  /** One turn of the loop of CreateFromValue. */
  lemma NamesStep(read: Reader, done: seq<Name>, b: Bytes)
    requires b != []
    ensures After(done, NamesOf(read, b)) ==
              match read(b)
              case None => None
              case Some(t) =>
                match ParsedName(read, AddressOnly, b[..t.len])
                case None => None
                case Some(n) => After(done + [n], NamesOf(read, b[t.len..]))
  {
    if read(b).Some? {
      var t := read(b).value;
      AfterName(done, ParsedName(read, AddressOnly, b[..t.len]), NamesOf(read, b[t.len..]));
    }
    hide ParsedName;
  }

  /** One turn of the loop of ParseGeneralSubtrees. */
  lemma SubtreesStep(read: Reader, done: seq<Name>, b: Bytes)
    requires b != []
    ensures After(done, SubtreesOf(read, b)) ==
              match Tagged(read, SEQUENCE, b)
              case None => None
              case Some(e) =>
                match SubtreeName(read, e.value)
                case None => None
                case Some(n) => After(done + [n], SubtreesOf(read, e.rest))
  {
    var e := Tagged(read, SEQUENCE, b);
    if e.Some? {
      AfterName(done, SubtreeName(read, e.value.value), SubtreesOf(read, e.value.rest));
    }
    hide SubtreeName;
  }

  lemma AddAllSnoc(ns: Names, done: seq<Name>, n: Name)
    ensures AddAll(ns, done + [n]) == Add(AddAll(ns, done), n)
  {
    assert (done + [n])[..|done|] == done;
  }

  lemma EmptyLists(read: Reader)
    ensures AddAll(EMPTY, []) == EMPTY && NamesOf(read, []) == Some([]) && SubtreesOf(read, []) == Some([])
  {
  }

  /** GeneralNames::CreateFromValue */
  method CreateFromValue(read: Reader, value: Bytes) returns (names: GeneralNames?)
    ensures names != null <==> value != [] && NamesOf(read, value).Some?
    ensures names != null ==> fresh(names) && names.Contents() == AddAll(EMPTY, NamesOf(read, value).value)
  {
    hide AddAll, Add, ParsedName, NamesOf, After;
    names := new GeneralNames();
    var parser := new Parser(read, value);
    if !parser.HasMore() {
      return null;
    }
    ghost var done: seq<Name> := [];
    EmptyLists(read);
    AfterEnds(done, NamesOf(read, value));
    while parser.HasMore()
      invariant fresh(parser) && fresh(names) && parser.read == read
      invariant NamesOf(read, value) == After(done, NamesOf(read, parser.cbs))
      invariant names.Contents() == AddAll(EMPTY, done)
      decreases |parser.cbs|
    {
      ghost var b := parser.cbs;
      NamesStep(read, done, b);
      var raw := parser.ReadRawTLV();
      if raw == None {
        return null;
      }
      assert raw.value == b[..|raw.value|] && parser.cbs == b[|raw.value|..];
      ghost var n := ParsedName(read, AddressOnly, raw.value);
      var ok := names.ParseGeneralName(read, AddressOnly, raw.value);
      if !ok {
        return null;
      }
      AddAllSnoc(EMPTY, done, n.value);
      done := done + [n.value];
    }
    AfterEnds(done, None);
  }

  /** ParseGeneralSubtrees on a default initialized struct. */
  method ParseGeneralSubtrees(read: Reader, value: Bytes, subtrees: GeneralNames) returns (ok: bool)
    requires subtrees.Contents() == EMPTY
    modifies subtrees
    ensures ok <==> value != [] && SubtreesOf(read, value).Some?
    ensures ok ==> subtrees.Contents() == AddAll(EMPTY, SubtreesOf(read, value).value)
  {
    hide AddAll, Add, ParsedName, SubtreesOf, After, Tagged;
    var parser := new Parser(read, value);
    if !parser.HasMore() {
      return false;
    }
    ghost var done: seq<Name> := [];
    EmptyLists(read);
    AfterEnds(done, SubtreesOf(read, value));
    while parser.HasMore()
      invariant fresh(parser) && parser.read == read
      invariant SubtreesOf(read, value) == After(done, SubtreesOf(read, parser.cbs))
      invariant subtrees.Contents() == AddAll(EMPTY, done)
      decreases |parser.cbs|
    {
      ghost var b := parser.cbs;
      SubtreesStep(read, done, b);
      TaggedShorter(read, SEQUENCE, b);
      var inner := parser.ReadSequence();
      if inner == null {
        return false;
      }
      ghost var body := inner.cbs;
      var raw := inner.ReadRawTLV();
      if raw == None {
        return false;
      }
      assert inner.cbs == [] ==> raw.value == body by { assert raw.value + [] == raw.value; }
      var parsed := subtrees.ParseGeneralName(read, AddressAndNetmask, raw.value);
      if !parsed {
        return false;
      }
      if inner.HasMore() {
        return false;
      }
      ghost var n := SubtreeName(read, body);
      AddAllSnoc(EMPTY, done, n.value);
      done := done + [n.value];
    }
    AfterEnds(done, None);
    return true;
  }

  lemma TaggedShorter(read: Reader, tag: nat, b: Bytes)
    ensures var e := Tagged(read, tag, b); e.Some? ==> |e.value.rest| < |b|
  {
  }

  /** Parsed lists are runs of parser calls, so the type bits describe them. */
  lemma {:induction false} AddAllTypes(names: seq<Name>)
    ensures TypesMatch(AddAll(EMPTY, names))
    decreases |names|
  {
    if names != [] {
      AddAllTypes(names[..|names| - 1]);
      AddTypes(AddAll(EMPTY, names[..|names| - 1]), names[|names| - 1]);
      hide TypesMatch;
    }
  }
}
