/** Certificate revocation lists, pki/crl.cc (sections 5.1.2.6, 5.3 and 6.3.3 of RFC 5280).
  * The outer structure of the list, names, dates and signatures are parameters.
  */
module Crl {
  import opened Basics
  import opened DerCursor
  import opened DerTimes
  import opened Extensions
  import opened BitStrings

  datatype CrlVersion = V1 | V2

  // ----- one entry of the revoked list

  predicate ReadableTime(e: Element) {
    if e.tag == UTC_TIME then ParsedUTCTime(e.value).Some?
    else e.tag == GENERALIZED_TIME && ParsedGeneralizedTime(e.value).Some?
  }

  /** ReadUTCOrGeneralizedTime; callers here only need to know that it succeeds. */
  method ReadUTCOrGeneralizedTime(p: Parser) returns (time: Option<Time>)
    modifies p
    ensures var e := Peeked(p.read, old(p.cbs));
            && (time.Some? <==> e.Some? && ReadableTime(e.value))
            && p.cbs == (if e.Some? then e.value.rest else old(p.cbs))
            && (time.Some? ==> time == if e.value.tag == UTC_TIME then ParsedUTCTime(e.value.value) else ParsedGeneralizedTime(e.value.value))
  {
    var e := p.ReadTagAndValue();
    if e == None {
      return None;
    }
    if e.value.tag == UTC_TIME {
      time := ParseUTCTime(e.value.value);
      return;
    }
    if e.value.tag == GENERALIZED_TIME {
      time := ParseGeneralizedTime(e.value.value);
      return;
    }
    return None;
  }

  /** What follows the date: nothing, or extensions of a version 2 list, none of them critical. */
  ghost predicate GoodTail(read: Reader, parse: Bytes -> Option<Extension>, version: CrlVersion, b: Bytes) {
    b == [] || (
      && version == V2
      && IsWhole(read, b)
      && ParsedExtensions(read, parse, b).Some?
      && !HasUnhandledCritical(ParsedExtensions(read, parse, b).value, {}))
  }

  /** The serial number of an entry, from the contents of its SEQUENCE, unless the entry is
    * malformed, has a critical extension, or has extensions in a version 1 list. */
  ghost function EntrySerial(read: Reader, parse: Bytes -> Option<Extension>, version: CrlVersion, v: Bytes): Option<Bytes> {
    match Tagged(read, INTEGER, v)
    case None => None
    case Some(serial) =>
      match Peeked(read, serial.rest)
      case None => None
      case Some(date) =>
        if ReadableTime(date) && GoodTail(read, parse, version, date.rest) then Some(serial.value) else None
  }

  ghost function SerialOf(read: Reader, parse: Bytes -> Option<Extension>, version: CrlVersion, e: Bytes): Option<Bytes> {
    match Tagged(read, SEQUENCE, e)
    case None => None
    case Some(entry) => EntrySerial(read, parse, version, entry.value)
  }

  method ReadTail(read: Reader, parse: Bytes -> Option<Extension>, version: CrlVersion, p: Parser) returns (ok: bool)
    requires p.read == read
    modifies p
    ensures ok <==> GoodTail(read, parse, version, old(p.cbs))
  {
    hide ParsedExtensions;
    if p.HasMore() {
      if version != V2 {
        return false;
      }
      var raw := p.ReadRawTLV();
      if raw == None {
        return false;
      }
      assert !p.HasMore() ==> raw.value == old(p.cbs);
      var extensions := ParseExtensions(read, parse, raw.value);
      if extensions == None {
        return false;
      }
      var critical := FindUnhandledCritical(extensions.value, {});
      if critical {
        return false;
      }
    }
    return !p.HasMore();
  }

  method ReadEntry(read: Reader, parse: Bytes -> Option<Extension>, version: CrlVersion, p: Parser) returns (serial: Option<Bytes>)
    requires p.read == read
    modifies p
    ensures serial == EntrySerial(read, parse, version, old(p.cbs))
  {
    hide GoodTail, ReadableTime;
    serial := p.ReadTag(INTEGER);
    if serial == None {
      return;
    }
    var date := ReadUTCOrGeneralizedTime(p);
    if date == None {
      return None;
    }
    var ok := ReadTail(read, parse, version, p);
    if !ok {
      return None;
    }
  }

  // ----- the revoked list

  ghost function Serials(read: Reader, parse: Bytes -> Option<Extension>, version: CrlVersion, b: Bytes): Option<seq<Bytes>>
    decreases |b|
  {
    if b == [] then Some([])
    else
      match Tagged(read, SEQUENCE, b)
      case None => None
      case Some(entry) =>
        match EntrySerial(read, parse, version, entry.value)
        case None => None
        case Some(serial) => After([serial], Serials(read, parse, version, entry.rest))
  }

  function Judge(serial: Bytes, serials: Option<seq<Bytes>>): RevocationStatus {
    match serials
    case None => UNKNOWN
    case Some(ss) => if serial in ss then REVOKED else GOOD
  }

  ghost function ListStatus(read: Reader, parse: Bytes -> Option<Extension>, version: CrlVersion, serial: Bytes, revoked: Option<Bytes>): RevocationStatus {
    match revoked
    case None => GOOD
    case Some(tlv) =>
      match Tagged(read, SEQUENCE, tlv)
      case None => UNKNOWN
      case Some(list) =>
        if list.value == [] || list.rest != [] then UNKNOWN
        else Judge(serial, Serials(read, parse, version, list.value))
  }

  /** GetCRLStatusForCert */
  method GetCRLStatusForCert(read: Reader, parse: Bytes -> Option<Extension>, serial: Bytes, version: CrlVersion, revoked: Option<Bytes>)
    returns (status: RevocationStatus)
    ensures status == ListStatus(read, parse, version, serial, revoked)
  {
    hide After, EntrySerial;
    if revoked == None {
      return GOOD;
    }
    var parser := new Parser(read, revoked.value);
    var list := parser.ReadSequence();
    if list == null || !list.HasMore() || parser.HasMore() {
      return UNKNOWN;
    }
    ghost var body := list.cbs;
    ghost var ss: seq<Bytes> := [];
    var found := false;
    AfterEnds(ss, Serials(read, parse, version, body));
    while list.HasMore()
      invariant list.read == read
      invariant Serials(read, parse, version, body) == After(ss, Serials(read, parse, version, list.cbs))
      invariant found <==> serial in ss
      decreases |list.cbs|
    {
      AfterEnds(ss, None);
      ghost var before := list.cbs;
      var entry := list.ReadSequence();
      if entry == null {
        return UNKNOWN;
      }
      assert |list.cbs| < |before|;
      var revokedSerial := ReadEntry(read, parse, version, entry);
      if revokedSerial == None {
        return UNKNOWN;
      }
      AfterCons(ss, revokedSerial.value, Serials(read, parse, version, list.cbs));
      if revokedSerial.value == serial {
        found := true;
      }
      ss := ss + [revokedSerial.value];
    }
    AfterEnds(ss, None);
    return if found then REVOKED else GOOD;
  }

  // ----- the entries decide, in any order

  /** A bad entry anywhere makes the list useless; otherwise only membership counts. */
  ghost predicate Decided(read: Reader, parse: Bytes -> Option<Extension>, version: CrlVersion, serial: Bytes, es: seq<Bytes>, status: RevocationStatus) {
    if exists e | e in es :: SerialOf(read, parse, version, e) == None then status == UNKNOWN
    else if exists e | e in es :: SerialOf(read, parse, version, e) == Some(serial) then status == REVOKED
    else status == GOOD
  }

  lemma WholeFirst(read: Reader, tag: nat, e: Bytes, rest: Bytes)
    requires SelfDelimiting(read) && IsWhole(read, e)
    ensures Tagged(read, tag, e).Some? <==> Tagged(read, tag, e + rest).Some?
    ensures Tagged(read, tag, e).Some? ==>
              && Tagged(read, tag, e + rest).value.value == Tagged(read, tag, e).value.value
              && Tagged(read, tag, e + rest).value.rest == rest
  {
    var t := read(e).value;
    assert read(e + rest) == read(e);
    assert (e + rest)[t.len..] == rest;
    if t.header <= t.len { assert (e + rest)[t.header..t.len] == e[t.header..t.len]; }
  }

  lemma {:induction false} EntriesDecide(read: Reader, parse: Bytes -> Option<Extension>, version: CrlVersion, serial: Bytes, es: seq<Bytes>)
    requires SelfDelimiting(read) && forall i | 0 <= i < |es| :: IsWhole(read, es[i])
    ensures Decided(read, parse, version, serial, es, Judge(serial, Serials(read, parse, version, Flatten(es))))
    decreases |es|
  {
    hide SerialOf, SelfDelimiting, IsWhole, Judge;
    if es == [] {
      assert Serials(read, parse, version, []) == Some([]);
      assert Judge(serial, Some([])) == GOOD by { NoSerials(serial); }
    } else {
      hide Serials, Decided;
      EntriesDecide(read, parse, version, serial, es[1..]);
      FirstEntry(read, parse, version, es);
      FirstDecides(read, parse, version, serial, es, Serials(read, parse, version, Flatten(es[1..])));
    }
  }

  lemma NoSerials(serial: Bytes)
    ensures Judge(serial, Some([])) == GOOD
  {
  }

  /** One more entry in front of a decided list. */
  lemma FirstDecides(read: Reader, parse: Bytes -> Option<Extension>, version: CrlVersion, serial: Bytes, es: seq<Bytes>, rest: Option<seq<Bytes>>)
    requires es != [] && Decided(read, parse, version, serial, es[1..], Judge(serial, rest))
    ensures var first := SerialOf(read, parse, version, es[0]);
            Decided(read, parse, version, serial, es,
                    Judge(serial, match first case None => None case Some(s) => After([s], rest)))
  {
    hide SerialOf;
    FirstAndRest(es);
    assert es[0] in es;
  }

  lemma FirstEntry(read: Reader, parse: Bytes -> Option<Extension>, version: CrlVersion, es: seq<Bytes>)
    requires SelfDelimiting(read) && es != [] && IsWhole(read, es[0])
    ensures Serials(read, parse, version, Flatten(es)) ==
            match SerialOf(read, parse, version, es[0])
            case None => None
            case Some(s) => After([s], Serials(read, parse, version, Flatten(es[1..])))
  {
    hide EntrySerial;
    WholeFirst(read, SEQUENCE, es[0], Flatten(es[1..]));
    assert Flatten(es) == es[0] + Flatten(es[1..]) != [];
    hide SelfDelimiting, IsWhole, Tagged, Flatten;
  }

  lemma FirstAndRest(es: seq<Bytes>)
    requires es != []
    ensures forall e :: e in es <==> e == es[0] || e in es[1..]
  {
    assert es == [es[0]] + es[1..];
  }

  /** The decision in terms of the elements of the list, which may come in any order. */
  lemma EntryOrderIrrelevant(read: Reader, parse: Bytes -> Option<Extension>, version: CrlVersion, serial: Bytes, a: seq<Bytes>, b: seq<Bytes>)
    requires SelfDelimiting(read) && forall i | 0 <= i < |a| :: IsWhole(read, a[i])
    requires multiset(a) == multiset(b)
    ensures Judge(serial, Serials(read, parse, version, Flatten(a))) == Judge(serial, Serials(read, parse, version, Flatten(b)))
  {
    hide SerialOf, Serials, SelfDelimiting, IsWhole, Judge;
    forall e ensures e in a <==> e in b {
      assert e in a <==> e in multiset(a);
      assert e in b <==> e in multiset(b);
    }
    forall i | 0 <= i < |b| ensures IsWhole(read, b[i]) {
      assert b[i] in a;
    }
    EntriesDecide(read, parse, version, serial, a);
    EntriesDecide(read, parse, version, serial, b);
  }

  // ----- distribution point names

  lemma {:induction false} LexTotal(a: Bytes, b: Bytes)
    ensures !LexLess(a, b) && !LexLess(b, a) <==> a == b
    ensures !(LexLess(a, b) && LexLess(b, a))
  {
    if a != [] && b != [] {
      LexTotal(a[1..], b[1..]);
      assert a == [a[0]] + a[1..] && b == [b[0]] + b[1..];
    }
  }

  lemma {:induction false} LexTransitive(a: Bytes, b: Bytes, c: Bytes)
    requires LexLess(a, b) && !LexLess(c, b)
    ensures LexLess(a, c)
  {
    if c != [] && a != [] && a[0] == b[0] == c[0] {
      LexTransitive(a[1..], b[1..], c[1..]);
    }
  }

  ghost predicate IsSorted(s: seq<Bytes>) {
    forall i, j | 0 <= i < j < |s| :: !LexLess(s[j], s[i])
  }

  /** std::sort, here by insertion. */
  method Sort(a: seq<Bytes>) returns (s: seq<Bytes>)
    ensures IsSorted(s) && multiset(s) == multiset(a)
  {
    s := [];
    for n := 0 to |a|
      invariant IsSorted(s) && multiset(s) == multiset(a[..n])
    {
      var k := 0;
      while k < |s| && !LexLess(a[n], s[k])
        invariant k <= |s| && forall i | 0 <= i < k :: !LexLess(a[n], s[i])
      {
        k := k + 1;
      }
      Inserted(s, k, a[n]);
      assert a[..n + 1] == a[..n] + [a[n]];
      s := s[..k] + [a[n]] + s[k..];
    }
    assert a[..|a|] == a;
  }

  lemma Inserted(s: seq<Bytes>, k: nat, x: Bytes)
    requires k <= |s| && IsSorted(s)
    requires forall i | 0 <= i < k :: !LexLess(x, s[i])
    requires k < |s| ==> LexLess(x, s[k])
    ensures IsSorted(s[..k] + [x] + s[k..])
    ensures multiset(s[..k] + [x] + s[k..]) == multiset(s) + multiset([x])
  {
    hide LexLess;
    var t := s[..k] + [x] + s[k..];
    forall i, j | 0 <= i < j < |t| ensures !LexLess(t[j], t[i]) {
      assert t[i] == if i < k then s[i] else if i == k then x else s[i - 1];
      assert t[j] == if j < k then s[j] else if j == k then x else s[j - 1];
      if i == k { NotBelow(x, s, k, j - 1); }
    }
    assert s == s[..k] + s[k..];
  }

  lemma NotBelow(x: Bytes, s: seq<Bytes>, k: nat, q: nat)
    requires IsSorted(s) && k <= q < |s| && LexLess(x, s[k])
    ensures LexLess(x, s[q]) && !LexLess(s[q], x)
  {
    LexTotal(s[k], s[k]);
    LexTransitive(x, s[k], s[q]);
    LexTotal(x, s[q]);
  }

  /** ContainsExactMatchingName: sort both, intersect, and see whether anything is left. */
  method ContainsExactMatchingName(a: seq<Bytes>, b: seq<Bytes>) returns (found: bool)
    ensures found <==> exists x | x in a :: x in b
  {
    var s := Sort(a);
    var t := Sort(b);
    var common := SetIntersection(s, t);
    SameElements(a, s);
    SameElements(b, t);
    if common != [] { assert common[0] in common; }
    return common != [];
  }

  lemma SameElements(a: seq<Bytes>, s: seq<Bytes>)
    requires multiset(a) == multiset(s)
    ensures forall x :: x in a <==> x in s
  {
    forall x ensures x in a <==> x in s {
      assert x in a <==> x in multiset(a);
      assert x in s <==> x in multiset(s);
    }
  }

  /** std::set_intersection */
  method SetIntersection(a: seq<Bytes>, b: seq<Bytes>) returns (common: seq<Bytes>)
    requires IsSorted(a) && IsSorted(b)
    ensures forall x | x in common :: x in a && x in b
    ensures common == [] ==> forall x | x in a :: x !in b
  {
    hide LexLess;
    var i, j := 0, 0;
    common := [];
    while i < |a| && j < |b|
      invariant i <= |a| && j <= |b|
      invariant forall x | x in common :: x in a && x in b
      invariant common == [] ==> (forall p | 0 <= p < i :: a[p] !in b) && (forall q | 0 <= q < j :: b[q] !in a)
      decreases |a| - i + |b| - j
    {
      LexTotal(a[i], b[j]);
      if LexLess(a[i], b[j]) {
        if common == [] { NotLater(a[i], b, j); }
        i := i + 1;
      } else if LexLess(b[j], a[i]) {
        if common == [] { NotLater(b[j], a, i); }
        j := j + 1;
      } else {
        common := common + [a[i]];
        i, j := i + 1, j + 1;
      }
    }
  }

  /** An element below `s[j]` is not found from `j` on. */
  lemma NotLater(x: Bytes, s: seq<Bytes>, j: nat)
    requires IsSorted(s) && j < |s| && LexLess(x, s[j])
    ensures forall q | j <= q < |s| :: s[q] != x
  {
    forall q | j <= q < |s| ensures s[q] != x {
      NotBelow(x, s, j, q);
    }
  }

  // ----- the whole check

  datatype CertificateList = CertificateList(tbs: Bytes, algorithm: Bytes, signature: Bytes)

  datatype TbsCertList = TbsCertList(
    version: CrlVersion, algorithm: Bytes, issuer: Bytes, thisUpdate: Time, nextUpdate: Option<Time>,
    revoked: Option<Bytes>, extensions: Option<Bytes>)

  datatype CertsType = ANY_CERTS | USER_CERTS | CA_CERTS

  /** The issuing distribution point: the URIs of its full name, if it has one, and its scope. */
  datatype IssuingPoint = IssuingPoint(uris: Option<seq<Bytes>>, onlyContains: CertsType)

  /** ParsedDistributionPoint of the certificate. */
  datatype DistributionPoint = DistributionPoint(hasReasons: bool, hasCrlIssuer: bool, uris: Option<seq<Bytes>>)

  datatype CertificateVersion = CertificateV1 | CertificateV2 | CertificateV3

  datatype Certificate = Certificate(
    normalizedIssuer: Bytes, normalizedSubject: Bytes, serial: Bytes, spki: Bytes,
    version: CertificateVersion, basicConstraintsCa: Option<bool>, keyUsage: Option<BitString>)

  datatype World = World(
    read: Reader,
    parseExtension: Bytes -> Option<Extension>,
    parseList: Bytes -> Option<CertificateList>,
    parseTbs: Bytes -> Option<TbsCertList>,
    parseAlgorithm: Bytes -> Option<nat>,
    parseIssuingPoint: Bytes -> Option<IssuingPoint>,
    normalizeName: Bytes -> Option<Bytes>,
    verifySignedData: (nat, Bytes, Bytes, Bytes) -> bool,
    dateValid: (Time, Option<Time>) -> bool)

  const ISSUING_DISTRIBUTION_POINT: Bytes := [0x55, 0x1D, 0x1C]
  const KEY_USAGE_BIT_CRL_SIGN: nat := 6

  function NormalizedNameTLV(w: World, tlv: Bytes): Option<Bytes> {
    match Tagged(w.read, SEQUENCE, tlv)
    case None => None
    case Some(e) => if e.rest == [] then w.normalizeName(e.value) else None
  }

  /** The list covers the certificate: a common distribution point URI and the right kind of certificate. */
  ghost predicate InScope(idp: IssuingPoint, target: Certificate, dp: DistributionPoint) {
    && (idp.uris.Some? ==> dp.uris.Some? && exists x | x in dp.uris.value :: x in idp.uris.value)
    && (idp.onlyContains == USER_CERTS ==>
          target.basicConstraintsCa != Some(true) && target.version == CertificateV3)
    && (idp.onlyContains == CA_CERTS ==> target.basicConstraintsCa == Some(true))
  }

  ghost predicate ExtensionsAllow(w: World, extensions: Option<Bytes>, target: Certificate, dp: DistributionPoint) {
    match extensions
    case None => true
    case Some(tlv) =>
      var parsed := ParsedExtensions(w.read, w.parseExtension, tlv);
      && parsed.Some?
      && var m := parsed.value;
      && (ISSUING_DISTRIBUTION_POINT in m ==>
            var idp := w.parseIssuingPoint(m[ISSUING_DISTRIBUTION_POINT].value);
            idp.Some? && InScope(idp.value, target, dp))
      && !HasUnhandledCritical(m - {ISSUING_DISTRIBUTION_POINT}, {})
  }

  method CheckScope(idp: IssuingPoint, target: Certificate, dp: DistributionPoint) returns (ok: bool)
    ensures ok <==> InScope(idp, target, dp)
  {
    if idp.uris.Some? {
      if dp.uris == None {
        return false;
      }
      var common := ContainsExactMatchingName(dp.uris.value, idp.uris.value);
      if !common {
        return false;
      }
    }
    match idp.onlyContains
    case USER_CERTS =>
      ok := !(target.basicConstraintsCa == Some(true) || target.version == CertificateV1 || target.version == CertificateV2);
    case CA_CERTS =>
      ok := !(target.basicConstraintsCa == None || !target.basicConstraintsCa.value);
    case ANY_CERTS =>
      ok := true;
  }

  method CheckExtensions(w: World, extensions: Option<Bytes>, target: Certificate, dp: DistributionPoint) returns (ok: bool)
    ensures ok <==> ExtensionsAllow(w, extensions, target, dp)
  {
    hide ParsedExtensions, HasUnhandledCritical, InScope;
    if extensions == None {
      return true;
    }
    var parsed := ParseExtensions(w.read, w.parseExtension, extensions.value);
    if parsed == None {
      return false;
    }
    var m := parsed.value;
    var idpExtension, rest := ConsumeExtension(ISSUING_DISTRIBUTION_POINT, m);
    assert rest == m - {ISSUING_DISTRIBUTION_POINT};
    if idpExtension.Some? {
      var idp := w.parseIssuingPoint(idpExtension.value.value);
      if idp == None {
        return false;
      }
      var covered := CheckScope(idp.value, target, dp);
      if !covered {
        return false;
      }
    }
    var critical := FindUnhandledCritical(rest, {});
    return !critical;
  }

  /** A list that may be used for the target once its signer is found. */
  datatype Usable = Usable(list: CertificateList, tbs: TbsCertList, algorithm: nat, issuer: Bytes)

  ghost function Admitted(w: World, raw: Bytes, target: Certificate, dp: DistributionPoint): Option<Usable> {
    if dp.hasReasons || dp.hasCrlIssuer || w.parseList(raw) == None then None
    else
      var list := w.parseList(raw).value;
      if w.parseTbs(list.tbs) == None then None
      else
        var tbs := w.parseTbs(list.tbs).value;
        var algorithm, issuer := w.parseAlgorithm(list.algorithm), NormalizedNameTLV(w, tbs.issuer);
        if && algorithm.Some? && algorithm == w.parseAlgorithm(tbs.algorithm)
           && w.dateValid(tbs.thisUpdate, tbs.nextUpdate)
           && issuer == Some(target.normalizedIssuer)
           && ExtensionsAllow(w, tbs.extensions, target, dp)
        then Some(Usable(list, tbs, algorithm.value, issuer.value))
        else None
  }

  /** A certificate that may sign the list, and did. */
  predicate IsSigner(w: World, u: Usable, cert: Certificate) {
    && cert.normalizedSubject == u.issuer
    && (cert.keyUsage.Some? ==> AssertsBit(cert.keyUsage.value, KEY_USAGE_BIT_CRL_SIGN))
    && w.verifySignedData(u.algorithm, u.list.tbs, u.list.signature, cert.spki)
  }

  /** CheckCRL: past the gates the list's status is reported exactly when some certificate
    * above the target is a signer, whichever is found first; otherwise the status is UNKNOWN. */
  method CheckCRL(w: World, raw: Bytes, chain: seq<Certificate>, targetIndex: nat, dp: DistributionPoint) returns (status: RevocationStatus)
    requires targetIndex < |chain|
    ensures var target := chain[targetIndex];
            var u := Admitted(w, raw, target, dp);
            status ==
            if u.Some? && exists i :: targetIndex < i < |chain| && IsSigner(w, u.value, chain[i])
            then ListStatus(w.read, w.parseExtension, u.value.tbs.version, target.serial, u.value.tbs.revoked)
            else UNKNOWN
  {
    hide ExtensionsAllow, ListStatus, AssertsBit, NormalizedNameTLV;
    if dp.hasReasons {
      return UNKNOWN;
    }
    if dp.hasCrlIssuer {
      return UNKNOWN;
    }
    var target := chain[targetIndex];
    var list := w.parseList(raw);
    if list == None {
      return UNKNOWN;
    }
    var tbs := w.parseTbs(list.value.tbs);
    if tbs == None {
      return UNKNOWN;
    }
    var algorithm := w.parseAlgorithm(list.value.algorithm);
    if algorithm == None {
      return UNKNOWN;
    }
    var tbsAlgorithm := w.parseAlgorithm(tbs.value.algorithm);
    if tbsAlgorithm == None || algorithm.value != tbsAlgorithm.value {
      return UNKNOWN;
    }
    if !w.dateValid(tbs.value.thisUpdate, tbs.value.nextUpdate) {
      return UNKNOWN;
    }
    var issuer := NormalizedNameTLV(w, tbs.value.issuer);
    if issuer == None {
      return UNKNOWN;
    }
    if issuer.value != target.normalizedIssuer {
      return UNKNOWN;
    }
    var allowed := CheckExtensions(w, tbs.value.extensions, target, dp);
    if !allowed {
      return UNKNOWN;
    }
    ghost var u := Usable(list.value, tbs.value, algorithm.value, issuer.value);
    assert Admitted(w, raw, target, dp) == Some(u);
    for i := targetIndex + 1 to |chain|
      invariant forall k | targetIndex < k < i :: !IsSigner(w, u, chain[k])
    {
      var issuerCert := chain[i];
      if issuer.value != issuerCert.normalizedSubject {
        continue;
      }
      if issuerCert.keyUsage.Some? && !AssertsBit(issuerCert.keyUsage.value, KEY_USAGE_BIT_CRL_SIGN) {
        continue;
      }
      if !w.verifySignedData(algorithm.value, list.value.tbs, list.value.signature, issuerCert.spki) {
        continue;
      }
      assert IsSigner(w, u, chain[i]);
      status := GetCRLStatusForCert(w.read, w.parseExtension, target.serial, tbs.value.version, tbs.value.revoked);
      return;
    }
    return UNKNOWN;
  }
}
