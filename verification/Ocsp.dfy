/** Decisions of the OCSP client, pki/ocsp.cc (sections 3.2, 4.2.1 and 4.2.2 of RFC 6960).
  * Parsing, hashing, signature and name comparison, and the freshness test are parameters.
  */
module Ocsp {
  import opened Basics
  import opened DerCursor
  import opened DerTimes
  import opened Extensions

  /** OCSPVerifyResult::ResponseStatus */
  datatype Details =
    | NOT_CHECKED
    | MISSING
    | PROVIDED
    | ERROR_RESPONSE
    | BAD_PRODUCED_AT
    | NO_MATCHING_RESPONSE
    | INVALID_DATE
    | PARSE_RESPONSE_ERROR
    | PARSE_RESPONSE_DATA_ERROR
    | UNHANDLED_CRITICAL_EXTENSION

  datatype Digest = Md2 | Md4 | Md5 | Sha1 | Sha256 | Sha384 | Sha512

  datatype CertId = CertId(hash: Digest, issuerNameHash: Bytes, issuerKeyHash: Bytes, serial: Bytes)

  datatype Certificate = Certificate(
    issuer: Bytes, subject: Bytes, spki: Bytes, serial: Bytes, notBefore: Time, notAfter: Time,
    signatureAlgorithm: Option<nat>, tbs: Bytes, signature: Bytes, extendedKeyUsage: Option<seq<Bytes>>)

  datatype SingleResponse = SingleResponse(
    certId: Bytes, status: RevocationStatus, thisUpdate: Time, nextUpdate: Option<Time>, extensions: Option<Bytes>)

  datatype ResponderId = ByName(name: Bytes) | ByKeyHash(keyHash: Bytes)

  datatype ResponseData = ResponseData(
    responderId: ResponderId, producedAt: Time, responses: seq<Bytes>, extensions: Option<Bytes>)

  datatype Response = Response(
    successful: bool, data: Bytes, signatureAlgorithm: nat, signature: Bytes, certs: seq<Bytes>)

  /** The operations that are not part of this model. */
  datatype World = World(
    read: Reader,
    parseResponse: Bytes -> Option<Response>,
    parseData: Bytes -> Option<ResponseData>,
    parseSingle: Bytes -> Option<SingleResponse>,
    parseExtension: Bytes -> Option<Extension>,
    parseCertId: Bytes -> Option<CertId>,
    parseCertificate: Bytes -> Option<Certificate>,
    keyBytes: Bytes -> Option<Bytes>,
    digest: (Digest, Bytes) -> Bytes,
    verifySignedData: (nat, Bytes, Bytes, Bytes) -> bool,
    nameMatch: (Bytes, Bytes) -> bool,
    dateValid: (Time, Option<Time>) -> bool)

  const CT_EXTENSION: Bytes := [0x2B, 0x06, 0x01, 0x04, 0x01, 0xD6, 0x79, 0x02, 0x04, 0x05]
  const OCSP_SIGNING: Bytes := [0x2B, 0x06, 0x01, 0x05, 0x05, 0x07, 0x03, 0x09]

  // ----- one single response

  /** CheckCertIDMatchesCertificate */
  predicate CertIdMatches(w: World, id: CertId, cert: Certificate, issuer: Certificate) {
    && id.hash !in {Md2, Md4, Md5}
    && id.issuerNameHash == w.digest(id.hash, cert.issuer)
    && w.keyBytes(issuer.spki).Some?
    && id.issuerKeyHash == w.digest(id.hash, w.keyBytes(issuer.spki).value)
    && id.serial == cert.serial
  }

  /** Why an extensions field is rejected. */
  ghost function ExtensionsError(w: World, extensions: Option<Bytes>, handled: set<Bytes>): Option<Details> {
    match extensions
    case None => None
    case Some(e) =>
      match ParsedExtensions(w.read, w.parseExtension, e)
      case None => Some(PARSE_RESPONSE_DATA_ERROR)
      case Some(exts) => if HasUnhandledCritical(exts, handled) then Some(UNHANDLED_CRITICAL_EXTENSION) else None
  }

  /** ParseOCSPResponseDataExtensions and ParseOCSPSingleResponseExtensions differ only in the
    * extensions they let pass. */
  method CheckExtensions(w: World, extensions: Option<Bytes>, handled: set<Bytes>) returns (error: Option<Details>)
    ensures error == ExtensionsError(w, extensions, handled)
  {
    if extensions == None {
      return None;
    }
    var parsed := ParseExtensions(w.read, w.parseExtension, extensions.value);
    if parsed == None {
      return Some(PARSE_RESPONSE_DATA_ERROR);
    }
    var found := FindUnhandledCritical(parsed.value, handled);
    return if found then Some(UNHANDLED_CRITICAL_EXTENSION) else None;
  }

  /** How one encoded single response bears on the certificate. */
  datatype Bearing = Bad(error: Option<Details>) | Other | Stale | Fresh(status: RevocationStatus)

  ghost function Bears(w: World, cert: Certificate, issuer: Certificate, der: Bytes): Bearing {
    match w.parseSingle(der)
    case None => Bad(None)
    case Some(single) =>
      var error := ExtensionsError(w, single.extensions, {CT_EXTENSION});
      if error.Some? then Bad(error)
      else
        match w.parseCertId(single.certId)
        case None => Bad(None)
        case Some(id) =>
          if !CertIdMatches(w, id, cert, issuer) then Other
          else if !w.dateValid(single.thisUpdate, single.nextUpdate) then Stale
          else Fresh(single.status)
  }

  ghost function Bearings(w: World, cert: Certificate, issuer: Certificate, ders: seq<Bytes>): (bs: seq<Bearing>)
    ensures |bs| == |ders| && forall i | 0 <= i < |ders| :: bs[i] == Bears(w, cert, issuer, ders[i])
  {
    seq(|ders|, i requires 0 <= i < |ders| => Bears(w, cert, issuer, ders[i]))
  }

  // ----- the whole list, without regard to order

  /** The strictest status under REVOKED > UNKNOWN > GOOD, or UNKNOWN when there is none. */
  function Strictest(bs: seq<Bearing>): RevocationStatus {
    if Fresh(REVOKED) in bs then REVOKED
    else if Fresh(UNKNOWN) in bs then UNKNOWN
    else if Fresh(GOOD) in bs then GOOD
    else UNKNOWN
  }

  predicate AnyFresh(bs: seq<Bearing>) {
    Fresh(REVOKED) in bs || Fresh(UNKNOWN) in bs || Fresh(GOOD) in bs
  }

  function BestDetails(bs: seq<Bearing>): Details {
    if AnyFresh(bs) then PROVIDED else if Stale in bs then INVALID_DATE else NO_MATCHING_RESPONSE
  }

  function FirstBad(bs: seq<Bearing>): (k: nat)
    ensures k <= |bs| && (k < |bs| ==> bs[k].Bad?)
    ensures forall i | 0 <= i < k :: !bs[i].Bad?
  {
    if bs == [] || bs[0].Bad? then 0 else 1 + FirstBad(bs[1..])
  }

  predicate AllGood(bs: seq<Bearing>) {
    forall i | 0 <= i < |bs| :: !bs[i].Bad?
  }

  /** A bad response hides every answer; the details then are its own error, or what the
    * responses before it amounted to. */
  function Outcome(bs: seq<Bearing>): (RevocationStatus, Details) {
    var k := FirstBad(bs);
    if k == |bs| then (Strictest(bs), BestDetails(bs))
    else (UNKNOWN, match bs[k].error case Some(e) => e case None => BestDetails(bs[..k]))
  }

  lemma Extended(bs: seq<Bearing>, b: Bearing)
    ensures Strictest(bs + [b]) ==
            if b.Fresh? && (!AnyFresh(bs) || Strictest(bs) == GOOD || b.status == REVOKED) then b.status else Strictest(bs)
    ensures BestDetails(bs + [b]) ==
            if b.Fresh? then PROVIDED
            else if b.Stale? && BestDetails(bs) != PROVIDED then INVALID_DATE
            else BestDetails(bs)
    ensures BestDetails(bs) == PROVIDED <==> AnyFresh(bs)
  {
    assert forall x :: x in bs + [b] <==> x in bs || x == b;
    if b.Fresh? && b.status == GOOD { assert Fresh(GOOD) in bs + [b]; }
  }

  lemma StopsAt(bs: seq<Bearing>, k: nat)
    requires k < |bs| && bs[k].Bad? && AllGood(bs[..k])
    ensures Outcome(bs) == (UNKNOWN, match bs[k].error case Some(e) => e case None => BestDetails(bs[..k]))
  {
    hide BestDetails, Strictest;
    assert forall i | 0 <= i < k :: bs[i] == bs[..k][i];
    assert FirstBad(bs) == k;
  }

  /** GetRevocationStatusForCert */
  method GetRevocationStatusForCert(w: World, ders: seq<Bytes>, cert: Certificate, issuer: Certificate)
    returns (result: RevocationStatus, details: Details)
    ensures (result, details) == Outcome(Bearings(w, cert, issuer, ders))
  {
    hide CertIdMatches, ExtensionsError, Strictest, BestDetails, AnyFresh, Outcome;
    ghost var bs := Bearings(w, cert, issuer, ders);
    result := UNKNOWN;
    details := NO_MATCHING_RESPONSE;
    NoBearings();
    assert bs[..0] == [];
    for i := 0 to |ders|
      invariant AllGood(bs[..i])
      invariant result == Strictest(bs[..i]) && details == BestDetails(bs[..i])
    {
      assert bs[..i + 1] == bs[..i] + [bs[i]];
      Extended(bs[..i], bs[i]);
      if bs[i].Bad? { StopsAt(bs, i); }

      var single := w.parseSingle(ders[i]);
      if single == None {
        return UNKNOWN, details;
      }
      var error := CheckExtensions(w, single.value.extensions, {CT_EXTENSION});
      if error.Some? {
        return UNKNOWN, error.value;
      }
      var id := w.parseCertId(single.value.certId);
      if id == None {
        return UNKNOWN, details;
      }
      if !CertIdMatches(w, id.value, cert, issuer) {
        continue;
      }
      if !w.dateValid(single.value.thisUpdate, single.value.nextUpdate) {
        if details != PROVIDED {
          details := INVALID_DATE;
        }
        continue;
      }
      if details != PROVIDED || result == GOOD || single.value.status == REVOKED {
        result := single.value.status;
      }
      details := PROVIDED;
    }
    assert bs[..|bs|] == bs;
    assert Outcome(bs) == (Strictest(bs), BestDetails(bs)) by { NeverStops(bs); }
  }

  lemma NeverStops(bs: seq<Bearing>)
    requires AllGood(bs)
    ensures Outcome(bs) == (Strictest(bs), BestDetails(bs))
  {
  }

  lemma NoBearings()
    ensures Strictest([]) == UNKNOWN && BestDetails([]) == NO_MATCHING_RESPONSE
  {
  }

  // ----- what the fold means

  function Rank(s: RevocationStatus): nat {
    match s case GOOD => 0 case UNKNOWN => 1 case REVOKED => 2
  }

  /** With no bad response the status is the greatest among the fresh matching ones. */
  lemma StatusIsMaximum(bs: seq<Bearing>, s: RevocationStatus)
    requires AllGood(bs)
    ensures AnyFresh(bs) ==>
              (Outcome(bs).0 == s <==>
               Fresh(s) in bs && forall i | 0 <= i < |bs| :: bs[i].Fresh? ==> Rank(bs[i].status) <= Rank(s))
    ensures !AnyFresh(bs) ==> Outcome(bs).0 == UNKNOWN
  {
    if AnyFresh(bs) {
      var m := Outcome(bs).0;
      assert FirstBad(bs) == |bs|;
      assert Fresh(m) in bs;
      var j :| 0 <= j < |bs| && bs[j] == Fresh(m);
      forall i | 0 <= i < |bs| && bs[i].Fresh? ensures Rank(bs[i].status) <= Rank(m) {
        assert Fresh(bs[i].status) == bs[i] && bs[i] in bs;
      }
      if Fresh(s) in bs && forall i | 0 <= i < |bs| :: bs[i].Fresh? ==> Rank(bs[i].status) <= Rank(s) {
        assert Rank(m) <= Rank(s) <= Rank(m);
      }
    }
  }

  /** A single bad response, wherever it stands, makes the status UNKNOWN. */
  lemma BadMeansUnknown(bs: seq<Bearing>)
    requires !AllGood(bs)
    ensures Outcome(bs).0 == UNKNOWN
  {
    assert FirstBad(bs) < |bs|;
  }

  ghost predicate Reordered<T>(a: seq<T>, b: seq<T>) {
    multiset(a) == multiset(b)
  }

  lemma SameMembers(a: seq<Bearing>, b: seq<Bearing>)
    requires Reordered(a, b)
    ensures forall x :: x in a <==> x in b
    ensures AllGood(a) <==> AllGood(b)
  {
    forall x ensures x in a <==> x in b {
      assert x in multiset(a) <==> x in a;
      assert x in multiset(b) <==> x in b;
    }
    if i :| 0 <= i < |a| && a[i].Bad? { assert a[i] in b; }
    if i :| 0 <= i < |b| && b[i].Bad? { assert b[i] in a; }
  }

  lemma MoveOut<T>(s: seq<T>, i: nat)
    requires i < |s|
    ensures multiset(s) == multiset{s[i]} + multiset(s[..i] + s[i + 1..])
  {
    assert s == s[..i] + ([s[i]] + s[i + 1..]);
  }

  lemma TakeOut<T>(a: seq<T>, b: seq<T>, j: nat)
    requires a != [] && j < |b| && a[0] == b[j]
    ensures Reordered(a, b) <==> Reordered(a[1..], b[..j] + b[j + 1..])
  {
    MoveOut(a, 0);
    MoveOut(b, j);
    var x, rest, more := multiset{a[0]}, multiset(a[1..]), multiset(b[..j] + b[j + 1..]);
    assert a[..0] + a[1..] == a[1..];
    assert multiset(a) - x == rest && multiset(b) - x == more;
  }

  lemma Found<T>(a: seq<T>, b: seq<T>) returns (j: nat)
    requires a != [] && Reordered(a, b)
    ensures j < |b| && b[j] == a[0]
  {
    assert a[0] in multiset(b);
    j :| 0 <= j < |b| && b[j] == a[0];
  }

  /** Reordering the encoded responses reorders what they bear. */
  lemma {:induction false} BearingsReordered(w: World, cert: Certificate, issuer: Certificate, a: seq<Bytes>, b: seq<Bytes>)
    requires Reordered(a, b)
    ensures Reordered(Bearings(w, cert, issuer, a), Bearings(w, cert, issuer, b))
    decreases |a|
  {
    hide Bears;
    var ba, bb := Bearings(w, cert, issuer, a), Bearings(w, cert, issuer, b);
    if a == [] {
      assert |b| == |multiset(b)| == 0;
      assert ba == [] && bb == [];
    } else {
      hide Reordered;
      var j := Found(a, b);
      var rest := b[..j] + b[j + 1..];
      TakeOut(a, b, j);
      BearingsReordered(w, cert, issuer, a[1..], rest);
      assert ba[1..] == Bearings(w, cert, issuer, a[1..]);
      assert bb[..j] + bb[j + 1..] == Bearings(w, cert, issuer, rest);
      TakeOut(ba, bb, j);
    }
  }

  /** The status never depends on the order of the encoded responses. */
  lemma StatusIgnoresOrder(w: World, cert: Certificate, issuer: Certificate, a: seq<Bytes>, b: seq<Bytes>)
    requires Reordered(a, b)
    ensures Outcome(Bearings(w, cert, issuer, a)).0 == Outcome(Bearings(w, cert, issuer, b)).0
  {
    hide Bearings;
    BearingsReordered(w, cert, issuer, a, b);
    var ba, bb := Bearings(w, cert, issuer, a), Bearings(w, cert, issuer, b);
    SameMembers(ba, bb);
    if !AllGood(ba) {
      BadMeansUnknown(ba);
      BadMeansUnknown(bb);
    }
  }

  /** When the details do not depend on the order either: all bad responses carry the same
    * error, and one that carries none must not stand beside a matching response. */
  predicate DetailsSettled(bs: seq<Bearing>) {
    && (forall i, j | 0 <= i < |bs| && 0 <= j < |bs| && bs[i].Bad? && bs[j].Bad? :: bs[i] == bs[j])
    && (Bad(None) in bs ==> BestDetails(bs) == NO_MATCHING_RESPONSE)
  }

  predicate RealErrors(bs: seq<Bearing>) {
    forall i | 0 <= i < |bs| && bs[i].Bad? && bs[i].error.Some? ::
      bs[i].error.value in {PARSE_RESPONSE_DATA_ERROR, UNHANDLED_CRITICAL_EXTENSION}
  }

  lemma BearingsHaveRealErrors(w: World, cert: Certificate, issuer: Certificate, ders: seq<Bytes>)
    ensures RealErrors(Bearings(w, cert, issuer, ders))
  {
    hide CertIdMatches, HasUnhandledCritical;
  }

  lemma SettledDetails(a: seq<Bearing>, b: seq<Bearing>)
    requires Reordered(a, b) && DetailsSettled(a)
    ensures Outcome(a).1 == Outcome(b).1
  {
    SameMembers(a, b);
    if !AllGood(a) {
      var i, j := FirstBad(a), FirstBad(b);
      assert b[j] in a && a[i] in a;
      if a[i].error == None {
        NothingBefore(a, i);
        assert BestDetails(b) == BestDetails(a);
        NothingBefore(b, j);
      }
    }
  }

  lemma NothingBefore(bs: seq<Bearing>, k: nat)
    requires k <= |bs| && BestDetails(bs) == NO_MATCHING_RESPONSE
    ensures BestDetails(bs[..k]) == NO_MATCHING_RESPONSE
  {
    assert forall x :: x in bs[..k] ==> x in bs;
  }

  function ToFront<T>(s: seq<T>, i: nat): (r: seq<T>)
    requires i < |s|
    ensures |r| == |s| && r[0] == s[i]
  {
    [s[i]] + (s[..i] + s[i + 1..])
  }

  lemma ToFrontReorders<T>(s: seq<T>, i: nat)
    requires i < |s|
    ensures Reordered(s, ToFront(s, i))
  {
    MoveOut(s, i);
  }

  lemma BearingsToFront(w: World, cert: Certificate, issuer: Certificate, ders: seq<Bytes>, i: nat)
    requires i < |ders|
    ensures Bearings(w, cert, issuer, ToFront(ders, i)) == ToFront(Bearings(w, cert, issuer, ders), i)
  {
    hide Bears;
  }

  /** The details are independent of the order of the encoded responses exactly when
    * DetailsSettled, in particular when no response is bad. */
  lemma DetailsIgnoreOrderIff(w: World, cert: Certificate, issuer: Certificate, ders: seq<Bytes>)
    ensures DetailsSettled(Bearings(w, cert, issuer, ders)) <==>
              forall other | Reordered(ders, other) ::
                Outcome(Bearings(w, cert, issuer, other)).1 == Outcome(Bearings(w, cert, issuer, ders)).1
    ensures AllGood(Bearings(w, cert, issuer, ders)) ==> DetailsSettled(Bearings(w, cert, issuer, ders))
  {
    hide Bearings, Outcome, Reordered, BestDetails;
    var bs := Bearings(w, cert, issuer, ders);
    if DetailsSettled(bs) {
      forall other | Reordered(ders, other) ensures Outcome(Bearings(w, cert, issuer, other)).1 == Outcome(bs).1 {
        BearingsReordered(w, cert, issuer, ders, other);
        SettledDetails(bs, Bearings(w, cert, issuer, other));
      }
    } else {
      BearingsHaveRealErrors(w, cert, issuer, ders);
      var i, j := Unsettled(bs);
      BearingsToFront(w, cert, issuer, ders, i);
      BearingsToFront(w, cert, issuer, ders, j);
      ToFrontReorders(ders, i);
      ToFrontReorders(ders, j);
    }
  }

  /** Two responses of which it matters which comes first. */
  lemma Unsettled(bs: seq<Bearing>) returns (i: nat, j: nat)
    requires RealErrors(bs) && !DetailsSettled(bs)
    ensures i < |bs| && j < |bs| && Outcome(ToFront(bs, i)).1 != Outcome(ToFront(bs, j)).1 && !AllGood(bs)
  {
    hide Outcome;
    if p, q :| 0 <= p < |bs| && 0 <= q < |bs| && bs[p].Bad? && bs[q].Bad? && bs[p] != bs[q] {
      i, j := p, q;
      BadFirst(ToFront(bs, j));
    } else {
      i :| 0 <= i < |bs| && bs[i] == Bad(None);
      j := Matching(bs);
      BadsKept(bs, j);
      MatchFirst(ToFront(bs, j));
    }
    BadFirst(ToFront(bs, i));
  }

  lemma Matching(bs: seq<Bearing>) returns (m: nat)
    requires BestDetails(bs) != NO_MATCHING_RESPONSE
    ensures m < |bs| && (bs[m].Fresh? || bs[m].Stale?)
  {
    var b := if Fresh(REVOKED) in bs then Fresh(REVOKED) else if Fresh(UNKNOWN) in bs then Fresh(UNKNOWN)
             else if Fresh(GOOD) in bs then Fresh(GOOD) else Stale;
    m :| 0 <= m < |bs| && bs[m] == b;
  }

  lemma BadsKept(bs: seq<Bearing>, j: nat)
    requires j < |bs| && Bad(None) in bs && forall p | 0 <= p < |bs| && bs[p].Bad? :: bs[p] == Bad(None)
    ensures var f := ToFront(bs, j);
            Bad(None) in f && forall p | 0 <= p < |f| && f[p].Bad? :: f[p] == Bad(None)
  {
    var f := ToFront(bs, j);
    ToFrontReorders(bs, j);
    SameMembers(bs, f);
    forall p | 0 <= p < |f| && f[p].Bad? ensures f[p] == Bad(None) {
      assert f[p] in bs;
    }
  }

  /** A bad response in front decides the details alone. */
  lemma BadFirst(bs: seq<Bearing>)
    requires bs != [] && bs[0].Bad?
    ensures Outcome(bs).1 == match bs[0].error case Some(e) => e case None => NO_MATCHING_RESPONSE
  {
    assert bs[..0] == [];
  }

  /** A matching response in front of a bad one without an error shows in the details. */
  lemma MatchFirst(bs: seq<Bearing>)
    requires bs != [] && (bs[0].Fresh? || bs[0].Stale?)
    requires Bad(None) in bs && forall i | 0 <= i < |bs| && bs[i].Bad? :: bs[i] == Bad(None)
    ensures Outcome(bs).1 != NO_MATCHING_RESPONSE
  {
    var k := FirstBad(bs);
    var i :| 0 <= i < |bs| && bs[i] == Bad(None);
    assert 0 < k <= i;
    assert bs[..k][0] == bs[0] && bs[0] in bs[..k];
    if bs[0].Fresh? {
      var s := bs[0].status;
      assert bs[0] == Fresh(s) && (s == GOOD || s == UNKNOWN || s == REVOKED);
    }
  }

  // ----- who signed

  /** CheckResponderIDMatchesCertificate */
  predicate ResponderIdMatches(w: World, id: ResponderId, cert: Certificate) {
    match id
    case ByName(name) =>
      var a, b := Tagged(w.read, SEQUENCE, name), Tagged(w.read, SEQUENCE, cert.subject);
      a.Some? && b.Some? && w.nameMatch(a.value.value, b.value.value)
    case ByKeyHash(keyHash) =>
      w.keyBytes(cert.spki).Some? && keyHash == w.digest(Sha1, w.keyBytes(cert.spki).value)
  }

  /** The issuer signed the certificate and it is meant for OCSP signing. */
  predicate Delegated(w: World, cert: Certificate, issuer: Certificate) {
    && cert.signatureAlgorithm.Some?
    && w.verifySignedData(cert.signatureAlgorithm.value, cert.tbs, cert.signature, issuer.spki)
    && cert.extendedKeyUsage.Some?
    && OCSP_SIGNING in cert.extendedKeyUsage.value
  }

  method VerifyAuthorizedResponderCert(w: World, cert: Certificate, issuer: Certificate) returns (ok: bool)
    ensures ok <==> Delegated(w, cert, issuer)
  {
    if cert.signatureAlgorithm == None
       || !w.verifySignedData(cert.signatureAlgorithm.value, cert.tbs, cert.signature, issuer.spki) {
      return false;
    }
    if cert.extendedKeyUsage == None {
      return false;
    }
    var purposes := cert.extendedKeyUsage.value;
    for i := 0 to |purposes|
      invariant OCSP_SIGNING !in purposes[..i]
    {
      if purposes[i] == OCSP_SIGNING {
        return true;
      }
    }
    assert purposes[..|purposes|] == purposes;
    return false;
  }

  predicate SignedBy(w: World, r: Response, cert: Certificate) {
    w.verifySignedData(r.signatureAlgorithm, r.data, r.signature, cert.spki)
  }

  /** The responder: the issuer itself, or a listed certificate that it delegated to. */
  ghost predicate IsResponder(w: World, r: Response, issuer: Certificate, cert: Certificate) {
    || cert == issuer
    || (Delegated(w, cert, issuer) && exists i :: 0 <= i < |r.certs| && w.parseCertificate(r.certs[i]) == Some(cert))
  }

  ghost predicate ProperlySigned(w: World, r: Response, id: ResponderId, issuer: Certificate) {
    exists cert :: IsResponder(w, r, issuer, cert) && ResponderIdMatches(w, id, cert) && SignedBy(w, r, cert)
  }

  /** The search succeeds exactly when there is a proper signer. */
  method VerifyOCSPResponseSignature(w: World, r: Response, id: ResponderId, issuer: Certificate) returns (ok: bool)
    ensures ok <==> ProperlySigned(w, r, id, issuer)
  {
    hide ResponderIdMatches, SignedBy, Delegated;
    if ResponderIdMatches(w, id, issuer) && SignedBy(w, r, issuer) {
      assert IsResponder(w, r, issuer, issuer);
      return true;
    }
    for i := 0 to |r.certs|
      invariant forall k | 0 <= k < i ::
        w.parseCertificate(r.certs[k]).Some? ==>
          var c := w.parseCertificate(r.certs[k]).value;
          !(ResponderIdMatches(w, id, c) && Delegated(w, c, issuer) && SignedBy(w, r, c))
    {
      var cur := w.parseCertificate(r.certs[i]);
      if cur == None {
        continue;
      }
      if !ResponderIdMatches(w, id, cur.value) {
        continue;
      }
      var authorized := VerifyAuthorizedResponderCert(w, cur.value, issuer);
      if !authorized {
        continue;
      }
      if SignedBy(w, r, cur.value) {
        assert IsResponder(w, r, issuer, cur.value);
        return true;
      }
    }
    return false;
  }

  // ----- the whole check

  function Given(w: World, cert: Option<Certificate>, der: Bytes): Option<Certificate> {
    if cert.Some? then cert else w.parseCertificate(der)
  }

  /** Why the response is turned down before its list is looked at. */
  ghost function Refusal(w: World, raw: Bytes, cert: Option<Certificate>, issuer: Option<Certificate>): Option<Details> {
    if raw == [] then Some(MISSING)
    else if w.parseResponse(raw) == None then Some(PARSE_RESPONSE_ERROR)
    else
      var r := w.parseResponse(raw).value;
      if !r.successful then Some(ERROR_RESPONSE)
      else if w.parseData(r.data) == None then Some(PARSE_RESPONSE_DATA_ERROR)
      else
        var data := w.parseData(r.data).value;
        if ExtensionsError(w, data.extensions, {}).Some? then ExtensionsError(w, data.extensions, {})
        else if cert == None || issuer == None then Some(NOT_CHECKED)
        else if Less(data.producedAt, cert.value.notBefore) || Less(cert.value.notAfter, data.producedAt) then Some(BAD_PRODUCED_AT)
        else None
  }

  ghost function Checked(w: World, raw: Bytes, cert: Option<Certificate>, issuer: Option<Certificate>): (RevocationStatus, Details) {
    match Refusal(w, raw, cert, issuer)
    case Some(d) => (UNKNOWN, d)
    case None =>
      var r := w.parseResponse(raw).value;
      var data := w.parseData(r.data).value;
      var o := Outcome(Bearings(w, cert.value, issuer.value, data.responses));
      (if ProperlySigned(w, r, data.responderId, issuer.value) then o.0 else UNKNOWN, o.1)
  }

  method CheckOCSP(w: World, raw: Bytes, certDer: Bytes, certificate: Option<Certificate>,
                   issuerDer: Bytes, issuerCertificate: Option<Certificate>)
    returns (status: RevocationStatus, details: Details)
    ensures (status, details) == Checked(w, raw, Given(w, certificate, certDer), Given(w, issuerCertificate, issuerDer))
  {
    hide Outcome, ExtensionsError, ProperlySigned, Less;
    if raw == [] {
      return UNKNOWN, MISSING;
    }
    var response := w.parseResponse(raw);
    if response == None {
      return UNKNOWN, PARSE_RESPONSE_ERROR;
    }
    if !response.value.successful {
      return UNKNOWN, ERROR_RESPONSE;
    }
    var data := w.parseData(response.value.data);
    if data == None {
      return UNKNOWN, PARSE_RESPONSE_DATA_ERROR;
    }
    var error := CheckExtensions(w, data.value.extensions, {});
    if error.Some? {
      return UNKNOWN, error.value;
    }
    var cert, issuer := certificate, issuerCertificate;
    if cert == None {
      cert := w.parseCertificate(certDer);
    }
    if issuer == None {
      issuer := w.parseCertificate(issuerDer);
    }
    if cert == None || issuer == None {
      return UNKNOWN, NOT_CHECKED;
    }
    if Less(data.value.producedAt, cert.value.notBefore) || Less(cert.value.notAfter, data.value.producedAt) {
      return UNKNOWN, BAD_PRODUCED_AT;
    }
    status, details := GetRevocationStatusForCert(w, data.value.responses, cert.value, issuer.value);
    var ok := VerifyOCSPResponseSignature(w, response.value, data.value.responderId, issuer.value);
    if !ok {
      status := UNKNOWN;
    }
  }

  /** An answer is only ever given on a response that the issuer, or a responder it delegated
    * to, signed; REVOKED then exactly says that some matching fresh response does, and GOOD
    * that there is one and all of them say so. */
  lemma AnswersAreSigned(w: World, raw: Bytes, cert: Option<Certificate>, issuer: Option<Certificate>)
    ensures var status := Checked(w, raw, cert, issuer).0;
            if Refusal(w, raw, cert, issuer).Some? then status == UNKNOWN
            else
              var r := w.parseResponse(raw).value;
              var data := w.parseData(r.data).value;
              var bs := Bearings(w, cert.value, issuer.value, data.responses);
              var trusted := ProperlySigned(w, r, data.responderId, issuer.value) && AllGood(bs);
              && (status == REVOKED <==> trusted && Fresh(REVOKED) in bs)
              && (status == GOOD <==> trusted && Fresh(GOOD) in bs &&
                                      forall i | 0 <= i < |bs| :: bs[i].Fresh? ==> bs[i].status == GOOD)
  {
    hide ProperlySigned, Bears, ExtensionsError, Less;
    if Refusal(w, raw, cert, issuer) == None {
      var r := w.parseResponse(raw).value;
      var data := w.parseData(r.data).value;
      var bs := Bearings(w, cert.value, issuer.value, data.responses);
      if AllGood(bs) {
        StatusIsMaximum(bs, GOOD);
        StatusIsMaximum(bs, REVOKED);
      } else {
        BadMeansUnknown(bs);
      }
    }
  }
}
