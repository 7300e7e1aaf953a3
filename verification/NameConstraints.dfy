/** The name-constraints decision of pki/name_constraints.cc (section 4.2.1.10 of RFC 5280).
  *
  * Directory-name matching and the search for e-mail addresses in a subject are
  * functions of another source file; here they are parameters.
  */
module NameConstraints {
  import opened Basics
  import opened DerCursor
  import opened GeneralNames
  import Dns = DnsNames
  import Netmask

  // ----- mailbox names

  /** SplitString at '@': no pieces for the empty string. */
  function Split(s: string): (pieces: seq<string>)
    ensures s != "" ==> pieces != []
  {
    if s == "" then [] else Pieces(s)
  }

  function Pieces(s: string): (pieces: seq<string>)
    ensures pieces != []
    decreases |s|
  {
    var i := FirstAt(s);
    if i == |s| then [s] else [s[..i]] + Pieces(s[i + 1..])
  }

  function FirstAt(s: string): (i: nat)
    ensures i <= |s| && (i < |s| ==> s[i] == '@')
  {
    if s == "" || s[0] == '@' then 0 else 1 + FirstAt(s[1..])
  }

  predicate IsAlphaDigit(c: char) {
    '0' <= c <= '9' || 'a' <= c <= 'z' || 'A' <= c <= 'Z'
  }

  predicate IsAllowedLocalPart(s: string) {
    s != "" && forall c | c in s :: IsAlphaDigit(c) || c in "!#$%&'*+-/=?^_`{|}~."
  }

  predicate IsAllowedDomain(s: string) {
    s != "" && forall c | c in s :: IsAlphaDigit(c) || c == '-' || c == '.'
  }

  datatype MatchType = PermittedMatch | ExcludedMatch

  /** Rfc822NameMatches: a constraint that does not parse answers so as to refuse. */
  predicate MailMatches(localPart: string, domain: string, mailConstraint: string, kind: MatchType, anyCaseLocal: bool) {
    var errorValue := kind == ExcludedMatch;
    var parts := Split(mailConstraint);
    if |parts| != 1 && |parts| != 2 then errorValue
    else if |parts| == 2 && !IsAllowedLocalPart(parts[0]) then errorValue
    else
      var conLocal := if |parts| == 2 then parts[0] else "";
      var conDomain := parts[|parts| - 1];
      if !IsAllowedDomain(conDomain) then errorValue
      else if conLocal != "" then
        (if anyCaseLocal then Dns.EqualNoCase(localPart, conLocal) else localPart == conLocal)
        && Dns.EqualNoCase(domain, conDomain)
      else if conDomain[0] == '.' then Dns.EndsWithNoCase(domain, conDomain)
      else Dns.EqualNoCase(domain, conDomain)
  }

  /** The three kinds of mailbox constraint of RFC 5280, and everything else. */
  datatype MailConstraint =
    | Mailbox(localPart: string, domain: string)
    | Subdomains(parent: string)
    | Host(domain: string)
    | Malformed

  function MailConstraintOf(s: string): MailConstraint {
    var parts := Split(s);
    if |parts| == 1 && IsAllowedDomain(parts[0]) then
      if parts[0][0] == '.' then Subdomains(parts[0][1..]) else Host(parts[0])
    else if |parts| == 2 && IsAllowedLocalPart(parts[0]) && IsAllowedDomain(parts[1]) then Mailbox(parts[0], parts[1])
    else Malformed
  }

  /** What each kind admits: one mailbox, the hosts strictly below a domain, or one host.  A
    * malformed constraint permits nothing and excludes everything. */
  predicate Admits(c: MailConstraint, localPart: string, domain: string, kind: MatchType, anyCaseLocal: bool) {
    match c
    case Malformed => kind == ExcludedMatch
    case Mailbox(l, d) =>
      && Dns.EqualNoCase(domain, d)
      && (if anyCaseLocal then Dns.EqualNoCase(localPart, l) else localPart == l)
    case Host(d) => Dns.EqualNoCase(domain, d)
    case Subdomains(p) =>
      Dns.LabelSuffixNoCase(Dns.Labels(p), Dns.Labels(domain)) && |Dns.Labels(p)| < |Dns.Labels(domain)|
  }

  lemma MailMatchMeaning(localPart: string, domain: string, s: string, kind: MatchType, anyCaseLocal: bool)
    ensures MailMatches(localPart, domain, s, kind, anyCaseLocal)
       <==> Admits(MailConstraintOf(s), localPart, domain, kind, anyCaseLocal)
  {
    var parts := Split(s);
    if |parts| == 1 && IsAllowedDomain(parts[0]) && parts[0][0] == '.' {
      BelowDomain(domain, parts[0]);
    }
    hide Dns.EqualNoCase, Dns.EndsWithNoCase, Dns.LabelSuffixNoCase, Dns.Labels, Split;
  }

  lemma BelowDomain(domain: string, c: string)
    requires c != "" && c[0] == '.'
    ensures Dns.EndsWithNoCase(domain, c) <==>
              Dns.LabelSuffixNoCase(Dns.Labels(c[1..]), Dns.Labels(domain)) && |Dns.Labels(c[1..])| < |Dns.Labels(domain)|
  {
    var p := c[1..];
    Dns.LowerEnds(domain, c);
    assert Dns.Lower(c) == "." + Dns.Lower(p);
    Dns.LowerLabelSuffix(domain, p);
    Dns.LowerLabels(domain);
    Dns.LowerLabels(p);
    Dns.SuffixOfLabels(Dns.Lower(domain), Dns.Lower(p));
    Dns.SameLabels(Dns.Lower(domain), Dns.Lower(p));
  }

  // ----- one name against the subtrees

  datatype Constraints = Constraints(permitted: Names, excluded: Names, constrained: set<NameType>)

  /** The functions that are not part of this model. */
  datatype Lookups = Lookups(inSubtree: (Bytes, Bytes) -> bool, emails: Bytes -> Option<seq<string>>)

  predicate IsMailbox(name: string) {
    var parts := Split(name);
    |parts| == 2 && IsAllowedLocalPart(parts[0]) && IsAllowedDomain(parts[1])
  }

  ghost predicate MailPermitted(c: Constraints, name: string, anyCaseExcluded: bool) {
    && IsMailbox(name)
    && var parts := Split(name);
       && (forall e | e in c.excluded.rfc822Names :: !MailMatches(parts[0], parts[1], e, ExcludedMatch, anyCaseExcluded))
       && (Rfc822Name in c.permitted.present ==>
             exists p :: p in c.permitted.rfc822Names && MailMatches(parts[0], parts[1], p, PermittedMatch, false))
  }

  ghost predicate DnsPermitted(c: Constraints, name: string) {
    Dns.Permitted(c.excluded.dnsNames, DnsName in c.permitted.present, c.permitted.dnsNames, name)
  }

  ghost predicate DirectoryPermitted(l: Lookups, c: Constraints, name: Bytes) {
    && (forall e | e in c.excluded.directoryNames :: !l.inSubtree(name, e))
    && (DirectoryName in c.permitted.present ==>
          exists p :: p in c.permitted.directoryNames && l.inSubtree(name, p))
  }

  ghost predicate IpPermitted(c: Constraints, ip: Netmask.Octets) {
    && (forall e | e in c.excluded.ipRanges :: !Netmask.Matches(ip, e.addr, e.mask))
    && (IpAddress in c.permitted.present ==>
          exists p :: p in c.permitted.ipRanges && Netmask.Matches(ip, p.addr, p.mask))
  }

  method IsPermittedRfc822Name(c: Constraints, name: string, anyCaseExcluded: bool) returns (ok: bool, checks: nat)
    ensures ok <==> MailPermitted(c, name, anyCaseExcluded)
    ensures checks <= |c.excluded.rfc822Names| + |c.permitted.rfc822Names|
  {
    checks := 0;
    var parts := Split(name);
    if |parts| != 2 {
      return false, checks;
    }
    if !IsAllowedLocalPart(parts[0]) || !IsAllowedDomain(parts[1]) {
      return false, checks;
    }
    hide MailMatches, IsAllowedLocalPart, IsAllowedDomain, Split;
    var excluded, permitted := c.excluded.rfc822Names, c.permitted.rfc822Names;
    for i := 0 to |excluded|
      invariant checks == i
      invariant forall k | 0 <= k < i :: !MailMatches(parts[0], parts[1], excluded[k], ExcludedMatch, anyCaseExcluded)
    {
      checks := checks + 1;
      if MailMatches(parts[0], parts[1], excluded[i], ExcludedMatch, anyCaseExcluded) {
        return false, checks;
      }
    }
    if Rfc822Name !in c.permitted.present {
      return true, checks;
    }
    for i := 0 to |permitted|
      invariant checks == |excluded| + i
      invariant forall k | 0 <= k < i :: !MailMatches(parts[0], parts[1], permitted[k], PermittedMatch, false)
    {
      checks := checks + 1;
      if MailMatches(parts[0], parts[1], permitted[i], PermittedMatch, false) {
        return true, checks;
      }
    }
    return false, checks;
  }

  method IsPermittedDirectoryName(l: Lookups, c: Constraints, name: Bytes) returns (ok: bool, checks: nat)
    ensures ok <==> DirectoryPermitted(l, c, name)
    ensures checks <= |c.excluded.directoryNames| + |c.permitted.directoryNames|
  {
    checks := 0;
    var excluded, permitted := c.excluded.directoryNames, c.permitted.directoryNames;
    for i := 0 to |excluded|
      invariant checks == i
      invariant forall k | 0 <= k < i :: !l.inSubtree(name, excluded[k])
    {
      checks := checks + 1;
      if l.inSubtree(name, excluded[i]) {
        return false, checks;
      }
    }
    if DirectoryName !in c.permitted.present {
      return true, checks;
    }
    for i := 0 to |permitted|
      invariant checks == |excluded| + i
      invariant forall k | 0 <= k < i :: !l.inSubtree(name, permitted[k])
    {
      checks := checks + 1;
      if l.inSubtree(name, permitted[i]) {
        return true, checks;
      }
    }
    return false, checks;
  }

  method IsPermittedIP(c: Constraints, ip: Netmask.Octets) returns (ok: bool, checks: nat)
    ensures ok <==> IpPermitted(c, ip)
    ensures checks <= |c.excluded.ipRanges| + |c.permitted.ipRanges|
  {
    hide Netmask.Matches;
    checks := 0;
    var excluded, permitted := c.excluded.ipRanges, c.permitted.ipRanges;
    for i := 0 to |excluded|
      invariant checks == i
      invariant forall k | 0 <= k < i :: !Netmask.Matches(ip, excluded[k].addr, excluded[k].mask)
    {
      checks := checks + 1;
      var matches := Netmask.IPAddressMatchesWithNetmask(ip, excluded[i].addr, excluded[i].mask);
      if matches {
        return false, checks;
      }
    }
    if IpAddress !in c.permitted.present {
      return true, checks;
    }
    for i := 0 to |permitted|
      invariant checks == |excluded| + i
      invariant forall k | 0 <= k < i :: !Netmask.Matches(ip, permitted[k].addr, permitted[k].mask)
    {
      checks := checks + 1;
      var matches := Netmask.IPAddressMatchesWithNetmask(ip, permitted[i].addr, permitted[i].mask);
      if matches {
        return true, checks;
      }
    }
    return false, checks;
  }

  // ----- the work limit

  const MAX_CHECKS: nat := 1048576

  /** The guard of IsPermittedCert, in `size_t` arithmetic. */
  predicate TooManyChecks(constraintCount: nat, nameCount: nat) {
    var checkCount := (constraintCount * nameCount) % U64;
    (constraintCount > 0 && checkCount / constraintCount != nameCount) || checkCount > MAX_CHECKS
  }

  /** In spite of the wrap-around the guard is exact. */
  lemma GuardExact(constraintCount: nat, nameCount: nat)
    requires constraintCount < U64 && nameCount < U64
    ensures TooManyChecks(constraintCount, nameCount) <==> constraintCount * nameCount > MAX_CHECKS
  {
    var p := constraintCount * nameCount;
    if constraintCount > 0 {
      if p < U64 {
        ProductQuotient(constraintCount, nameCount);
      } else {
        SmallerQuotient(p % U64, constraintCount, nameCount);
      }
    }
  }

  lemma ProductQuotient(a: nat, b: nat)
    requires a > 0
    ensures (a * b) / a == b
  {
    SmallerQuotient(a * b, a, b + 1);
    var q := (a * b) / a;
    assert a * b == a * q + (a * b) % a < a * q + a == a * (q + 1);
    assert b < q + 1 by { MulStrict(a, b, q + 1); }
  }

  lemma MulStrict(a: nat, b: nat, c: nat)
    requires a * b < a * c
    ensures b < c
  {
    assert b >= c ==> a * b >= a * c;
  }

  lemma MulMonotone(a: nat, b: nat, c: nat)
    requires b <= c
    ensures a * b <= a * c
  {
  }

  lemma SmallerQuotient(x: nat, a: nat, b: nat)
    requires a > 0 && x < a * b
    ensures x / a < b
  {
    var q := x / a;
    if q >= b { MulMonotone(a, b, q); }
  }

  /** The names and the constraints the guard counts. */
  function NameCount(subject: Bytes, san: Option<Names>): nat {
    match san
    case Some(n) => |n.rfc822Names| + |n.dnsNames| + |n.directoryNames| + |n.ipAddresses|
    case None => |subject|
  }

  function ConstraintCount(c: Constraints, san: Option<Names>): nat {
    if san.Some? then
      |c.excluded.rfc822Names| + |c.permitted.rfc822Names| + |c.excluded.dnsNames| + |c.permitted.dnsNames|
      + |c.excluded.directoryNames| + |c.permitted.directoryNames| + |c.excluded.ipRanges| + |c.permitted.ipRanges|
    else |c.excluded.directoryNames| + |c.permitted.directoryNames|
  }

  // ----- the certificate

  const SUPPORTED: set<NameType> := {Rfc822Name, DnsName, DirectoryName, IpAddress}

  datatype Error = TooManyNameConstraintChecks | NotPermittedByNameConstraints

  /** Every subjectAltName entry passes. */
  ghost predicate SanAccepted(l: Lookups, c: Constraints, san: Names) {
    && (c.constrained * san.present <= SUPPORTED)
    && (Rfc822Name in c.constrained ==> forall n | n in san.rfc822Names :: MailPermitted(c, n, false))
    && (forall n | n in san.dnsNames :: DnsPermitted(c, n))
    && (forall n | n in san.directoryNames :: DirectoryPermitted(l, c, n))
    && (forall n | n in san.ipAddresses :: IpPermitted(c, n))
  }

  /** Without a subjectAltName the subject's e-mail addresses stand in. */
  ghost predicate SubjectMailAccepted(l: Lookups, c: Constraints, subject: Bytes) {
    Rfc822Name in c.constrained ==>
      && l.emails(subject).Some?
      && forall n | n in l.emails(subject).value :: MailPermitted(c, n, true)
  }

  /** What IsPermittedCert accepts, with no order of evaluation. */
  ghost predicate Accepted(l: Lookups, c: Constraints, subject: Bytes, san: Option<Names>) {
    && Work(c, subject, san) <= MAX_CHECKS
    && (if san.Some? then SanAccepted(l, c, san.value) else SubjectMailAccepted(l, c, subject))
    && ((san.Some? && subject == []) || DirectoryPermitted(l, c, subject))
  }

  /** Comparisons that testing every name against every constraint takes. */
  function Cost(names: nat, excluded: nat, permitted: nat): nat {
    names * (excluded + permitted)
  }

  /** The product that the guard limits. */
  function Work(c: Constraints, subject: Bytes, san: Option<Names>): nat {
    Product(ConstraintCount(c, san), NameCount(subject, san))
  }

  function Product(a: nat, b: nat): nat {
    a * b
  }

  method CheckMail(c: Constraints, names: seq<string>, anyCaseExcluded: bool) returns (ok: bool, checks: nat)
    ensures ok <==> forall n | n in names :: MailPermitted(c, n, anyCaseExcluded)
    ensures checks <= Cost(|names|, |c.excluded.rfc822Names|, |c.permitted.rfc822Names|)
  {
    hide MailPermitted;
    checks := 0;
    var k := |c.excluded.rfc822Names| + |c.permitted.rfc822Names|;
    for i := 0 to |names|
      invariant checks <= i * k
      invariant forall j | 0 <= j < i :: MailPermitted(c, names[j], anyCaseExcluded)
    {
      var permitted, more := IsPermittedRfc822Name(c, names[i], anyCaseExcluded);
      OneMore(i, |names|, k);
      checks := checks + more;
      if !permitted {
        return false, checks;
      }
    }
    return true, checks;
  }

  lemma OneMore(i: nat, n: nat, k: nat)
    requires i < n
    ensures i * k + k == (i + 1) * k <= n * k
  {
    MulMonotone(k, i + 1, n);
  }

  method CheckDns(c: Constraints, names: seq<string>) returns (ok: bool, checks: nat)
    ensures ok <==> forall n | n in names :: DnsPermitted(c, n)
    ensures checks <= Cost(|names|, |c.excluded.dnsNames|, |c.permitted.dnsNames|)
  {
    hide Dns.Permitted;
    checks := 0;
    var k := |c.excluded.dnsNames| + |c.permitted.dnsNames|;
    for i := 0 to |names|
      invariant checks <= i * k
      invariant forall j | 0 <= j < i :: DnsPermitted(c, names[j])
    {
      var permitted, more :=
        Dns.IsPermittedDNSName(c.excluded.dnsNames, DnsName in c.permitted.present, c.permitted.dnsNames, names[i]);
      OneMore(i, |names|, k);
      checks := checks + more;
      if !permitted {
        assert names[i] in names && !DnsPermitted(c, names[i]);
        return false, checks;
      }
    }
    return true, checks;
  }

  method CheckDirectory(l: Lookups, c: Constraints, names: seq<Bytes>) returns (ok: bool, checks: nat)
    ensures ok <==> forall n | n in names :: DirectoryPermitted(l, c, n)
    ensures checks <= Cost(|names|, |c.excluded.directoryNames|, |c.permitted.directoryNames|)
  {
    hide DirectoryPermitted;
    checks := 0;
    var k := |c.excluded.directoryNames| + |c.permitted.directoryNames|;
    for i := 0 to |names|
      invariant checks <= i * k
      invariant forall j | 0 <= j < i :: DirectoryPermitted(l, c, names[j])
    {
      var permitted, more := IsPermittedDirectoryName(l, c, names[i]);
      OneMore(i, |names|, k);
      checks := checks + more;
      if !permitted {
        return false, checks;
      }
    }
    return true, checks;
  }

  method CheckIp(c: Constraints, ips: seq<Netmask.Octets>) returns (ok: bool, checks: nat)
    ensures ok <==> forall n | n in ips :: IpPermitted(c, n)
    ensures checks <= Cost(|ips|, |c.excluded.ipRanges|, |c.permitted.ipRanges|)
  {
    hide IpPermitted;
    checks := 0;
    var k := |c.excluded.ipRanges| + |c.permitted.ipRanges|;
    for i := 0 to |ips|
      invariant checks <= i * k
      invariant forall j | 0 <= j < i :: IpPermitted(c, ips[j])
    {
      var permitted, more := IsPermittedIP(c, ips[i]);
      OneMore(i, |ips|, k);
      checks := checks + more;
      if !permitted {
        return false, checks;
      }
    }
    return true, checks;
  }

  /** Four loops, each over some of the names and some of the constraints. */
  lemma LoopsWithinProduct(n1: nat, n2: nat, n3: nat, n4: nat, c1: nat, c2: nat, c3: nat, c4: nat)
    ensures n1 * c1 + n2 * c2 + n3 * c3 + n4 * c4 <= (c1 + c2 + c3 + c4) * (n1 + n2 + n3 + n4)
  {
    var c := c1 + c2 + c3 + c4;
    MulMonotone(n1, c1, c);
    MulMonotone(n2, c2, c);
    MulMonotone(n3, c3, c);
    MulMonotone(n4, c4, c);
    assert c * (n1 + n2 + n3 + n4) == n1 * c + n2 * c + n3 * c + n4 * c;
  }

  lemma SanBound(c: Constraints, san: Names)
    ensures Cost(|san.rfc822Names|, |c.excluded.rfc822Names|, |c.permitted.rfc822Names|)
          + Cost(|san.dnsNames|, |c.excluded.dnsNames|, |c.permitted.dnsNames|)
          + Cost(|san.directoryNames|, |c.excluded.directoryNames|, |c.permitted.directoryNames|)
          + Cost(|san.ipAddresses|, |c.excluded.ipRanges|, |c.permitted.ipRanges|)
         <= Work(c, [], Some(san))
  {
    LoopsWithinProduct(|san.rfc822Names|, |san.dnsNames|, |san.directoryNames|, |san.ipAddresses|,
                       |c.excluded.rfc822Names| + |c.permitted.rfc822Names|, |c.excluded.dnsNames| + |c.permitted.dnsNames|,
                       |c.excluded.directoryNames| + |c.permitted.directoryNames|,
                       |c.excluded.ipRanges| + |c.permitted.ipRanges|);
  }

  /** The subjectAltName part of IsPermittedCert. */
  method CheckSan(l: Lookups, c: Constraints, san: Names) returns (ok: bool, checks: nat)
    ensures ok <==> SanAccepted(l, c, san)
    ensures checks <= Work(c, [], Some(san))
  {
    hide MailPermitted, DnsPermitted, DirectoryPermitted, IpPermitted, Work, Cost;
    SanBound(c, san);
    checks := 0;
    if !(c.constrained * san.present <= SUPPORTED) {
      return false, checks;
    }
    var more;
    if Rfc822Name in c.constrained {
      ok, checks := CheckMail(c, san.rfc822Names, false);
      if !ok { return; }
    }
    ok, more := CheckDns(c, san.dnsNames);
    checks := checks + more;
    if !ok { return; }
    ok, more := CheckDirectory(l, c, san.directoryNames);
    checks := checks + more;
    if !ok { return; }
    ok, more := CheckIp(c, san.ipAddresses);
    checks := checks + more;
  }

  /** NameConstraints::IsPermittedCert.  `error` is what it adds to the error list, if
    * anything; `sanChecks` counts the comparisons made by the subjectAltName loops.  The
    * counts come from certificates, whose sizes fit in `size_t`. */
  method IsPermittedCert(l: Lookups, c: Constraints, subject: Bytes, san: Option<Names>)
    returns (error: Option<Error>, sanChecks: nat)
    requires NameCount(subject, san) < U64 && ConstraintCount(c, san) < U64
    ensures error == None <==> Accepted(l, c, subject, san)
    ensures error == Some(TooManyNameConstraintChecks) <==> Work(c, subject, san) > MAX_CHECKS
    ensures sanChecks <= MAX_CHECKS
  {
    hide MailPermitted, DirectoryPermitted, SanAccepted;
    sanChecks := 0;
    GuardExact(ConstraintCount(c, san), NameCount(subject, san));
    if TooManyChecks(ConstraintCount(c, san), NameCount(subject, san)) {
      return Some(TooManyNameConstraintChecks), 0;
    }
    var emails: seq<string> := [];
    if san == None && Rfc822Name in c.constrained {
      var found := l.emails(subject);
      if found == None {
        return Some(NotPermittedByNameConstraints), 0;
      }
      emails := found.value;
    }
    var ok;
    if san.Some? {
      ok, sanChecks := CheckSan(l, c, san.value);
      if !ok {
        return Some(NotPermittedByNameConstraints), sanChecks;
      }
    }
    var unused;
    ok, unused := CheckMail(c, emails, true);
    if !ok {
      return Some(NotPermittedByNameConstraints), sanChecks;
    }
    if san.Some? && subject == [] {
      return None, sanChecks;
    }
    ok, unused := IsPermittedDirectoryName(l, c, subject);
    if !ok {
      return Some(NotPermittedByNameConstraints), sanChecks;
    }
    return None, sanChecks;
  }

  // ----- tightening

  /** Every entry of `a` is in `b`, and `b` is no shorter. */
  ghost predicate Within<T>(a: seq<T>, b: seq<T>) {
    |a| <= |b| && forall x | x in a :: x in b
  }

  /** `b` excludes at least what `a` does, and constrains at least its name types. */
  ghost predicate ExcludesMore(a: Constraints, b: Constraints) {
    && b.permitted == a.permitted && a.constrained <= b.constrained
    && Within(a.excluded.rfc822Names, b.excluded.rfc822Names)
    && Within(a.excluded.dnsNames, b.excluded.dnsNames)
    && Within(a.excluded.directoryNames, b.excluded.directoryNames)
    && Within(a.excluded.ipRanges, b.excluded.ipRanges)
  }

  lemma NamesAntitone(l: Lookups, a: Constraints, b: Constraints)
    requires ExcludesMore(a, b)
    ensures forall n, i :: MailPermitted(b, n, i) ==> MailPermitted(a, n, i)
    ensures forall n :: DnsPermitted(b, n) ==> DnsPermitted(a, n)
    ensures forall n :: DirectoryPermitted(l, b, n) ==> DirectoryPermitted(l, a, n)
    ensures forall n :: IpPermitted(b, n) ==> IpPermitted(a, n)
  {
    hide MailMatches, Split, IsMailbox, Dns.Matches, Netmask.Matches;
  }

  /** Acceptance is antitone: with more excluded, whatever is still accepted was accepted before. */
  lemma ExcludingMoreAcceptsLess(l: Lookups, a: Constraints, b: Constraints, subject: Bytes, san: Option<Names>)
    requires ExcludesMore(a, b) && Accepted(l, b, subject, san)
    ensures Accepted(l, a, subject, san)
  {
    NamesAntitone(l, a, b);
    ProductMonotone(ConstraintCount(a, san), ConstraintCount(b, san), NameCount(subject, san), NameCount(subject, san));
    hide MailPermitted, DnsPermitted, DirectoryPermitted, IpPermitted;
  }

  lemma ProductMonotone(a: nat, b: nat, m: nat, n: nat)
    requires a <= b && m <= n
    ensures a * m <= b * n
  {
    MulMonotone(a, m, n);
    MulMonotone(n, a, b);
  }

  /** `a` is `b` with some subjectAltName entries dropped. */
  ghost predicate SomeDropped(a: Names, b: Names) {
    && a.present <= b.present
    && Within(a.rfc822Names, b.rfc822Names) && Within(a.dnsNames, b.dnsNames)
    && Within(a.directoryNames, b.directoryNames) && Within(a.ipAddresses, b.ipAddresses)
  }

  /** Dropping subjectAltName entries keeps an accepted certificate accepted. */
  lemma DroppingNamesKeepsAcceptance(l: Lookups, c: Constraints, subject: Bytes, a: Names, b: Names)
    requires SomeDropped(a, b) && Accepted(l, c, subject, Some(b))
    ensures Accepted(l, c, subject, Some(a))
  {
    hide MailPermitted, DnsPermitted, DirectoryPermitted, IpPermitted;
    ProductMonotone(ConstraintCount(c, Some(a)), ConstraintCount(c, Some(b)),
                    NameCount(subject, Some(a)), NameCount(subject, Some(b)));
  }

  // ----- the extension

  function ConstrainedBy(types: set<NameType>, critical: bool): set<NameType> {
    if critical then types else types * SUPPORTED
  }

  /** What Parse makes of two parsed subtree lists. */
  function Assemble(permitted: Names, excluded: Names, critical: bool): Constraints {
    Constraints(permitted, excluded, ConstrainedBy(permitted.present, critical) + ConstrainedBy(excluded.present, critical))
  }

  /** One more excluded subtree of any type, in a critical extension or not, never turns a
    * refused certificate into an accepted one. */
  lemma ExcludedSubtreeNeverAdmits(l: Lookups, permitted: Names, excluded: Names, n: Name, critical: bool,
                                   subject: Bytes, san: Option<Names>)
    requires Accepted(l, Assemble(permitted, Add(excluded, n), critical), subject, san)
    ensures Accepted(l, Assemble(permitted, excluded, critical), subject, san)
  {
    hide Accepted;
    ExcludingMoreAcceptsLess(l, Assemble(permitted, excluded, critical), Assemble(permitted, Add(excluded, n), critical),
                             subject, san);
  }

  /** Making the extension critical only refuses more. */
  lemma CriticalOnlyTightens(l: Lookups, permitted: Names, excluded: Names, subject: Bytes, san: Option<Names>)
    requires Accepted(l, Assemble(permitted, excluded, true), subject, san)
    ensures Accepted(l, Assemble(permitted, excluded, false), subject, san)
  {
    hide Accepted;
    ExcludingMoreAcceptsLess(l, Assemble(permitted, excluded, false), Assemble(permitted, excluded, true), subject, san);
  }

  /** An optional context-specific field at the front of a sequence body. */
  datatype Field = Unreadable | Absent | Present(value: Bytes, rest: Bytes)

  function OptionalField(read: Reader, tag: nat, b: Bytes): Field {
    if b == [] then Absent
    else
      match Peeked(read, b)
      case None => Unreadable
      case Some(e) => if e.tag == tag then Present(e.value, e.rest) else Absent
  }

  /** The subtrees of a field, and what follows it. */
  ghost function FieldNames(read: Reader, tag: nat, b: Bytes): Option<(Names, Bytes)> {
    match OptionalField(read, tag, b)
    case Unreadable => None
    case Absent => Some((EMPTY, b))
    case Present(value, rest) =>
      if value != [] && SubtreesOf(read, value).Some? then Some((AddAll(EMPTY, SubtreesOf(read, value).value), rest)) else None
  }

  const PERMITTED_TAG: nat := CONTEXT_SPECIFIC + CONSTRUCTED + 0
  const EXCLUDED_TAG: nat := CONTEXT_SPECIFIC + CONSTRUCTED + 1

  /** The constraints an extension value stands for; one field at least must be there. */
  ghost function ParsedConstraints(read: Reader, value: Bytes, critical: bool): Option<Constraints> {
    var e := Tagged(read, SEQUENCE, value);
    if e == None || e.value.rest != [] then None
    else
      var body := e.value.value;
      var permitted := FieldNames(read, PERMITTED_TAG, body);
      if permitted == None then None
      else
        var excluded := FieldNames(read, EXCLUDED_TAG, permitted.value.1);
        if excluded == None || body == excluded.value.1 || excluded.value.1 != [] then None
        else Some(Assemble(permitted.value.0, excluded.value.0, critical))
  }

  class NameConstraints {
    var permittedSubtrees: GeneralNames
    var excludedSubtrees: GeneralNames
    var constrainedNameTypes: set<NameType>

    function Value(): Constraints
      reads this, permittedSubtrees, excludedSubtrees
    {
      Constraints(permittedSubtrees.Contents(), excludedSubtrees.Contents(), constrainedNameTypes)
    }

    constructor ()
      ensures fresh(permittedSubtrees) && fresh(excludedSubtrees) && permittedSubtrees != excludedSubtrees
      ensures Value() == Constraints(EMPTY, EMPTY, {})
    {
      permittedSubtrees := new GeneralNames();
      excludedSubtrees := new GeneralNames();
      constrainedNameTypes := {};
    }

    /** Reads one of the two fields into `subtrees`. */
    method ParseField(read: Reader, tag: nat, parser: Parser, subtrees: GeneralNames)
      returns (ok: bool, there: bool)
      requires parser.read == read && subtrees.Contents() == EMPTY
      modifies parser, subtrees
      ensures ok <==> FieldNames(read, tag, old(parser.cbs)).Some?
      ensures ok ==> (subtrees.Contents(), parser.cbs) == FieldNames(read, tag, old(parser.cbs)).value
      ensures ok ==> (there <==> parser.cbs != old(parser.cbs))
    {
      hide SubtreesOf, AddAll;
      var readable, value := parser.ReadOptionalTag(tag);
      if !readable {
        return false, false;
      }
      if value == None {
        return true, false;
      }
      ok := ParseGeneralSubtrees(read, value.value, subtrees);
      there := true;
    }

    method Parse(read: Reader, value: Bytes, critical: bool) returns (ok: bool)
      requires Value() == Constraints(EMPTY, EMPTY, {}) && permittedSubtrees != excludedSubtrees
      modifies this, permittedSubtrees, excludedSubtrees
      ensures ok <==> ParsedConstraints(read, value, critical).Some?
      ensures ok ==> Value() == ParsedConstraints(read, value, critical).value
    {
      hide FieldNames;
      var extensionParser := new Parser(read, value);
      var parser := extensionParser.ReadSequence();
      if parser == null {
        return false;
      }
      if extensionParser.HasMore() {
        return false;
      }
      ghost var body := parser.cbs;
      var hasPermitted, hasExcluded;
      ok, hasPermitted := ParseField(read, PERMITTED_TAG, parser, permittedSubtrees);
      if !ok {
        return;
      }
      constrainedNameTypes := constrainedNameTypes + ConstrainedBy(permittedSubtrees.present, critical);
      ghost var middle := parser.cbs;
      FieldShrinks(read, PERMITTED_TAG, body);
      FieldShrinks(read, EXCLUDED_TAG, middle);
      ok, hasExcluded := ParseField(read, EXCLUDED_TAG, parser, excludedSubtrees);
      if !ok {
        return;
      }
      constrainedNameTypes := constrainedNameTypes + ConstrainedBy(excludedSubtrees.present, critical);
      if !hasPermitted && !hasExcluded {
        return false;
      }
      if parser.HasMore() {
        return false;
      }
      return true;
    }
  }

  lemma FieldShrinks(read: Reader, tag: nat, b: Bytes)
    ensures var f := FieldNames(read, tag, b); f.Some? ==> f.value.1 == b || |f.value.1| < |b|
  {
    hide SubtreesOf, AddAll;
  }

  /** In parsed constraints a type is constrained exactly when a subtree of it is listed, the
    * unsupported types only if the extension is critical. */
  lemma ParsedTypes(read: Reader, value: Bytes, critical: bool)
    requires ParsedConstraints(read, value, critical).Some?
    ensures var c := ParsedConstraints(read, value, critical).value;
            && TypesMatch(c.permitted) && TypesMatch(c.excluded)
            && c.constrained == ConstrainedBy(c.permitted.present + c.excluded.present, critical)
  {
    FieldTypes(read, PERMITTED_TAG, Tagged(read, SEQUENCE, value).value.value);
    FieldTypes(read, EXCLUDED_TAG, FieldNames(read, PERMITTED_TAG, Tagged(read, SEQUENCE, value).value.value).value.1);
    hide FieldNames, TypesMatch;
  }

  lemma FieldTypes(read: Reader, tag: nat, b: Bytes)
    requires FieldNames(read, tag, b).Some?
    ensures TypesMatch(FieldNames(read, tag, b).value.0)
  {
    var f := OptionalField(read, tag, b);
    if f.Present? { AddAllTypes(SubtreesOf(read, f.value).value); }
    hide SubtreesOf, AddAll;
  }
}
