/** DNS name constraints: DNSNameMatches and NameConstraints::IsPermittedDNSName of
  * pki/name_constraints.cc, with the ASCII helpers of pki/string_util.cc they use.
  */
module DnsNames {
  import opened Basics

  // ----- string helpers

  /** OPENSSL_tolower */
  function ToLower(c: char): char {
    if 'A' <= c <= 'Z' then (c as int + 32) as char else c
  }

  /** IsEqualNoCase */
  predicate EqualNoCase(a: string, b: string) {
    |a| == |b| && forall i | 0 <= i < |a| :: ToLower(a[i]) == ToLower(b[i])
  }

  /** EndsWithNoCase */
  predicate EndsWithNoCase(s: string, suffix: string) {
    |suffix| <= |s| && EqualNoCase(suffix, s[|s| - |suffix|..])
  }

  /** The position of the first dot, or the length. */
  function FirstDot(s: string): (d: nat)
    ensures d <= |s| && forall i | 0 <= i < d :: s[i] != '.'
    ensures d < |s| ==> s[d] == '.'
  {
    if s == "" || s[0] == '.' then 0 else 1 + FirstDot(s[1..])
  }

  function TrimDot(s: string): string {
    if s != "" && s[|s| - 1] == '.' then s[..|s| - 1] else s
  }

  // ----- the matcher

  datatype WildcardMatch = Partial | Full

  /** DNSNameMatches */
  predicate Matches(name: string, dnsConstraint: string, wildcards: WildcardMatch) {
    if dnsConstraint == "" then true
    else
      var n := TrimDot(name);
      var c := TrimDot(dnsConstraint);
      if wildcards == Partial && |n| > 2 && n[0] == '*' && n[1] == '.'
         && FirstDot(c) < |c| && EqualNoCase(n[2..], c[FirstDot(c) + 1..]) then true
      else if !EndsWithNoCase(n, c) then false
      else if |n| == |c| then true
      else
        var c' := if c != "" && c[0] == '.' then c[1..] else c;
        |n| > |c'| && n[|n| - |c'| - 1] == '.'
  }

  /** What the two loops of IsPermittedDNSName decide; `present` is the DNS bit of the
    * permitted subtrees. */
  ghost predicate Permitted(excluded: seq<string>, present: bool, permitted: seq<string>, name: string) {
    && (forall e | e in excluded :: !Matches(name, e, Partial))
    && (present ==> exists p :: p in permitted && Matches(name, p, Full))
  }

  /** NameConstraints::IsPermittedDNSName.  `checks` counts calls of DNSNameMatches. */
  method IsPermittedDNSName(excluded: seq<string>, present: bool, permitted: seq<string>, name: string)
    returns (ok: bool, checks: nat)
    ensures ok <==> Permitted(excluded, present, permitted, name)
    ensures checks <= |excluded| + |permitted|
  {
    checks := 0;
    for i := 0 to |excluded|
      invariant checks == i
      invariant forall k | 0 <= k < i :: !Matches(name, excluded[k], Partial)
    {
      checks := checks + 1;
      if Matches(name, excluded[i], Partial) {
        return false, checks;
      }
    }
    if !present {
      return true, checks;
    }
    for i := 0 to |permitted|
      invariant checks == |excluded| + i
      invariant forall k | 0 <= k < i :: !Matches(name, permitted[k], Full)
    {
      checks := checks + 1;
      if Matches(name, permitted[i], Full) {
        return true, checks;
      }
    }
    return false, checks;
  }

  // ----- strings without case

  function Lower(s: string): (r: string)
    ensures |r| == |s|
  {
    seq(|s|, i requires 0 <= i < |s| => ToLower(s[i]))
  }

  lemma LowerEqual(a: string, b: string)
    ensures EqualNoCase(a, b) <==> Lower(a) == Lower(b)
  {
    if EqualNoCase(a, b) {
      assert forall i | 0 <= i < |a| :: Lower(a)[i] == Lower(b)[i];
    }
    if Lower(a) == Lower(b) {
      forall i | 0 <= i < |a| ensures ToLower(a[i]) == ToLower(b[i]) {
        assert Lower(a)[i] == Lower(b)[i];
      }
    }
  }

  lemma LowerConcat(a: string, b: string)
    ensures Lower(a + b) == Lower(a) + Lower(b)
  {
  }

  lemma LowerDrop(s: string, k: nat)
    requires k <= |s|
    ensures Lower(s[k..]) == Lower(s)[k..] && Lower(s[..k]) == Lower(s)[..k]
  {
  }

  predicate EndsWith(s: string, suffix: string) {
    |suffix| <= |s| && s[|s| - |suffix|..] == suffix
  }

  lemma LowerEnds(s: string, suffix: string)
    ensures EndsWithNoCase(s, suffix) <==> EndsWith(Lower(s), Lower(suffix))
  {
    if |suffix| <= |s| {
      LowerEqual(suffix, s[|s| - |suffix|..]);
      LowerDrop(s, |s| - |suffix|);
    }
  }

  lemma LowerFirstDot(s: string)
    ensures FirstDot(Lower(s)) == FirstDot(s)
  {
    var d, e := FirstDot(s), FirstDot(Lower(s));
    assert d < |s| ==> Lower(s)[d] == '.';
    assert e < |s| ==> ToLower(s[e]) == '.' by { if e < |s| { assert Lower(s)[e] == '.'; } }
    assert forall i | 0 <= i < d :: Lower(s)[i] != '.';
  }

  /** Full matching of trimmed, lower-case strings. */
  predicate Within(n: string, c: string) {
    if c != "" && c[0] == '.' then EndsWith(n, c) else n == c || EndsWith(n, "." + c)
  }

  lemma EndsAfterDot(n: string, c: string)
    ensures EndsWith(n, "." + c) <==> |n| > |c| && EndsWith(n, c) && n[|n| - |c| - 1] == '.'
  {
    if |n| > |c| {
      var k := |n| - |c| - 1;
      assert n[k..] == [n[k]] + n[k + 1..];
    }
  }

  /** A constraint with a leading dot: the code's test of the octet before the match adds nothing. */
  lemma DottedMatch(n: string, c: string)
    requires c != "" && c[0] == '.' && EndsWithNoCase(n, c) && |n| > |c|
    ensures n[|n| - |c|] == '.'
  {
    var k := |n| - |c|;
    assert n[k..][0] == n[k];
    LowerDot(n[k]);
  }

  lemma LowerDot(c: char)
    ensures ToLower(c) == '.' <==> c == '.'
  {
  }

  /** The octet in front of the match, in either case. */
  lemma BeforeMatch(n: string, c: string)
    requires |n| > |c|
    ensures Lower(n)[|n| - |c| - 1] == '.' <==> n[|n| - |c| - 1] == '.'
  {
    LowerDot(n[|n| - |c| - 1]);
  }

  lemma FullMatch(name: string, dnsConstraint: string)
    ensures Matches(name, dnsConstraint, Full)
       <==> dnsConstraint == "" || Within(Lower(TrimDot(name)), Lower(TrimDot(dnsConstraint)))
  {
    hide EndsWithNoCase, TrimDot;
    FullMatchTrimmed(TrimDot(name), TrimDot(dnsConstraint));
    hide Within, Lower;
  }

  /** What Matches asks of trimmed strings in full mode. */
  predicate FullTest(n: string, c: string) {
    EndsWithNoCase(n, c) && (
      || |n| == |c|
      || var c' := if c != "" && c[0] == '.' then c[1..] else c;
         |n| > |c'| && n[|n| - |c'| - 1] == '.')
  }

  lemma FullMatchTrimmed(n: string, c: string)
    ensures FullTest(n, c) <==> Within(Lower(n), Lower(c))
  {
    LowerEnds(n, c);
    if c != "" && c[0] == '.' {
      assert Lower(c)[0] == '.';
      hide EndsWithNoCase, EndsWith;
      if EndsWithNoCase(n, c) && |n| > |c| {
        DottedMatch(n, c);
      }
    } else {
      if c != "" { assert Lower(c)[0] == ToLower(c[0]); LowerDot(c[0]); }
      EndsAfterDot(Lower(n), Lower(c));
      if |n| > |c| {
        BeforeMatch(n, c);
      } else if |n| == |c| {
        assert Lower(n)[0..] == Lower(n);
      }
      hide EndsWithNoCase, Lower;
    }
  }

  /** The wildcard name `n` and `c` agree once the leftmost label of each is removed. */
  predicate ExpandsTo(n: string, c: string) {
    |n| > 2 && n[0] == '*' && n[1] == '.' && FirstDot(c) < |c| && n[2..] == c[FirstDot(c) + 1..]
  }

  lemma PartialMatch(name: string, dnsConstraint: string)
    ensures Matches(name, dnsConstraint, Partial) <==>
              || dnsConstraint == ""
              || Within(Lower(TrimDot(name)), Lower(TrimDot(dnsConstraint)))
              || ExpandsTo(Lower(TrimDot(name)), Lower(TrimDot(dnsConstraint)))
  {
    FullMatch(name, dnsConstraint);
    var n, c := TrimDot(name), TrimDot(dnsConstraint);
    LowerFirstDot(c);
    if |n| > 2 {
      LowerDrop(n, 2);
      assert Lower(n)[0] == ToLower(n[0]) && Lower(n)[1] == ToLower(n[1]);
    }
    if FirstDot(c) < |c| {
      LowerDrop(c, FirstDot(c) + 1);
      if |n| > 2 { LowerEqual(n[2..], c[FirstDot(c) + 1..]); }
    }
  }

  // ----- label semantics

  /** The labels of a name, leftmost first. */
  function Labels(s: string): (ls: seq<string>)
    ensures |ls| > 0
    decreases |s|
  {
    var d := FirstDot(s);
    if d == |s| then [s] else [s[..d]] + Labels(s[d + 1..])
  }

  predicate LabelSuffix(c: seq<string>, n: seq<string>) {
    |c| <= |n| && n[|n| - |c|..] == c
  }

  predicate LabelSuffixNoCase(c: seq<string>, n: seq<string>) {
    |c| <= |n| && forall i | 0 <= i < |c| :: EqualNoCase(c[i], n[|n| - |c| + i])
  }

  lemma {:induction false} JoinLabels(s: string)
    ensures Join(Labels(s), '.') == s
    decreases |s|
  {
    var d := FirstDot(s);
    if d < |s| {
      JoinLabels(s[d + 1..]);
      assert s == s[..d] + "." + s[d + 1..];
    }
  }

  /** Ending in a dot and `c` means reaching `c` right after some dot of `n`. */
  lemma EndsAtDot(n: string, c: string)
    ensures var d := FirstDot(n);
            EndsWith(n, "." + c) <==> d < |n| && (n[d + 1..] == c || EndsWith(n[d + 1..], "." + c))
  {
    hide EndsWith, FirstDot;
    var d := FirstDot(n);
    SplitAtDot(n);
    TailEnds(n[..d], n[d..], "." + c);
    if d < |n| {
      DotEnds(n[d + 1..], c);
    } else {
      NothingEnds("." + c);
    }
  }

  lemma SplitAtDot(n: string)
    ensures var d := FirstDot(n);
            && n == n[..d] + n[d..] && '.' !in n[..d]
            && (if d < |n| then n[d..] == "." + n[d + 1..] else n[d..] == "")
  {
    hide FirstDot;
    var d := FirstDot(n);
    Cut(n, d);
    forall i | 0 <= i < d ensures n[..d][i] != '.' {
      assert n[..d][i] == n[i];
    }
  }

  lemma Cut(n: string, d: nat)
    requires d <= |n|
    ensures n == n[..d] + n[d..] && (if d < |n| then n[d..] == [n[d]] + n[d + 1..] else n[d..] == "")
  {
  }

  lemma NothingEnds(e: string)
    requires e != ""
    ensures !EndsWith("", e)
  {
  }

  lemma DotEnds(r: string, c: string)
    ensures EndsWith("." + r, "." + c) <==> r == c || EndsWith(r, "." + c)
  {
    if |c| < |r| {
      SameEnd(".", r, "." + c);
    } else if |c| == |r| {
      assert ("." + r)[0..] == "." + r;
      assert ("." + r)[1..] == r && ("." + c)[1..] == c;
    }
  }

  lemma SameEnd(x: string, r: string, c: string)
    requires |c| <= |r|
    ensures EndsWith(x + r, c) <==> EndsWith(r, c)
  {
    assert (x + r)[|x + r| - |c|..] == r[|r| - |c|..];
  }

  lemma SuffixCons(c: seq<string>, h: string, r: seq<string>)
    ensures LabelSuffix(c, [h] + r) <==> LabelSuffix(c, r) || c == [h] + r
  {
    var n := [h] + r;
    if |c| <= |r| {
      assert n[|n| - |c|..] == r[|r| - |c|..];
    } else if |c| == |n| {
      assert n[0..] == n;
    }
  }

  lemma LabelsInjective(a: string, b: string)
    ensures Labels(a) == Labels(b) <==> a == b
  {
    JoinLabels(a);
    JoinLabels(b);
  }

  lemma {:induction false} SuffixOfLabels(n: string, c: string)
    ensures LabelSuffix(Labels(c), Labels(n)) <==> n == c || EndsWith(n, "." + c)
    decreases |n|
  {
    var d := FirstDot(n);
    EndsAtDot(n, c);
    LabelsInjective(n, c);
    if d == |n| {
      SuffixCons(Labels(c), n, []);
      assert [n] + [] == Labels(n);
    } else {
      SuffixOfLabels(n[d + 1..], c);
      SuffixCons(Labels(c), n[..d], Labels(n[d + 1..]));
      assert Labels(n) == [n[..d]] + Labels(n[d + 1..]);
      hide LabelSuffix, EndsWith;
    }
  }

  lemma {:induction false} LowerLabels(s: string)
    ensures |Labels(Lower(s))| == |Labels(s)|
    ensures forall i | 0 <= i < |Labels(s)| :: Labels(Lower(s))[i] == Lower(Labels(s)[i])
    decreases |s|
  {
    LowerFirstDot(s);
    var d := FirstDot(s);
    if d < |s| {
      LowerLabels(s[d + 1..]);
      LowerDrop(s, d);
      LowerDrop(s, d + 1);
    }
  }

  lemma LowerLabelSuffix(n: string, c: string)
    ensures LabelSuffixNoCase(Labels(c), Labels(n)) <==> LabelSuffix(Labels(Lower(c)), Labels(Lower(n)))
  {
    LowerLabels(n);
    LowerLabels(c);
    LowerSuffix(Labels(n), Labels(c), Labels(Lower(n)), Labels(Lower(c)));
  }

  lemma LowerSuffix(n: seq<string>, c: seq<string>, ln: seq<string>, lc: seq<string>)
    requires |ln| == |n| && |lc| == |c|
    requires (forall i | 0 <= i < |n| :: ln[i] == Lower(n[i])) && (forall i | 0 <= i < |c| :: lc[i] == Lower(c[i]))
    ensures LabelSuffixNoCase(c, n) <==> LabelSuffix(lc, ln)
  {
    hide Lower, EqualNoCase;
    if |c| <= |n| {
      var k := |n| - |c|;
      forall i | 0 <= i < |c| ensures EqualNoCase(c[i], n[k + i]) <==> lc[i] == ln[k..][i] {
        LowerEqual(c[i], n[k + i]);
      }
    }
  }

  /** Full matching is label matching: after one trailing dot is dropped from each side, a
    * non-empty constraint admits exactly the names whose labels end with its own, and one
    * that begins with a dot only names with further labels in front. */
  lemma FullMatchIsLabelSuffix(name: string, dnsConstraint: string)
    requires dnsConstraint != ""
    ensures var n, c := TrimDot(name), TrimDot(dnsConstraint);
            Matches(name, dnsConstraint, Full) <==>
              if c != "" && c[0] == '.'
              then LabelSuffixNoCase(Labels(c[1..]), Labels(n)) && |Labels(c[1..])| < |Labels(n)|
              else LabelSuffixNoCase(Labels(c), Labels(n))
  {
    hide Matches, TrimDot, Lower, Labels, LabelSuffix, LabelSuffixNoCase, EndsWith;
    FullMatch(name, dnsConstraint);
    var n, c := TrimDot(name), TrimDot(dnsConstraint);
    var r := if c != "" && c[0] == '.' then c[1..] else c;
    LowerLabelSuffix(n, r);
    SuffixOfLabels(Lower(n), Lower(r));
    LowerFront(c);
    if c != "" && c[0] == '.' {
      LabelCount(n);
      LabelCount(r);
      SameLabels(Lower(n), Lower(r));
      SuffixLength(Labels(Lower(r)), Labels(Lower(n)));
      LongerEnds(Lower(n), Lower(r));
    }
  }

  lemma LowerFront(c: string)
    ensures c != "" && c[0] == '.' ==> Lower(c) == "." + Lower(c[1..])
    ensures Lower(c) != "" && Lower(c)[0] == '.' <==> c != "" && c[0] == '.'
  {
    if c != "" { LowerDot(c[0]); }
  }

  lemma LabelCount(s: string)
    ensures |Labels(Lower(s))| == |Labels(s)|
  {
    LowerLabels(s);
  }

  lemma SuffixLength(c: seq<string>, n: seq<string>)
    ensures LabelSuffix(c, n) ==> |c| <= |n|
  {
  }

  lemma LongerEnds(n: string, c: string)
    ensures EndsWith(n, "." + c) ==> n != c
  {
  }

  lemma SameLabels(n: string, r: string)
    ensures LabelSuffix(Labels(r), Labels(n)) && |Labels(r)| == |Labels(n)| <==> n == r
  {
    LabelsInjective(n, r);
    hide Labels;
    assert Labels(n)[0..] == Labels(n);
  }

  // ----- wildcards

  /** What can stand for the `*` of a wildcard name. */
  predicate IsLabel(l: string) {
    l != "" && l != "*" && '.' !in l
  }

  /** `c` covers every name one label above `d`. */
  predicate Above(d: string, c: string) {
    EndsWith("." + d, if c != "" && c[0] == '.' then c else "." + c)
  }

  /** One label in front of `d`: the constraint covers them all, or is that name. */
  lemma WithinExpansion(x: string, d: string, c: string)
    requires x != "" && '.' !in x
    ensures Within(x + "." + d, c) <==> Above(d, c) || c == x + "." + d
  {
    var n := x + "." + d;
    assert n[0] == x[0] && x[0] in x;
    var e := if c != "" && c[0] == '.' then c else "." + c;
    assert n == x + ("." + d);
    TailEnds(x, "." + d, e);
    hide EndsWith;
  }

  /** A suffix that starts with a dot does not reach into a dot-free prefix. */
  lemma TailEnds(x: string, t: string, e: string)
    requires '.' !in x && e != "" && e[0] == '.'
    ensures EndsWith(x + t, e) <==> EndsWith(t, e)
  {
    var n := x + t;
    if |e| <= |t| {
      assert n[|n| - |e|..] == t[|t| - |e|..];
    } else if |e| <= |n| {
      var k := |n| - |e|;
      assert n[k] == x[k] && x[k] in x;
      assert n[k..][0] == n[k];
    }
  }

  /** Partial matching of a wildcard: the constraint covers all its expansions, or is `*` or
    * another label in front of `d`. */
  lemma WildcardPartial(d: string, c: string)
    requires d != ""
    ensures Within("*." + d, c) || ExpandsTo("*." + d, c) <==>
              Above(d, c) || exists x :: x != "" && '.' !in x && c == x + "." + d
  {
    hide Within, Above, ExpandsTo;
    assert "*." + d == "*" + "." + d;
    WithinExpansion("*", d, c);
    if ExpandsTo("*." + d, c) {
      var x := FirstLabelOf(d, c);
    }
    if x :| x != "" && '.' !in x && c == x + "." + d {
      OneLabelExpands(x, d);
    }
  }

  lemma FirstLabelOf(d: string, c: string) returns (x: string)
    requires ExpandsTo("*." + d, c)
    ensures Above(d, c) || (x != "" && '.' !in x && c == x + "." + d)
  {
    var k := FirstDot(c);
    assert ("*." + d)[2..] == d;
    x := c[..k];
    assert c == x + "." + d;
    if k == 0 {
      assert c == "." + d;
      assert ("." + d)[0..] == c;
    }
  }

  lemma OneLabelExpands(x: string, d: string)
    requires d != "" && x != "" && '.' !in x
    ensures ExpandsTo("*." + d, x + "." + d)
  {
    var c := x + "." + d;
    assert c[|x|] == '.';
    assert forall i | 0 <= i < |x| :: c[i] in x;
    assert FirstDot(c) == |x|;
    assert c[|x| + 1..] == d && ("*." + d)[2..] == d;
  }

  lemma TrimExpansion(x: string, domain: string)
    requires TrimDot(domain) != ""
    ensures Lower(TrimDot(x + "." + domain)) == Lower(x) + "." + Lower(TrimDot(domain))
  {
    var n := x + "." + domain;
    assert n[|n| - 1] == domain[|domain| - 1];
    assert TrimDot(n) == x + "." + TrimDot(domain);
    LowerConcat(x + ".", TrimDot(domain));
    LowerConcat(x, ".");
    assert Lower(".") == ".";
  }

  lemma LowerLabel(l: string)
    requires IsLabel(l)
    ensures IsLabel(Lower(l))
  {
    assert Lower(l)[0] == ToLower(l[0]);
    forall i | 0 <= i < |l| ensures Lower(l)[i] != '.' {
      assert l[i] in l;
    }
  }

  /** Whether the constraint is the wildcard name itself. */
  predicate IsStar(c: string, domain: string) {
    c != "" && Lower(TrimDot(c)) == "*." + Lower(TrimDot(domain))
  }

  function DropStars(cs: seq<string>, domain: string): (r: seq<string>)
    ensures forall c :: c in r <==> c in cs && !IsStar(c, domain)
  {
    if cs == [] then []
    else (if IsStar(cs[0], domain) then [] else [cs[0]]) + DropStars(cs[1..], domain)
  }

  lemma StarPartial(c: string, domain: string)
    requires TrimDot(domain) != ""
    ensures var d, e := Lower(TrimDot(domain)), Lower(TrimDot(c));
            Matches("*." + domain, c, Partial) <==>
              c == "" || Above(d, e) || exists x :: x != "" && '.' !in x && e == x + "." + d
  {
    hide Matches, Above, Within, ExpandsTo, Lower;
    var d, e := Lower(TrimDot(domain)), Lower(TrimDot(c));
    StarTrimmed(domain);
    PartialMatch("*." + domain, c);
    WildcardPartial(d, e);
  }

  lemma StarTrimmed(domain: string)
    requires TrimDot(domain) != ""
    ensures Lower(TrimDot("*." + domain)) == "*." + Lower(TrimDot(domain))
  {
    TrimExpansion("*", domain);
    var d := Lower(TrimDot(domain));
    assert Lower("*") == "*";
    assert "*" + "." + d == "*." + d && "*" + "." + domain == "*." + domain;
  }

  /** Excluded subtrees: the wildcard is matched exactly when some expansion is, constraints
    * spelt as the wildcard itself aside. */
  lemma ExcludedIffSomeExpansion(c: string, domain: string)
    requires TrimDot(domain) != ""
    ensures Matches("*." + domain, c, Partial) && !IsStar(c, domain)
       <==> exists l :: IsLabel(l) && Matches(l + "." + domain, c, Partial)
  {
    hide Matches, IsStar, IsLabel, TrimDot;
    if Matches("*." + domain, c, Partial) && !IsStar(c, domain) {
      var l := SomeExpansion(c, domain);
      assert Matches(l + "." + domain, c, Partial);
    }
    if l :| IsLabel(l) && Matches(l + "." + domain, c, Partial) {
      ExpansionExcluded(l, c, domain);
    }
  }

  lemma SomeExpansion(c: string, domain: string) returns (l: string)
    requires TrimDot(domain) != "" && Matches("*." + domain, c, Partial) && !IsStar(c, domain)
    ensures IsLabel(l) && Matches(l + "." + domain, c, Partial)
  {
    hide Matches, Above, TrimDot;
    var d, e := Lower(TrimDot(domain)), Lower(TrimDot(c));
    StarPartial(c, domain);
    l := "a";
    if c != "" && !Above(d, e) {
      var x :| x != "" && '.' !in x && e == x + "." + d;
      l := x;
      assert "*" + "." + d == "*." + d;
      assert x == e[..|x|];
      LowerOfLower(x, TrimDot(c));
    }
    ExpansionMatches(l, c, domain);
  }

  lemma ExpansionExcluded(l: string, c: string, domain: string)
    requires TrimDot(domain) != "" && IsLabel(l) && Matches(l + "." + domain, c, Partial)
    ensures Matches("*." + domain, c, Partial) && !IsStar(c, domain)
  {
    hide Matches, Above, TrimDot, Lower;
    ExpansionMatches(l, c, domain);
    StarPartial(c, domain);
    LowerLabel(l);
    SplitStar(Lower(l), Lower(TrimDot(domain)));
  }

  lemma LowerOfLower(x: string, s: string)
    requires x <= Lower(s)
    ensures Lower(x) == x
  {
    forall i | 0 <= i < |x| ensures ToLower(x[i]) == x[i] {
      assert x[i] == Lower(s)[i] == ToLower(s[i]);
    }
  }

  lemma SplitStar(x: string, d: string)
    requires IsLabel(x)
    ensures "*." + d != x + "." + d && !Above(d, "*." + d)
  {
    assert (x + "." + d)[0] == x[0];
    if |x| == 1 { assert x == [x[0]]; }
  }

  lemma NotWildcard(x: string, d: string, c: string)
    requires IsLabel(x)
    ensures !ExpandsTo(x + "." + d, c)
  {
    var n := x + "." + d;
    assert n[0] == x[0];
    if |x| > 1 {
      assert n[1] == x[1] && x[1] in x;
    } else {
      assert x == [x[0]];
    }
  }

  /** An expansion is no wildcard, so both modes treat it alike. */
  lemma ExpansionMatches(l: string, c: string, domain: string)
    requires IsLabel(l) && TrimDot(domain) != ""
    ensures var d, e := Lower(TrimDot(domain)), Lower(TrimDot(c));
            var m := c == "" || Above(d, e) || e == Lower(l) + "." + d;
            (Matches(l + "." + domain, c, Partial) <==> m) && (Matches(l + "." + domain, c, Full) <==> m)
  {
    hide Matches, Above, Within, ExpandsTo, TrimDot, IsLabel, Lower;
    var n := l + "." + domain;
    TrimExpansion(l, domain);
    LowerLabel(l);
    LabelDotFree(Lower(l));
    WithinExpansion(Lower(l), Lower(TrimDot(domain)), Lower(TrimDot(c)));
    NotWildcard(Lower(l), Lower(TrimDot(domain)), Lower(TrimDot(c)));
    FullMatch(n, c);
    PartialMatch(n, c);
  }

  lemma LabelDotFree(l: string)
    requires IsLabel(l)
    ensures l != "" && '.' !in l
  {
  }

  // ----- the whole decision

  /** A label too long to be the first label of any listed constraint. */
  function FreshLabel(cs: seq<string>): (l: string)
    ensures IsLabel(l) && forall c | c in cs :: |l| > |c|
  {
    if cs == [] then "aa"
    else
      var l := FreshLabel(cs[1..]);
      if |l| > |cs[0]| then l else l + seq(|cs[0]|, i => 'a')
  }

  /** Permitted subtrees: some one constraint matches the wildcard exactly when every
    * expansion is matched by some constraint, constraints spelt as the wildcard aside. */
  lemma PermittedIffEveryExpansion(cs: seq<string>, domain: string)
    requires TrimDot(domain) != ""
    ensures (exists c :: c in DropStars(cs, domain) && Matches("*." + domain, c, Full))
       <==> (forall l | IsLabel(l) :: exists c :: c in cs && Matches(l + "." + domain, c, Full))
  {
    hide Matches, IsLabel, TrimDot;
    if c :| c in DropStars(cs, domain) && Matches("*." + domain, c, Full) {
      forall l | IsLabel(l) ensures exists c :: c in cs && Matches(l + "." + domain, c, Full) {
        StarCovers(c, domain, l);
      }
    }
    if forall l | IsLabel(l) :: exists c :: c in cs && Matches(l + "." + domain, c, Full) {
      var l := FreshLabel(cs);
      var c :| c in cs && Matches(l + "." + domain, c, Full);
      LongLabelCovered(l, c, domain);
      assert c in DropStars(cs, domain);
    }
  }

  lemma StarCovers(c: string, domain: string, l: string)
    requires TrimDot(domain) != "" && IsLabel(l) && Matches("*." + domain, c, Full) && !IsStar(c, domain)
    ensures Matches(l + "." + domain, c, Full)
  {
    hide Matches, Above, IsLabel, IsStar, Lower, TrimDot;
    StarFull(c, domain);
    ExpansionMatches(l, c, domain);
  }

  /** What matches a label longer than itself matches the wildcard too. */
  lemma LongLabelCovered(l: string, c: string, domain: string)
    requires TrimDot(domain) != "" && IsLabel(l) && |l| > |c| && Matches(l + "." + domain, c, Full)
    ensures Matches("*." + domain, c, Full) && !IsStar(c, domain)
  {
    hide Matches, Above;
    ExpansionMatches(l, c, domain);
    StarFull(c, domain);
    SplitStar("aa", Lower(TrimDot(domain)));
    assert |Lower(TrimDot(c))| < |l|;
  }

  lemma StarFull(c: string, domain: string)
    requires TrimDot(domain) != ""
    ensures Matches("*." + domain, c, Full)
       <==> c == "" || Above(Lower(TrimDot(domain)), Lower(TrimDot(c))) || IsStar(c, domain)
  {
    hide Matches, Above, Within, Lower;
    StarTrimmed(domain);
    FullMatch("*." + domain, c);
    var d := Lower(TrimDot(domain));
    assert "*." + d == "*" + "." + d;
    WithinExpansion("*", d, Lower(TrimDot(c)));
  }

  /** Wildcard exactness, for every constraint list and every domain: all expansions of
    * `*.domain` are permitted exactly when the wildcard itself is permitted by the
    * constraints that are not spelt `*.domain`. */
  lemma WildcardExact(excluded: seq<string>, present: bool, permitted: seq<string>, domain: string)
    requires TrimDot(domain) != ""
    ensures (forall l | IsLabel(l) :: Permitted(excluded, present, permitted, l + "." + domain))
       <==> Permitted(DropStars(excluded, domain), present, DropStars(permitted, domain), "*." + domain)
  {
    hide Matches, IsLabel, IsStar, TrimDot;
    var star := "*." + domain;
    PermittedIffEveryExpansion(permitted, domain);
    forall e
      ensures Matches(star, e, Partial) && !IsStar(e, domain)
         <==> exists l :: IsLabel(l) && Matches(l + "." + domain, e, Partial)
    {
      ExcludedIffSomeExpansion(e, domain);
    }
    if forall l | IsLabel(l) :: Permitted(excluded, present, permitted, l + "." + domain) {
      forall e | e in DropStars(excluded, domain) ensures !Matches(star, e, Partial) {
      }
    }
  }

  /** A permitted constraint `*.domain` admits that name and none of its expansions; excluded,
    * it does the reverse: without the exception for such constraints the two sides differ. */
  lemma WildcardConstraintDisagrees(domain: string, l: string)
    requires TrimDot(domain) != "" && IsLabel(l)
    ensures var star := "*." + domain;
            && Permitted([], true, [star], star) && !Permitted([], true, [star], l + "." + domain)
            && !Permitted([star], false, [], star) && Permitted([star], false, [], l + "." + domain)
  {
    hide Matches, IsLabel, TrimDot, IsStar;
    var star := "*." + domain;
    assert star in [star];
    StarIsStar(domain);
    StarMatches(star, domain);
    NotExpanded(domain, l);
  }

  lemma StarIsStar(domain: string)
    requires TrimDot(domain) != ""
    ensures IsStar("*." + domain, domain)
  {
    hide TrimDot, Lower;
    StarTrimmed(domain);
  }

  /** The wildcard as a constraint matches none of its expansions. */
  lemma NotExpanded(domain: string, l: string)
    requires TrimDot(domain) != "" && IsLabel(l)
    ensures var star := "*." + domain;
            !Matches(l + "." + domain, star, Full) && !Matches(l + "." + domain, star, Partial)
  {
    hide Matches, Above, Lower, TrimDot;
    StarTrimmed(domain);
    LowerLabel(l);
    SplitStar(Lower(l), Lower(TrimDot(domain)));
    ExpansionMatches(l, "*." + domain, domain);
  }

  lemma FullIsPartial(name: string, c: string)
    requires Matches(name, c, Full)
    ensures Matches(name, c, Partial)
  {
  }

  ghost predicate HasStar(cs: seq<string>, domain: string) {
    exists c | c in cs :: IsStar(c, domain)
  }

  /** Some excluded constraint other than the wildcard itself matches it partially. */
  ghost predicate Blocked(excluded: seq<string>, domain: string) {
    exists c | c in excluded :: !IsStar(c, domain) && Matches("*." + domain, c, Partial)
  }

  /** Some permitted constraint other than the wildcard itself matches it fully. */
  ghost predicate Covered(permitted: seq<string>, domain: string) {
    exists c | c in permitted :: !IsStar(c, domain) && Matches("*." + domain, c, Full)
  }

  lemma StarMatches(c: string, domain: string)
    requires TrimDot(domain) != "" && IsStar(c, domain)
    ensures Matches("*." + domain, c, Full) && Matches("*." + domain, c, Partial)
  {
    StarFull(c, domain);
    hide IsStar, TrimDot;
    FullIsPartial("*." + domain, c);
  }

  lemma WildcardPermitted(excluded: seq<string>, present: bool, permitted: seq<string>, domain: string)
    requires TrimDot(domain) != ""
    ensures Permitted(excluded, present, permitted, "*." + domain) <==>
              && !HasStar(excluded, domain) && !Blocked(excluded, domain)
              && (present ==> HasStar(permitted, domain) || Covered(permitted, domain))
  {
    hide Matches, IsStar, TrimDot;
    forall c | IsStar(c, domain) ensures Matches("*." + domain, c, Full) && Matches("*." + domain, c, Partial) {
      StarMatches(c, domain);
    }
  }

  lemma ExpansionsPermitted(excluded: seq<string>, present: bool, permitted: seq<string>, domain: string)
    requires TrimDot(domain) != ""
    ensures (forall l | IsLabel(l) :: Permitted(excluded, present, permitted, l + "." + domain)) <==>
              !Blocked(excluded, domain) && (present ==> Covered(permitted, domain))
  {
    hide IsLabel, IsStar, TrimDot, Matches;
    WildcardExact(excluded, present, permitted, domain);
  }

  /** When the wildcard is permitted exactly if all its expansions are.  An excluded `*.domain`
    * refuses the wildcard alone, so the expansions must be refused by other means; a permitted
    * one admits the wildcard alone, so it must not be what decides. */
  lemma WildcardAgreesIff(excluded: seq<string>, present: bool, permitted: seq<string>, domain: string)
    requires TrimDot(domain) != ""
    ensures (Permitted(excluded, present, permitted, "*." + domain)
             <==> forall l | IsLabel(l) :: Permitted(excluded, present, permitted, l + "." + domain))
       <==> (if HasStar(excluded, domain)
             then Blocked(excluded, domain) || (present && !Covered(permitted, domain))
             else Blocked(excluded, domain) || !present || Covered(permitted, domain) || !HasStar(permitted, domain))
  {
    hide Permitted, IsLabel, HasStar, Blocked, Covered, TrimDot;
    WildcardPermitted(excluded, present, permitted, domain);
    ExpansionsPermitted(excluded, present, permitted, domain);
  }
}
