/** The RFC 2253 printer for distinguished names of pki/parse_name.cc, with a reader for the
  * printed form (sections 2.3, 2.4 and 3 of RFC 2253) to show that printing loses nothing.
  */
module NamePrinter {
  import opened Basics
  const UTF8STRING: nat := 0xC
  const PRINTABLESTRING: nat := 0x13
  const T61STRING: nat := 0x14
  const IA5STRING: nat := 0x16
  const UNIVERSALSTRING: nat := 0x1C
  const BMPSTRING: nat := 0x1E

  /** X509NameAttribute */
  datatype Attribute = Attribute(attrType: Bytes, tag: nat, value: Bytes)

  type Rdn = seq<Attribute>

  predicate IsDotted(s: string) {
    forall i | 0 <= i < |s| :: '0' <= s[i] <= '9' || s[i] == '.'
  }

  ghost predicate PrintsDotted(f: Bytes -> string) {
    forall b: Bytes :: IsDotted(f(b))
  }

  /** OidToString: digits and dots, or nothing on error. */
  type OidText = f: Bytes -> string | PrintsDotted(f) witness b => ""

  /** The conversions that are not part of this model. */
  datatype Converters = Converters(oidText: OidText, universal: Bytes -> Option<Bytes>, bmp: Bytes -> Option<Bytes>)

  // ----- hexadecimal

  function HexDigit(n: nat): char
    requires n < 16
  {
    "0123456789ABCDEF"[n]
  }

  function HexOctet(b: byte): (s: string)
    ensures |s| == 2
  {
    [HexDigit(b / 16), HexDigit(b % 16)]
  }

  function HexEncode(b: Bytes): string {
    if b == [] then "" else HexOctet(b[0]) + HexEncode(b[1..])
  }

  function HexValue(c: char): (n: nat)
    ensures n < 16
  {
    if '0' <= c <= '9' then c as int - '0' as int
    else if 'A' <= c <= 'F' then c as int - 'A' as int + 10
    else 0
  }

  function HexDecode(s: string): Bytes {
    if |s| < 2 then [] else [16 * HexValue(s[0]) + HexValue(s[1])] + HexDecode(s[2..])
  }

  lemma HexDigitValue(n: nat)
    requires n < 16
    ensures HexValue(HexDigit(n)) == n
    ensures var c := HexDigit(n); '0' <= c <= '9' || 'A' <= c <= 'F'
  {
  }

  lemma HexOctetValue(b: byte)
    ensures 16 * HexValue(HexOctet(b)[0]) + HexValue(HexOctet(b)[1]) == b
  {
    HexDigitValue(b / 16);
    HexDigitValue(b % 16);
  }

  lemma {:induction false} HexRoundTrip(b: Bytes)
    ensures HexDecode(HexEncode(b)) == b
  {
    if b != [] {
      var s := HexEncode(b);
      HexOctetValue(b[0]);
      HexRoundTrip(b[1..]);
      assert s[..2] == HexOctet(b[0]) && s[2..] == HexEncode(b[1..]);
      assert s[0] == HexOctet(b[0])[0] && s[1] == HexOctet(b[0])[1];
    }
  }

  // ----- one attribute

  /** The types printed by name; all others print as a dotted number. */
  function KnownLabel(t: Bytes): Option<string> {
    if t == [0x55, 0x04, 0x03] then Some("CN")
    else if t == [0x55, 0x04, 0x04] then Some("SN")
    else if t == [0x55, 0x04, 0x06] then Some("C")
    else if t == [0x55, 0x04, 0x07] then Some("L")
    else if t == [0x55, 0x04, 0x08] then Some("ST")
    else if t == [0x55, 0x04, 0x0A] then Some("O")
    else if t == [0x55, 0x04, 0x0B] then Some("OU")
    else if t == [0x55, 0x04, 0x2A] then Some("givenName")
    else if t == [0x2A, 0x86, 0x48, 0x86, 0xF7, 0x0D, 0x01, 0x09, 0x01] then Some("emailAddress")
    else None
  }

  /** ValueAsStringUnsafe */
  function UnescapedValue(c: Converters, a: Attribute): Option<Bytes> {
    if a.tag in {IA5STRING, PRINTABLESTRING, T61STRING, UTF8STRING} then Some(a.value)
    else if a.tag == UNIVERSALSTRING then c.universal(a.value)
    else if a.tag == BMPSTRING then c.bmp(a.value)
    else None
  }

  const BACKSLASH: char := '\\'

  predicate AlwaysEscaped(b: byte) {
    b == ',' as int || b == '+' as int || b == '"' as int || b == '\\' as int || b == '<' as int || b == '>' as int || b == ';' as int
  }

  predicate Nonprintable(b: byte) {
    b < 32 || b > 126
  }

  /** How one octet is written, at the start, at the end, or elsewhere. */
  function EscapeOctet(b: byte, first: bool, last: bool): string {
    if first && b == '#' as int then "\\#"
    else if first && b == ' ' as int then "\\ "
    else if last && b == ' ' as int then "\\ "
    else if AlwaysEscaped(b) then [BACKSLASH, b as char]
    else if Nonprintable(b) then [BACKSLASH] + HexOctet(b)
    else [b as char]
  }

  function Escape(u: Bytes, first: bool): string {
    if u == [] then "" else EscapeOctet(u[0], first, |u| == 1) + Escape(u[1..], false)
  }

  /** What the printed value is meant to show: text, or the raw contents in hexadecimal. */
  datatype Shown = Text(bytes: Bytes) | Hex(bytes: Bytes)

  datatype ShownAttribute = ShownAttribute(key: string, shown: Shown)

  /** The label and contents of an attribute, when it can be printed. */
  function Shows(c: Converters, a: Attribute): Option<ShownAttribute> {
    match KnownLabel(a.attrType)
    case None =>
      if c.oidText(a.attrType) == "" then None else Some(ShownAttribute(c.oidText(a.attrType), Hex(a.value)))
    case Some(key) =>
      match UnescapedValue(c, a)
      case None => None
      case Some(u) =>
        if a.tag == T61STRING && HasNonprintable(u) then Some(ShownAttribute(key, Hex(a.value)))
        else Some(ShownAttribute(key, Text(u)))
  }

  function PrintShown(s: ShownAttribute): string {
    s.key + "=" + match s.shown case Text(u) => Escape(u, true) case Hex(b) => "#" + HexEncode(b)
  }

  predicate HasNonprintable(u: Bytes) {
    exists i :: 0 <= i < |u| && Nonprintable(u[i])
  }

  /** The escaping loop of AsRFC2253String. */
  method EscapeValue(u: Bytes) returns (valueString: string, nonprintable: bool)
    ensures valueString == Escape(u, true)
    ensures nonprintable <==> HasNonprintable(u)
  {
    hide EscapeOctet;
    valueString := "";
    nonprintable := false;
    for i := 0 to |u|
      invariant valueString + Escape(u[i..], i == 0) == Escape(u, true)
      invariant nonprintable <==> exists k :: 0 <= k < i && Nonprintable(u[k])
    {
      var b := u[i];
      assert u[i..][0] == b && u[i..][1..] == u[i + 1..];
      valueString := valueString + EscapeOctet(b, i == 0, i == |u| - 1);
      nonprintable := nonprintable || Nonprintable(b);
    }
    assert u[|u|..] == [];
    assert valueString + "" == valueString;
  }

  function PrintedAttribute(c: Converters, a: Attribute): Option<string> {
    match Shows(c, a)
    case None => None
    case Some(s) => Some(PrintShown(s))
  }

  /** X509NameAttribute::AsRFC2253String */
  method AsRFC2253String(c: Converters, a: Attribute) returns (out: Option<string>)
    ensures out == PrintedAttribute(c, a)
  {
    hide Escape, HexEncode, HasNonprintable;
    var known := KnownLabel(a.attrType);
    if known == None {
      var typeString := c.oidText(a.attrType);
      if typeString == "" {
        return None;
      }
      return Some(typeString + "=" + ("#" + HexEncode(a.value)));
    }
    var unescaped := UnescapedValue(c, a);
    if unescaped == None {
      return None;
    }
    var valueString, nonprintable := EscapeValue(unescaped.value);
    if nonprintable && a.tag == T61STRING {
      valueString := "#" + HexEncode(a.value);
    }
    return Some(known.value + "=" + valueString);
  }

  // ----- a whole name

  /** What a name shows, most significant RDN last, when all of it can be printed. */
  function ShowsRdn(c: Converters, rdn: Rdn): Option<seq<ShownAttribute>> {
    if rdn == [] then Some([])
    else
      match (Shows(c, rdn[0]), ShowsRdn(c, rdn[1..]))
      case (Some(s), Some(rest)) => Some([s] + rest)
      case _ => None
  }

  function ShowsName(c: Converters, rdns: seq<Rdn>): Option<seq<seq<ShownAttribute>>>
    decreases |rdns|
  {
    if rdns == [] then Some([])
    else
      var n := |rdns| - 1;
      match (ShowsRdn(c, rdns[n]), ShowsName(c, rdns[..n]))
      case (Some(s), Some(rest)) => Some([s] + rest)
      case _ => None
  }

  function PrintParts(ss: seq<ShownAttribute>): (parts: seq<string>)
    ensures |parts| == |ss| && forall i | 0 <= i < |ss| :: parts[i] == PrintShown(ss[i])
  {
    if ss == [] then [] else [PrintShown(ss[0])] + PrintParts(ss[1..])
  }

  function PrintRdns(names: seq<seq<ShownAttribute>>): (parts: seq<string>)
    ensures |parts| == |names| && forall i | 0 <= i < |names| :: parts[i] == Join(PrintParts(names[i]), '+')
  {
    if names == [] then [] else [Join(PrintParts(names[0]), '+')] + PrintRdns(names[1..])
  }

  /** The printer writes a separator only after some text. */
  function DropLeadingEmpty(parts: seq<string>): seq<string> {
    if parts != [] && parts[0] == "" then DropLeadingEmpty(parts[1..]) else parts
  }

  function PrintName(names: seq<seq<ShownAttribute>>): string {
    Join(DropLeadingEmpty(PrintRdns(names)), ',')
  }

  function PrintedName(c: Converters, rdns: seq<Rdn>): Option<string> {
    match ShowsName(c, rdns)
    case None => None
    case Some(names) => Some(PrintName(names))
  }

  function Appended(acc: string, sep: char, part: string): string {
    if acc == "" then part else acc + [sep] + part
  }

  lemma {:induction false} JoinSnoc(parts: seq<string>, sep: char, p: string)
    ensures Join(parts + [p], sep) == if parts == [] then p else Join(parts, sep) + [sep] + p
  {
    if |parts| == 1 {
      assert (parts + [p])[1..] == [p];
    } else if |parts| > 1 {
      JoinSnoc(parts[1..], sep, p);
      assert (parts + [p])[1..] == parts[1..] + [p];
      assert parts[0] + [sep] + (Join(parts[1..], sep) + [sep] + p) == parts[0] + [sep] + Join(parts[1..], sep) + [sep] + p;
    }
  }

  lemma {:induction false} DropSnoc(parts: seq<string>, p: string)
    ensures var d := DropLeadingEmpty(parts);
            && (d != [] ==> d[0] != "")
            && DropLeadingEmpty(parts + [p]) == if d == [] && p == "" then [] else d + [p]
  {
    if parts == [] {
      assert parts + [p] == [p] && [p][1..] == [];
    } else if parts[0] == "" {
      DropSnoc(parts[1..], p);
      assert (parts + [p])[1..] == parts[1..] + [p];
    }
  }

  /** Appending one more part keeps the string joined. */
  lemma AppendJoined(parts: seq<string>, sep: char, p: string)
    ensures Join(DropLeadingEmpty(parts + [p]), sep) == Appended(Join(DropLeadingEmpty(parts), sep), sep, p)
  {
    DropSnoc(parts, p);
    var d := DropLeadingEmpty(parts);
    if d != [] || p != "" {
      JoinSnoc(d, sep, p);
    }
  }

  lemma {:induction false} ShowsRdnSnoc(c: Converters, rdn: Rdn, a: Attribute)
    ensures ShowsRdn(c, rdn + [a]) ==
            match (ShowsRdn(c, rdn), Shows(c, a))
            case (Some(ss), Some(s)) => Some(ss + [s])
            case _ => None
  {
    hide Shows;
    if rdn == [] {
      assert rdn + [a] == [a] && [a][1..] == [];
      if Shows(c, a).Some? { assert [Shows(c, a).value] + [] == [] + [Shows(c, a).value]; }
    } else {
      ShowsRdnSnoc(c, rdn[1..], a);
      assert (rdn + [a])[1..] == rdn[1..] + [a];
      if ShowsRdn(c, rdn).Some? && Shows(c, a).Some? {
        var s, rest, last := Shows(c, rdn[0]).value, ShowsRdn(c, rdn[1..]).value, Shows(c, a).value;
        assert [s] + (rest + [last]) == [s] + rest + [last];
      }
    }
  }

  lemma {:induction false} ShowsRdnFails(c: Converters, rdn: Rdn, j: nat)
    requires j < |rdn| && Shows(c, rdn[j]) == None
    ensures ShowsRdn(c, rdn) == None
  {
    hide Shows;
    if j > 0 {
      ShowsRdnFails(c, rdn[1..], j - 1);
    }
  }

  lemma {:induction false} ShowsNameCons(c: Converters, r: Rdn, rdns: seq<Rdn>)
    ensures ShowsName(c, [r] + rdns) ==
            match (ShowsName(c, rdns), ShowsRdn(c, r))
            case (Some(names), Some(s)) => Some(names + [s])
            case _ => None
    decreases |rdns|
  {
    hide ShowsRdn;
    if rdns == [] {
      assert [r] + rdns == [r] && [r][..0] == [];
      if ShowsRdn(c, r).Some? { assert [ShowsRdn(c, r).value] + [] == [] + [ShowsRdn(c, r).value]; }
    } else {
      var n := |rdns| - 1;
      ShowsNameCons(c, r, rdns[..n]);
      assert ([r] + rdns)[..n + 1] == [r] + rdns[..n];
      if ShowsName(c, rdns).Some? && ShowsRdn(c, r).Some? {
        var s, rest, last := ShowsRdn(c, rdns[n]).value, ShowsName(c, rdns[..n]).value, ShowsRdn(c, r).value;
        assert [s] + (rest + [last]) == [s] + rest + [last];
      }
    }
  }

  lemma {:induction false} ShowsNameFails(c: Converters, rdns: seq<Rdn>, k: nat)
    requires k < |rdns| && ShowsRdn(c, rdns[k]) == None
    ensures ShowsName(c, rdns) == None
    decreases |rdns|
  {
    hide ShowsRdn;
    if k < |rdns| - 1 {
      ShowsNameFails(c, rdns[..|rdns| - 1], k);
    }
  }

  lemma PrintPartsSnoc(ss: seq<ShownAttribute>, s: ShownAttribute)
    ensures PrintParts(ss + [s]) == PrintParts(ss) + [PrintShown(s)]
    ensures PrintShown(s) != ""
    ensures DropLeadingEmpty(PrintParts(ss)) == PrintParts(ss)
  {
    hide Escape, HexEncode;
    if ss != [] { assert PrintParts(ss)[0] == PrintShown(ss[0]) != ""; }
  }

  /** The inner loop of ConvertToRFC2253. */
  method ConvertRdn(c: Converters, rdn: Rdn) returns (out: Option<string>, ghost ss: seq<ShownAttribute>)
    ensures out.Some? <==> ShowsRdn(c, rdn).Some?
    ensures out.Some? ==> ShowsRdn(c, rdn) == Some(ss) && out.value == Join(PrintParts(ss), '+')
  {
    hide Shows, Join, PrintParts, PrintShown, DropLeadingEmpty;
    var rdnString := "";
    ss := [];
    assert PrintParts([]) == [];
    assert Join([], '+') == "" by { NothingJoined('+'); }
    for j := 0 to |rdn|
      invariant ShowsRdn(c, rdn[..j]) == Some(ss)
      invariant rdnString == Join(PrintParts(ss), '+')
    {
      ShowsRdnSnoc(c, rdn[..j], rdn[j]);
      assert rdn[..j + 1] == rdn[..j] + [rdn[j]];
      var separated := if rdnString != "" then rdnString + "+" else rdnString;
      var atv := AsRFC2253String(c, rdn[j]);
      if atv == None {
        ShowsRdnFails(c, rdn, j);
        return None, [];
      }
      ghost var s := Shows(c, rdn[j]).value;
      PrintPartsSnoc(ss, s);
      PrintPartsSnoc(ss + [s], s);
      AppendJoined(PrintParts(ss), '+', PrintShown(s));
      assert separated + atv.value == Appended(rdnString, '+', atv.value);
      rdnString, ss := separated + atv.value, ss + [s];
    }
    assert rdn[..|rdn|] == rdn;
    return Some(rdnString), ss;
  }

  lemma NothingJoined(sep: char)
    ensures Join([], sep) == "" && DropLeadingEmpty([]) == []
  {
  }

  /** ConvertToRFC2253, RDNs last first. */
  method ConvertToRFC2253(c: Converters, rdnSequence: seq<Rdn>) returns (out: Option<string>)
    ensures out == PrintedName(c, rdnSequence)
  {
    hide ShowsRdn, ShowsName, Join, PrintParts, DropLeadingEmpty;
    var rdnsString := "";
    var size := |rdnSequence|;
    ghost var names: seq<seq<ShownAttribute>> := [];
    NothingJoined(',');
    assert ShowsName(c, []) == Some([]) by { NothingShown(c); }
    assert rdnSequence[size..] == [] && PrintRdns([]) == [];
    for i := 0 to size
      invariant ShowsName(c, rdnSequence[size - i..]) == Some(names)
      invariant rdnsString == PrintName(names)
    {
      var rdn := rdnSequence[size - i - 1];
      ShowsNameCons(c, rdn, rdnSequence[size - i..]);
      assert rdnSequence[size - i - 1..] == [rdn] + rdnSequence[size - i..];
      var rdnString, s := ConvertRdn(c, rdn);
      if rdnString == None {
        ShowsNameFails(c, rdnSequence, size - i - 1);
        return None;
      }
      AppendJoined(PrintRdns(names), ',', rdnString.value);
      assert PrintRdns(names + [s]) == PrintRdns(names) + [rdnString.value];
      if rdnsString != "" {
        rdnsString := rdnsString + ",";
      }
      rdnsString := rdnsString + rdnString.value;
      names := names + [s];
    }
    assert rdnSequence[0..] == rdnSequence;
    return Some(rdnsString);
  }

  lemma NothingShown(c: Converters)
    ensures ShowsName(c, []) == Some([])
  {
  }

  // ----- reading a printed name back

  /** Splits at the separators that no backslash precedes. */
  function Pieces(s: string, sep: char): (ps: seq<string>)
    ensures ps != []
    decreases |s|
  {
    if s == "" then [""]
    else if s[0] == sep then [""] + Pieces(s[1..], sep)
    else if s[0] == BACKSLASH && |s| >= 2 then Prefix(s[..2], Pieces(s[2..], sep))
    else Prefix(s[..1], Pieces(s[1..], sep))
  }

  function Prefix(x: string, ps: seq<string>): (r: seq<string>)
    requires ps != []
    ensures r != []
  {
    [x + ps[0]] + ps[1..]
  }

  predicate IsSpecial(c: char) {
    c == '#' || c == ' ' || c == ',' || c == '+' || c == '"' || c == '\\' || c == '<' || c == '>' || c == ';'
  }

  function Unescape(s: string): Bytes
    decreases |s|
  {
    if s == "" then []
    else if s[0] == BACKSLASH && |s| >= 2 && IsSpecial(s[1]) then [s[1] as int % 256] + Unescape(s[2..])
    else if s[0] == BACKSLASH && |s| >= 3 then [16 * HexValue(s[1]) + HexValue(s[2])] + Unescape(s[3..])
    else [s[0] as int % 256] + Unescape(s[1..])
  }

  function ReadShown(s: string): Shown {
    if s != "" && s[0] == '#' then Hex(HexDecode(s[1..])) else Text(Unescape(s))
  }

  function FirstEquals(s: string): (i: nat)
    ensures i <= |s|
  {
    if s == "" || s[0] == '=' then 0 else 1 + FirstEquals(s[1..])
  }

  function ReadAttribute(s: string): ShownAttribute {
    var i := FirstEquals(s);
    ShownAttribute(s[..i], ReadShown(if i < |s| then s[i + 1..] else ""))
  }

  function ReadRdnParts(parts: seq<string>): seq<ShownAttribute> {
    if parts == [] then [] else [ReadAttribute(parts[0])] + ReadRdnParts(parts[1..])
  }

  function ReadNameParts(parts: seq<string>): seq<seq<ShownAttribute>> {
    if parts == [] then []
    else [if parts[0] == "" then [] else ReadRdnParts(Pieces(parts[0], '+'))] + ReadNameParts(parts[1..])
  }

  function ReadName(s: string): seq<seq<ShownAttribute>> {
    if s == "" then [] else ReadNameParts(Pieces(s, ','))
  }

  // ----- printing loses nothing

  /** No unescaped separator, and no escape cut short. */
  predicate Clean(s: string, sep: char)
    decreases |s|
  {
    if s == "" then true
    else if s[0] == BACKSLASH then |s| >= 2 && Clean(s[2..], sep)
    else s[0] != sep && Clean(s[1..], sep)
  }

  lemma {:induction false} CleanConcat(a: string, b: string, sep: char)
    requires Clean(a, sep) && Clean(b, sep)
    ensures Clean(a + b, sep)
    decreases |a|
  {
    if a == "" {
      assert a + b == b;
    } else if a[0] == BACKSLASH {
      CleanConcat(a[2..], b, sep);
      assert (a + b)[2..] == a[2..] + b;
    } else {
      CleanConcat(a[1..], b, sep);
      assert (a + b)[1..] == a[1..] + b;
    }
  }

  lemma {:induction false} PiecesPrefix(a: string, t: string, sep: char)
    requires Clean(a, sep) && sep != BACKSLASH
    ensures Pieces(a + t, sep) == Prefix(a, Pieces(t, sep))
    decreases |a|
  {
    if a == "" {
      var ps := Pieces(t, sep);
      assert a + t == t;
      assert a + ps[0] == ps[0] && [ps[0]] + ps[1..] == ps;
    } else {
      var n := if a[0] == BACKSLASH then 2 else 1;
      PiecesPrefix(a[n..], t, sep);
      assert (a + t)[n..] == a[n..] + t && (a + t)[..n] == a[..n];
      assert a[..n] + (a[n..] + Pieces(t, sep)[0]) == a + Pieces(t, sep)[0];
    }
  }

  lemma {:induction false} JoinPieces(parts: seq<string>, sep: char)
    requires parts != [] && sep != BACKSLASH && forall p | p in parts :: Clean(p, sep)
    ensures Pieces(Join(parts, sep), sep) == parts
  {
    var a := parts[0];
    if |parts| == 1 {
      PiecesPrefix(a, "", sep);
      assert a + "" == a;
    } else {
      JoinPieces(parts[1..], sep);
      var t := [sep] + Join(parts[1..], sep);
      PiecesPrefix(a, t, sep);
      assert t[1..] == Join(parts[1..], sep);
      assert a + [sep] + Join(parts[1..], sep) == a + t;
      assert a + "" == a;
    }
  }

  lemma {:induction false} JoinClean(parts: seq<string>, sep: char, other: char)
    requires sep != BACKSLASH && sep != other && forall p | p in parts :: Clean(p, other)
    ensures Clean(Join(parts, sep), other)
  {
    if |parts| > 1 {
      JoinClean(parts[1..], sep, other);
      assert [sep][1..] == "";
      assert Clean([sep], other);
      CleanConcat(parts[0], [sep], other);
      CleanConcat(parts[0] + [sep], Join(parts[1..], sep), other);
    }
  }

  predicate IsSeparator(c: char) {
    c == ',' || c == '+'
  }

  /** Text without separators or backslashes is clean. */
  lemma {:induction false} PlainClean(s: string, sep: char)
    requires IsSeparator(sep) && forall i | 0 <= i < |s| :: !IsSeparator(s[i]) && s[i] != BACKSLASH
    ensures Clean(s, sep)
  {
    if s != "" { PlainClean(s[1..], sep); }
  }

  lemma EscapeOctetClean(b: byte, first: bool, last: bool, sep: char)
    requires IsSeparator(sep)
    ensures Clean(EscapeOctet(b, first, last), sep)
  {
    var e := EscapeOctet(b, first, last);
    if e[0] == BACKSLASH {
      if Nonprintable(b) {
        HexDigitValue(b / 16);
        HexDigitValue(b % 16);
        assert e[2..] == [HexDigit(b % 16)] && e[2..][1..] == "";
      } else {
        assert e[2..] == "";
      }
    } else {
      assert e[1..] == "";
    }
  }

  lemma {:induction false} EscapeClean(u: Bytes, first: bool, sep: char)
    requires IsSeparator(sep)
    ensures Clean(Escape(u, first), sep)
  {
    if u != [] {
      EscapeOctetClean(u[0], first, |u| == 1, sep);
      EscapeClean(u[1..], false, sep);
      CleanConcat(EscapeOctet(u[0], first, |u| == 1), Escape(u[1..], false), sep);
    }
  }

  lemma {:induction false} HexPlain(b: Bytes)
    ensures forall i | 0 <= i < |HexEncode(b)| :: !IsSeparator(HexEncode(b)[i]) && HexEncode(b)[i] != BACKSLASH
  {
    if b != [] {
      HexPlain(b[1..]);
      HexDigitValue(b[0] / 16);
      HexDigitValue(b[0] % 16);
    }
  }

  lemma UnescapeHex(b: byte, t: string)
    requires Nonprintable(b)
    ensures Unescape([BACKSLASH] + HexOctet(b) + t) == [b] + Unescape(t)
  {
    hide HexDigit, HexValue;
    HexOctetValue(b);
    HexDigitValue(b / 16);
    var s := [BACKSLASH] + HexOctet(b) + t;
    assert s[1] == HexOctet(b)[0] && s[2] == HexOctet(b)[1] && s[3..] == t;
  }

  /** One written octet reads back, whatever follows. */
  lemma UnescapeOctet(b: byte, first: bool, last: bool, t: string)
    ensures Unescape(EscapeOctet(b, first, last) + t) == [b] + Unescape(t)
  {
    hide HexOctet;
    var e := EscapeOctet(b, first, last);
    if Nonprintable(b) {
      UnescapeHex(b, t);
    } else if e[0] == BACKSLASH {
      assert (e + t)[1] == b as char && (e + t)[2..] == t;
    } else {
      assert (e + t)[1..] == t;
    }
  }

  lemma {:induction false} UnescapeEscape(u: Bytes, first: bool)
    ensures Unescape(Escape(u, first)) == u
  {
    if u != [] {
      UnescapeEscape(u[1..], false);
      UnescapeOctet(u[0], first, |u| == 1, Escape(u[1..], false));
    }
  }

  function PrintedValue(s: Shown): string {
    match s
    case Text(u) => Escape(u, true)
    case Hex(b) => "#" + HexEncode(b)
  }

  /** A printed value reads back, and begins with an unescaped '#' exactly when it is hexadecimal. */
  lemma ValueRoundTrip(s: Shown)
    ensures ReadShown(PrintedValue(s)) == s
    ensures PrintedValue(s) != "" && PrintedValue(s)[0] == '#' <==> s.Hex?
  {
    match s
    case Text(u) =>
      UnescapeEscape(u, true);
      if u != [] {
        assert Escape(u, true)[0] == EscapeOctet(u[0], true, |u| == 1)[0];
        FirstNotHash(u[0], |u| == 1);
      }
    case Hex(b) =>
      HexRoundTrip(b);
      assert ("#" + HexEncode(b))[1..] == HexEncode(b);
  }

  lemma FirstNotHash(b: byte, last: bool)
    ensures EscapeOctet(b, true, last)[0] != '#'
  {
  }

  /** A key of a printed attribute: letters, digits and dots. */
  predicate IsKey(s: string) {
    s != "" && forall i | 0 <= i < |s| ::
      !IsSeparator(s[i]) && s[i] != BACKSLASH && s[i] != '='
  }

  lemma LabelsAreKeys()
    ensures IsKey("CN") && IsKey("SN") && IsKey("C") && IsKey("L") && IsKey("ST") && IsKey("O") && IsKey("OU")
    ensures IsKey("givenName") && IsKey("emailAddress")
  {
  }

  lemma ShowsKey(c: Converters, a: Attribute)
    requires Shows(c, a).Some?
    ensures IsKey(Shows(c, a).value.key)
  {
    if KnownLabel(a.attrType) == None {
      assert IsDotted(c.oidText(a.attrType));
    } else {
      hide IsKey, UnescapedValue, HasNonprintable;
      LabelsAreKeys();
    }
  }

  /** The OID text names at most one OID. */
  ghost predicate Names(oidText: OidText) {
    forall a: Bytes, b: Bytes :: oidText(a) == oidText(b) && oidText(a) != "" ==> a == b
  }

  lemma LabelNotDotted(t: Bytes)
    requires KnownLabel(t).Some?
    ensures !IsDotted(KnownLabel(t).value)
  {
    var k := KnownLabel(t).value;
    assert !('0' <= k[0] <= '9' || k[0] == '.');
  }

  /** The printed key determines the attribute type. */
  lemma KeyNamesType(c: Converters, a: Attribute, b: Attribute)
    requires Names(c.oidText) && Shows(c, a).Some? && Shows(c, b).Some?
    requires Shows(c, a).value.key == Shows(c, b).value.key
    ensures a.attrType == b.attrType
  {
    hide UnescapedValue, HasNonprintable;
    if KnownLabel(a.attrType).Some? { LabelNotDotted(a.attrType); }
    if KnownLabel(b.attrType).Some? { LabelNotDotted(b.attrType); }
    assert IsDotted(c.oidText(a.attrType)) && IsDotted(c.oidText(b.attrType));
    hide IsDotted, Names;
    if KnownLabel(a.attrType) == None && KnownLabel(b.attrType) == None {
      SameText(c.oidText, a.attrType, b.attrType);
    } else {
      LabelNamesType(a.attrType, b.attrType);
    }
  }

  lemma SameText(f: OidText, a: Bytes, b: Bytes)
    requires Names(f) && f(a) == f(b) && f(a) != ""
    ensures a == b
  {
  }

  lemma LabelNamesType(t: Bytes, u: Bytes)
    requires KnownLabel(t).Some? && KnownLabel(t) == KnownLabel(u)
    ensures t == u
  {
  }

  lemma {:induction false} FirstEqualsOf(k: string, v: string)
    requires forall i | 0 <= i < |k| :: k[i] != '='
    ensures FirstEquals(k + "=" + v) == |k|
  {
    var s := k + "=" + v;
    if k != "" {
      FirstEqualsOf(k[1..], v);
      assert s[1..] == k[1..] + "=" + v;
      assert s[0] == k[0];
    }
  }

  lemma AttributeRoundTrip(s: ShownAttribute)
    requires IsKey(s.key)
    ensures ReadAttribute(PrintShown(s)) == s
    ensures PrintShown(s) != "" && Clean(PrintShown(s), ',') && Clean(PrintShown(s), '+')
  {
    var v := PrintedValue(s.shown);
    assert PrintShown(s) == s.key + "=" + v;
    FirstEqualsOf(s.key, v);
    assert (s.key + "=" + v)[..|s.key|] == s.key && (s.key + "=" + v)[|s.key| + 1..] == v;
    ValueRoundTrip(s.shown);
    AttributeClean(s, ',');
    AttributeClean(s, '+');
  }

  lemma AttributeClean(s: ShownAttribute, sep: char)
    requires IsKey(s.key) && IsSeparator(sep)
    ensures Clean(PrintShown(s), sep)
  {
    PlainClean(s.key + "=", sep);
    if s.shown.Text? {
      EscapeClean(s.shown.bytes, true, sep);
    } else {
      HexPlain(s.shown.bytes);
      PlainClean("#" + HexEncode(s.shown.bytes), sep);
    }
    CleanConcat(s.key + "=", PrintedValue(s.shown), sep);
  }

  ghost predicate KeysPlain(ss: seq<ShownAttribute>) {
    forall i | 0 <= i < |ss| :: IsKey(ss[i].key)
  }

  ghost predicate Keyed(ss: seq<ShownAttribute>) {
    ss != [] && KeysPlain(ss)
  }

  lemma {:induction false} ReadPrintParts(ss: seq<ShownAttribute>)
    requires forall i | 0 <= i < |ss| :: IsKey(ss[i].key)
    ensures ReadRdnParts(PrintParts(ss)) == ss
    ensures forall p | p in PrintParts(ss) :: p != "" && Clean(p, ',') && Clean(p, '+')
  {
    if ss != [] {
      AttributeRoundTrip(ss[0]);
      ReadPrintParts(ss[1..]);
      assert PrintParts(ss)[1..] == PrintParts(ss[1..]);
      hide PrintShown, ReadAttribute, Clean;
    }
  }

  lemma RdnRoundTrip(ss: seq<ShownAttribute>)
    requires Keyed(ss)
    ensures var p := Join(PrintParts(ss), '+');
            ReadRdnParts(Pieces(p, '+')) == ss && p != "" && Clean(p, ',')
  {
    ReadPrintParts(ss);
    JoinPieces(PrintParts(ss), '+');
    JoinClean(PrintParts(ss), '+', ',');
    assert PrintParts(ss)[0] in PrintParts(ss);
  }

  lemma {:induction false} ReadPrintRdns(names: seq<seq<ShownAttribute>>)
    requires forall i | 0 <= i < |names| :: KeysPlain(names[i])
    ensures ReadNameParts(PrintRdns(names)) == names
    ensures forall i | 0 <= i < |names| :: (PrintRdns(names)[i] == "" <==> names[i] == []) && Clean(PrintRdns(names)[i], ',')
  {
    if names != [] {
      hide PrintParts, Join, Clean, ReadRdnParts, Pieces, KeysPlain;
      ReadOneRdn(names[0]);
      ReadPrintRdns(names[1..]);
      assert PrintRdns(names) == [Join(PrintParts(names[0]), '+')] + PrintRdns(names[1..]);
      assert PrintRdns(names)[1..] == PrintRdns(names[1..]);
    }
  }

  lemma ReadOneRdn(ss: seq<ShownAttribute>)
    requires KeysPlain(ss)
    ensures var p := Join(PrintParts(ss), '+');
            && (p == "" <==> ss == []) && Clean(p, ',')
            && (ss != [] ==> ReadRdnParts(Pieces(p, '+')) == ss)
  {
    if ss == [] {
      assert PrintParts([]) == [] && Join([], '+') == "";
    } else {
      RdnRoundTrip(ss);
    }
  }

  /** What is left of a name in print: RDNs without attributes at the front print as nothing. */
  function Kept(names: seq<seq<ShownAttribute>>): seq<seq<ShownAttribute>> {
    if names != [] && names[0] == [] then Kept(names[1..]) else names
  }

  lemma {:induction false} KeptIs(names: seq<seq<ShownAttribute>>)
    requires forall i | 0 <= i < |names| :: KeysPlain(names[i])
    ensures var k := Kept(names);
            && (forall i | 0 <= i < |k| :: KeysPlain(k[i])) && (k != [] ==> k[0] != [])
            && (k == names <==> names == [] || names[0] != [])
    ensures PrintName(Kept(names)) == PrintName(names)
  {
    hide PrintShown, Clean, Join;
    if names != [] && names[0] == [] {
      KeptIs(names[1..]);
      KeptShorter(names);
      EmptyRdnVanishes(names[1..]);
      assert names == [[]] + names[1..];
    }
  }

  lemma {:induction false} KeptShorter(names: seq<seq<ShownAttribute>>)
    ensures |Kept(names)| <= |names| && (names != [] && names[0] == [] ==> |Kept(names)| < |names|)
  {
    if names != [] && names[0] == [] { KeptShorter(names[1..]); }
  }

  /** A name with an empty RDN in front prints like the name without it. */
  lemma EmptyRdnVanishes(names: seq<seq<ShownAttribute>>)
    ensures PrintName([[]] + names) == PrintName(names)
  {
    var more := [[]] + names;
    assert PrintParts([]) == [] && Join([], '+') == "";
    assert more[1..] == names;
    assert PrintRdns(more) == [""] + PrintRdns(names);
    assert PrintRdns(more)[1..] == PrintRdns(names);
  }

  /** Reading a printed name gives back its RDNs in printed order, empty ones in front aside;
    * so it gives back the name exactly when it does not begin with an empty RDN. */
  lemma NameRoundTrip(names: seq<seq<ShownAttribute>>)
    requires forall i | 0 <= i < |names| :: KeysPlain(names[i])
    ensures ReadName(PrintName(names)) == Kept(names)
    ensures ReadName(PrintName(names)) == names <==> names == [] || names[0] != []
  {
    KeptIs(names);
    hide KeysPlain;
    ReadKept(Kept(names));
  }

  lemma ReadKept(names: seq<seq<ShownAttribute>>)
    requires forall i | 0 <= i < |names| :: KeysPlain(names[i])
    requires names != [] ==> names[0] != []
    ensures ReadName(PrintName(names)) == names
  {
    ReadPrintRdns(names);
    if names != [] {
      var parts := PrintRdns(names);
      hide PrintRdns, KeysPlain, Clean;
      JoinPieces(parts, ',');
      assert DropLeadingEmpty(parts) == parts;
      assert PrintName(names) != "";
    }
  }

  /** Two names print alike exactly when they differ in nothing but empty RDNs in front. */
  lemma PrintedAlikeIff(a: seq<seq<ShownAttribute>>, b: seq<seq<ShownAttribute>>)
    requires (forall i | 0 <= i < |a| :: KeysPlain(a[i])) && (forall i | 0 <= i < |b| :: KeysPlain(b[i]))
    ensures PrintName(a) == PrintName(b) <==> Kept(a) == Kept(b)
  {
    KeptIs(a);
    KeptIs(b);
    NameRoundTrip(a);
    NameRoundTrip(b);
    hide PrintName, ReadName, Kept;
  }

  lemma {:induction false} ShowsRdnKeyed(c: Converters, rdn: Rdn)
    requires ShowsRdn(c, rdn).Some?
    ensures |ShowsRdn(c, rdn).value| == |rdn|
    ensures forall i | 0 <= i < |rdn| :: Shows(c, rdn[i]) == Some(ShowsRdn(c, rdn).value[i]) && IsKey(ShowsRdn(c, rdn).value[i].key)
  {
    if rdn != [] {
      ShowsKey(c, rdn[0]);
      ShowsRdnKeyed(c, rdn[1..]);
      hide IsKey, Shows;
    }
  }

  lemma {:induction false} ShowsNameReversed(c: Converters, rdns: seq<Rdn>)
    requires ShowsName(c, rdns).Some?
    ensures var names := ShowsName(c, rdns).value;
            && |names| == |rdns|
            && forall i | 0 <= i < |names| :: ShowsRdn(c, rdns[|rdns| - 1 - i]) == Some(names[i])
    decreases |rdns|
  {
    if rdns != [] {
      ShowsNameReversed(c, rdns[..|rdns| - 1]);
      hide ShowsRdn;
    }
  }

  /** `ss` is what each attribute of the RDN shows. */
  ghost predicate ShowsEach(c: Converters, rdn: Rdn, ss: seq<ShownAttribute>) {
    |ss| == |rdn| && forall j | 0 <= j < |rdn| :: Shows(c, rdn[j]) == Some(ss[j])
  }

  /** The printer is unambiguous: from the printed form of a name that does not end with an empty
    * RDN one recovers, in reverse RDN order, every attribute's key and either its exact text or
    * its raw contents. */
  lemma PrintingLosesNothing(c: Converters, rdns: seq<Rdn>)
    requires PrintedName(c, rdns).Some? && (rdns != [] ==> rdns[|rdns| - 1] != [])
    ensures var read := ReadName(PrintedName(c, rdns).value);
            && |read| == |rdns|
            && forall i | 0 <= i < |read| :: ShowsEach(c, rdns[|rdns| - 1 - i], read[i])
  {
    NamesKeyed(c, rdns);
    if rdns != [] { assert ShowsEach(c, rdns[|rdns| - 1], ShowsName(c, rdns).value[0]); }
    hide ReadName, PrintName, ShowsEach, ShowsName, IsKey;
    NameRoundTrip(ShowsName(c, rdns).value);
  }

  lemma NamesKeyed(c: Converters, rdns: seq<Rdn>)
    requires ShowsName(c, rdns).Some?
    ensures var names := ShowsName(c, rdns).value;
            && |names| == |rdns|
            && forall i | 0 <= i < |names| :: KeysPlain(names[i]) && ShowsEach(c, rdns[|rdns| - 1 - i], names[i])
  {
    hide ReadName, PrintName, Shows, ShowsRdn, ShowsName, IsKey;
    var names := ShowsName(c, rdns).value;
    ShowsNameReversed(c, rdns);
    forall i | 0 <= i < |names|
      ensures KeysPlain(names[i]) && ShowsEach(c, rdns[|rdns| - 1 - i], names[i])
    {
      assert ShowsRdn(c, rdns[|rdns| - 1 - i]) == Some(names[i]);
      ShowsRdnKeyed(c, rdns[|rdns| - 1 - i]);
    }
  }
}
