/** X.509 extensions as collected by ParseExtensions and ConsumeExtension, pki/parse_certificate.cc. */
module Extensions {
  import opened Basics
  import opened DerCursor

  datatype Extension = Extension(oid: Bytes, value: Bytes, critical: bool)

  type ExtensionMap = map<Bytes, Extension>

  /** What the loop has collected after the given elements, unless one fails to parse or repeats an OID. */
  function Collected(parse: Bytes -> Option<Extension>, es: seq<Bytes>): Option<ExtensionMap>
    decreases |es|
  {
    if es == [] then Some(map[])
    else
      match (Collected(parse, es[..|es| - 1]), parse(es[|es| - 1]))
      case (Some(m), Some(x)) => if x.oid in m then None else Some(m[x.oid := x])
      case _ => None
  }

  function ParsedExtensions(read: Reader, parse: Bytes -> Option<Extension>, tlv: Bytes): Option<ExtensionMap> {
    match Tagged(read, SEQUENCE, tlv)
    case None => None
    case Some(e) =>
      if e.value == [] || e.rest != [] then None
      else
        match Elements(read, e.value)
        case None => None
        case Some(es) => Collected(parse, es)
  }

  lemma {:induction false} CollectedFails(parse: Bytes -> Option<Extension>, es: seq<Bytes>, k: nat)
    requires k <= |es| && Collected(parse, es[..k]) == None
    ensures Collected(parse, es) == None
    decreases |es|
  {
    if k < |es| {
      assert es[..|es| - 1][..k] == es[..k];
      CollectedFails(parse, es[..|es| - 1], k);
    } else {
      assert es[..k] == es;
    }
  }

  /** The elements read so far come first in what the whole body holds. */
  lemma CollectedSoFar(parse: Bytes -> Option<Extension>, out: seq<Bytes>, rest: Option<seq<Bytes>>)
    requires Collected(parse, out) == None && After(out, rest).Some?
    ensures Collected(parse, After(out, rest).value) == None
  {
    assert (out + rest.value)[..|out|] == out;
    CollectedFails(parse, out + rest.value, |out|);
  }

  lemma CollectedSnoc(parse: Bytes -> Option<Extension>, es: seq<Bytes>, e: Bytes)
    ensures Collected(parse, es + [e]) ==
            match (Collected(parse, es), parse(e))
            case (Some(m), Some(x)) => if x.oid in m then None else Some(m[x.oid := x])
            case _ => None
  {
    assert (es + [e])[..|es|] == es;
  }

  method ParseExtensions(read: Reader, parse: Bytes -> Option<Extension>, tlv: Bytes)
    returns (extensions: Option<ExtensionMap>)
    ensures extensions == ParsedExtensions(read, parse, tlv)
  {
    hide Elements, Collected, After;
    var parser := new Parser(read, tlv);
    var inner := parser.ReadSequence();
    if inner == null || !inner.HasMore() {
      return None;
    }
    ghost var body := inner.cbs;
    ghost var out: seq<Bytes> := [];
    var m: ExtensionMap := map[];
    AfterEnds(out, Elements(read, body));
    NothingCollected(parse);
    while inner.HasMore()
      invariant inner.read == read && inner != parser && parser.cbs == Tagged(read, SEQUENCE, tlv).value.rest
      invariant Elements(read, body) == After(out, Elements(read, inner.cbs))
      invariant Collected(parse, out) == Some(m)
      decreases |inner.cbs|
    {
      ghost var before := inner.cbs;
      ReadStep(read, out, before);
      var raw := inner.ReadRawTLV();
      if raw == None {
        return None;
      }
      assert raw.value == before[..|raw.value|] && inner.cbs == before[|raw.value|..];
      CollectedSnoc(parse, out, raw.value);
      out := out + [raw.value];
      var x := parse(raw.value);
      if x == None || x.value.oid in m {
        if Elements(read, body).Some? {
          CollectedSoFar(parse, out, Elements(read, inner.cbs));
        }
        return None;
      }
      m := m[x.value.oid := x.value];
    }
    ReadEnd(read, out);
    return if parser.HasMore() then None else Some(m);
  }

  lemma NothingCollected(parse: Bytes -> Option<Extension>)
    ensures Collected(parse, []) == Some(map[])
  {
  }

  // ----- what is collected

  ghost predicate Distinct(parse: Bytes -> Option<Extension>, es: seq<Bytes>) {
    && (forall i | 0 <= i < |es| :: parse(es[i]).Some?)
    && forall i, j | 0 <= i < j < |es| :: parse(es[i]).value.oid != parse(es[j]).value.oid
  }

  /** Exactly the lists without failures and without repeated OIDs are accepted, and the map
    * then holds exactly the parsed elements under their own OIDs. */
  lemma {:induction false} CollectedExact(parse: Bytes -> Option<Extension>, es: seq<Bytes>)
    ensures Collected(parse, es).Some? <==> Distinct(parse, es)
    ensures Collected(parse, es).Some? ==>
              forall oid, x ::
                (oid in Collected(parse, es).value && Collected(parse, es).value[oid] == x) <==>
                (x.oid == oid && exists i :: 0 <= i < |es| && parse(es[i]) == Some(x))
    decreases |es|
  {
    if es != [] {
      var n := |es| - 1;
      var init := es[..n];
      CollectedExact(parse, init);
      assert forall i | 0 <= i < n :: init[i] == es[i];
      var last := parse(es[n]);
      if Collected(parse, init).Some? && last.Some? {
        var m := Collected(parse, init).value;
        if last.value.oid in m {
          assert m[last.value.oid].oid == last.value.oid;
          var i :| 0 <= i < |init| && parse(init[i]) == Some(m[last.value.oid]);
          assert parse(es[i]).value.oid == parse(es[n]).value.oid;
        } else {
          assert forall i | 0 <= i < n :: parse(es[i]).value.oid != last.value.oid by {
            forall i | 0 <= i < n ensures parse(es[i]).value.oid != last.value.oid {
              var x := parse(init[i]).value;
              assert x.oid in m;
            }
          }
        }
      }
    }
  }

  // ----- critical extensions

  ghost predicate HasUnhandledCritical(m: ExtensionMap, handled: set<Bytes>) {
    exists oid :: oid in m && m[oid].critical && m[oid].oid !in handled
  }

  method FindUnhandledCritical(m: ExtensionMap, handled: set<Bytes>) returns (found: bool)
    ensures found <==> HasUnhandledCritical(m, handled)
  {
    var rest := m.Keys;
    while rest != {}
      invariant rest <= m.Keys
      invariant forall oid | oid in m && oid !in rest :: !(m[oid].critical && m[oid].oid !in handled)
      decreases |rest|
    {
      var oid :| oid in rest;
      rest := rest - {oid};
      if m[oid].oid in handled {
        continue;
      }
      if m[oid].critical {
        return true;
      }
    }
    return false;
  }

  /** Removes and returns the extension with the given OID. */
  method ConsumeExtension(oid: Bytes, unconsumed: ExtensionMap) returns (x: Option<Extension>, rest: ExtensionMap)
    ensures x.Some? <==> oid in unconsumed
    ensures x.Some? ==> x.value == unconsumed[oid] && oid !in rest && rest[oid := x.value] == unconsumed
    ensures x == None ==> rest == unconsumed
  {
    if oid !in unconsumed {
      return None, unconsumed;
    }
    return Some(unconsumed[oid]), unconsumed - {oid};
  }
}
