/**
 Canonical model names, and the merging of catalog entries whose names have the same canonical form.

 Go iterates over the catalog map in an arbitrary order, so the result is `Build` for some order of
 the keys.  `BuildNormalizes` says what all orders have in common, `OrderNeverMattersIff` when the
 weights do not depend on the order.
 */
module Normalize {
  import opened Text
  import opened Config

  function LowerChar(c: char): char {
    if 'A' <= c <= 'Z' then (c as int - 'A' as int + 'a' as int) as char else c
  }

  /** The letters of the alphabet change case; nothing else changes. */
  lemma LowerIs(k: nat, c: char)
    ensures k < 26 ==> LowerChar("ABCDEFGHIJKLMNOPQRSTUVWXYZ"[k]) == "abcdefghijklmnopqrstuvwxyz"[k]
    ensures c !in "ABCDEFGHIJKLMNOPQRSTUVWXYZ" ==> LowerChar(c) == c
  {
    var capitals := "ABCDEFGHIJKLMNOPQRSTUVWXYZ";
    if 'A' <= c <= 'Z' { assert capitals[c as int - 'A' as int] == c; }
  }

  function ToLower(s: string): (r: string)
    ensures |r| == |s|
  {
    seq(|s|, i requires 0 <= i < |s| => LowerChar(s[i]))
  }

  const LATEST := ":latest"

  predicate HasLatest(s: string) {
    |s| >= |LATEST| && s[|s| - |LATEST|..] == LATEST
  }

  /** Lower case, without white space around it and then without one trailing ":latest". */
  function NormalizeModelName(name: string): string {
    var n := TrimSpace(ToLower(name));
    if HasLatest(n) then n[..|n| - |LATEST|] else n
  }

  predicate Lower(s: string) {
    forall i :: 0 <= i < |s| ==> !('A' <= s[i] <= 'Z')
  }

  lemma LowerStays(s: string)
    requires Lower(s)
    ensures ToLower(s) == s
  {
  }

  /** A normalized name is in lower case and does not start with white space. */
  lemma NormalizedForm(name: string)
    ensures var n := NormalizeModelName(name); Lower(n) && (n == "" || !IsSpace(n[0]))
  {
    var l := ToLower(name);
    TrimSpaceKeeps(l);
    assert Lower(l);
    forall i | 0 <= i < |TrimSpace(l)| ensures !('A' <= TrimSpace(l)[i] <= 'Z') {
      assert TrimSpace(l)[i] in l;
    }
  }

  lemma LatestEnds(key: string)
    requires Lower(key) && (key == "" || !IsSpace(key[0]))
    ensures var s := key + LATEST; Trimmed(s) && Lower(s) && HasLatest(s)
  {
    var s := key + LATEST;
    assert s[|s| - 1] == 't' && s[0] == if key == "" then ':' else key[0];
    assert s[|key|..] == LATEST;
    assert Lower(LATEST);
  }

  lemma LatestReaches(key: string)
    requires Lower(key) && (key == "" || !IsSpace(key[0]))
    ensures NormalizeModelName(key + LATEST) == key
  {
    var s := key + LATEST;
    LatestEnds(key);
    hide TrimSpace, ToLower, Trimmed;
    LowerStays(s);
    TrimmedStays(s);
    assert s[..|key|] == key;
  }

  /**
   A key is the normal form of some name exactly if it is in lower case and does not start with
   white space: `key:latest` is such a name.  A catalog key of another form is never resolved.
   */
  lemma ReachableIff(key: string)
    ensures (exists name :: NormalizeModelName(name) == key) <==> Lower(key) && (key == "" || !IsSpace(key[0]))
  {
    if name :| NormalizeModelName(name) == key {
      NormalizedForm(name);
    }
    if Lower(key) && (key == "" || !IsSpace(key[0])) {
      LatestReaches(key);
    }
  }

  /**
   Every name, in lower case, is its normal form, perhaps followed by ":latest", with white space around
   that; what is so surrounded does not start or end in white space.
   */
  lemma NormalizedIs(name: string) returns (lead: string, tail: string)
    ensures Blank(lead) && Blank(tail)
    ensures var n, l := NormalizeModelName(name), ToLower(name);
      || (l == lead + n + tail && Trimmed(n) && !HasLatest(n))
      || (l == lead + (n + ":latest") + tail && Trimmed(n + ":latest"))
  {
    lead, tail := TrimSpaceCuts(ToLower(name));
    hide TrimSpace, ToLower;
    var t, n := TrimSpace(ToLower(name)), NormalizeModelName(name);
    if HasLatest(t) { assert t == n + LATEST; }
  }

  /** Whether normalizing leaves a name alone that is a normal form already. */
  predicate Stable(n: string) {
    (n == "" || !IsSpace(n[|n|-1])) && !HasLatest(n)
  }

  /** A lower-case name without white space around it loses ":latest" and nothing else. */
  lemma TrimmedNormalizes(n: string)
    requires Lower(n) && Trimmed(n)
    ensures NormalizeModelName(n) == n <==> !HasLatest(n)
  {
    hide TrimSpace, ToLower;
    LowerStays(n);
    TrimmedStays(n);
  }

  /** A name that ends in white space is no normal form of itself. */
  lemma NormalizedEnds(n: string)
    requires Lower(n) && n != "" && IsSpace(n[|n|-1])
    ensures NormalizeModelName(n) != n
  {
    LowerStays(n);
    TrimSpaceKeeps(n);
    var lead, tail := TrimSpaceCuts(n);
    hide TrimSpace, ToLower;
    var t := TrimSpace(n);
    assert |t| <= |n|;
    assert t != n;
  }

  /**
   Normalizing twice is normalizing once exactly if the first result does not end in white space and
   not in ":latest".
   */
  lemma NormalizedTwiceIff(name: string)
    ensures var n := NormalizeModelName(name); NormalizeModelName(n) == n <==> Stable(n)
  {
    var n := NormalizeModelName(name);
    NormalizedForm(name);
    hide NormalizeModelName;
    if n == "" || !IsSpace(n[|n|-1]) {
      TrimmedNormalizes(n);
    } else {
      NormalizedEnds(n);
    }
  }

  /** The names that normalizing leaves alone. */
  lemma NormalFormIff(name: string)
    ensures NormalizeModelName(name) == name <==> Lower(name) && Trimmed(name) && !HasLatest(name)
  {
    if NormalizeModelName(name) == name {
      NormalizedForm(name);
      NormalizedTwiceIff(name);
    } else if Lower(name) && Trimmed(name) {
      TrimmedNormalizes(name);
    }
  }

  lemma SpacesNormalize(k: nat, name: string)
    ensures NormalizeModelName(Spaces(k) + name) == NormalizeModelName(name)
  {
    assert ToLower(Spaces(k) + name) == Spaces(k) + ToLower(name);
    TrimSpaces(k, ToLower(name));
  }

  lemma LowerCases(a: string, b: string)
    ensures ToLower(a + b) == ToLower(a) + ToLower(b)
  {
  }

  lemma LowerKeepsSpace(s: string)
    ensures Blank(s) ==> Blank(ToLower(s))
    ensures Trimmed(s) ==> Trimmed(ToLower(s))
  {
  }

  /** White space around a name does not matter. */
  lemma TrimNormalizes(name: string)
    ensures NormalizeModelName(TrimSpace(name)) == NormalizeModelName(name)
  {
    var lead, tail := TrimSpaceCuts(name);
    var t := TrimSpace(name);
    hide TrimSpace, ToLower, Blank, Trimmed;
    LowerKeepsSpace(lead);
    LowerKeepsSpace(t);
    LowerKeepsSpace(tail);
    LowerCases(lead + t, tail);
    LowerCases(lead, t);
    TrimSpaceIs(ToLower(lead), ToLower(t), ToLower(tail));
    TrimmedStays(ToLower(t));
  }

  lemma SpaceAfterA()
    ensures NormalizeModelName("a ") == "a"
  {
    LowerStays("a ");
    assert "a "[..1] == "a";
  }

  /** Both ways to fail: another ":latest", and white space before ":latest". */
  lemma NotIdempotent()
    ensures NormalizeModelName("a:latest:latest") == "a:latest" && NormalizeModelName("a:latest") == "a"
    ensures NormalizeModelName("a :latest") == "a " && NormalizeModelName("a ") == "a"
  {
    hide NormalizeModelName;
    LatestEnds("a");
    LatestReaches("a");
    LatestReaches("a" + LATEST);
    LatestReaches("a ");
    assert "a" + LATEST == "a:latest" && "a:latest" + LATEST == "a:latest:latest" && "a " + LATEST == "a :latest";
    SpaceAfterA();
  }

  // ---------------------------------------------------------------------
  // Merging entries
  // ---------------------------------------------------------------------

  /** The references with those of `more` that name a backend not referred to before. */
  function Merge(refs: seq<BackendRef>, more: seq<BackendRef>): seq<BackendRef> {
    if more == [] then refs
    else
      var m, last := Merge(refs, more[..|more|-1]), more[|more|-1];
      if last.backend == "" || Refers(m, last.backend) then m else m + [last]
  }

  /** Merging goes on where it has stopped, one reference after the other. */
  lemma {:induction false} MergeOneByOne(refs: seq<BackendRef>, xs: seq<BackendRef>, ys: seq<BackendRef>)
    ensures Merge(refs, xs + ys) == Merge(Merge(refs, xs), ys)
  {
    if ys == [] {
      assert xs + ys == xs;
    } else {
      assert (xs + ys)[..|xs + ys|-1] == xs + ys[..|ys|-1];
      MergeOneByOne(refs, xs, ys[..|ys|-1]);
    }
  }

  lemma MergeOne(refs: seq<BackendRef>, ref: BackendRef)
    ensures ref.backend == "" || Refers(refs, ref.backend) ==> Merge(refs, [ref]) == refs
    ensures ref.backend != "" && !Refers(refs, ref.backend) ==> Merge(refs, [ref]) == refs + [ref]
  {
    assert [ref][..0] == [];
  }

  ghost predicate IsFirst(refs: seq<BackendRef>, ref: BackendRef, i: nat) {
    i < |refs| && refs[i] == ref && forall j :: 0 <= j < i ==> refs[j].backend != ref.backend
  }

  /** ref is the first reference to its backend in the list. */
  ghost predicate First(refs: seq<BackendRef>, ref: BackendRef) {
    ref.backend != "" && exists i :: IsFirst(refs, ref, i)
  }

  ghost predicate Covers(refs: seq<BackendRef>, more: seq<BackendRef>) {
    forall i :: 0 <= i < |more| && more[i].backend != "" ==> Refers(refs, more[i].backend)
  }

  lemma {:induction false} MergeDistinct(refs: seq<BackendRef>, more: seq<BackendRef>)
    requires DistinctRefs(refs)
    ensures DistinctRefs(Merge(refs, more)) && refs <= Merge(refs, more)
  {
    if more == [] {
    } else {
      MergeDistinct(refs, more[..|more|-1]);
    }
  }

  lemma {:induction false} MergeCovers(refs: seq<BackendRef>, more: seq<BackendRef>)
    ensures Covers(Merge(refs, more), more)
  {
    hide Refers;
    if more == [] {
    } else {
      var front, last := more[..|more|-1], more[|more|-1];
      MergeCovers(refs, front);
      RefersOneMore(Merge(refs, front));
    }
  }

  lemma FirstStays(refs: seq<BackendRef>, last: BackendRef)
    ensures forall r :: First(refs, r) ==> First(refs + [last], r)
  {
    forall r | First(refs, r) ensures First(refs + [last], r) {
      var i :| IsFirst(refs, r, i);
      assert IsFirst(refs + [last], r, i);
    }
  }

  lemma FirstIsLast(refs: seq<BackendRef>, last: BackendRef)
    requires last.backend != "" && forall j :: 0 <= j < |refs| ==> refs[j].backend != last.backend
    ensures First(refs + [last], last)
  {
    assert IsFirst(refs + [last], last, |refs|);
  }

  lemma {:induction false} MergeTakesFirst(refs: seq<BackendRef>, more: seq<BackendRef>)
    requires DistinctRefs(refs)
    ensures forall i :: |refs| <= i < |Merge(refs, more)| ==> First(more, Merge(refs, more)[i])
  {
    hide First, DistinctRefs, Refers;
    if more == [] {
    } else {
      var front, last := more[..|more|-1], more[|more|-1];
      MergeTakesFirst(refs, front);
      MergeCovers(refs, front);
      assert front + [last] == more;
      FirstStays(front, last);
      if last.backend != "" && !Refers(Merge(refs, front), last.backend) {
        assert forall j :: 0 <= j < |front| ==> front[j].backend != last.backend;
        FirstIsLast(front, last);
      }
    }
  }

  /** What one raw entry does to the catalog. */
  function MergeEntry(out: Catalog, raw: string, entry: ModelEntry): Catalog {
    var name := NormalizeModelName(raw);
    if name == "" then out
    else out[name := ModelEntry(name, Merge(if name in out then out[name].backends else [], entry.backends))]
  }

  /** The catalog after the entries of the given raw names, in that order. */
  function Build(source: Catalog, order: seq<string>): Catalog {
    if order == [] then map[]
    else
      var out, raw := Build(source, order[..|order|-1]), order[|order|-1];
      if raw in source then MergeEntry(out, raw, source[raw]) else out
  }

  // ---------------------------------------------------------------------
  // What every order has in common
  // ---------------------------------------------------------------------

  ghost function NormalForms(source: Catalog): set<string> {
    set raw | raw in source && NormalizeModelName(raw) != "" :: NormalizeModelName(raw)
  }

  /** One entry under each normal form, with that name and distinct references. */
  ghost predicate Canonical(source: Catalog, out: Catalog) {
    out.Keys == NormalForms(source) && forall n :: n in out ==> out[n].name == n && DistinctRefs(out[n].backends)
  }

  /** The entry of raw has ref, and raw is a name of the model n. */
  ghost predicate Offers(source: Catalog, raw: string, n: string, ref: BackendRef) {
    raw in source && NormalizeModelName(raw) == n && First(source[raw].backends, ref)
  }

  ghost predicate Offered(source: Catalog, raws: seq<string>, n: string, ref: BackendRef) {
    exists raw :: raw in raws && Offers(source, raw, n, ref)
  }

  /** refs has one reference to each backend that the given names of the model n refer to. */
  ghost predicate MergedFrom(source: Catalog, raws: seq<string>, n: string, refs: seq<BackendRef>) {
    && DistinctRefs(refs)
    && (forall i :: 0 <= i < |refs| ==> Offered(source, raws, n, refs[i]))
    && (forall raw :: raw in raws && raw in source && NormalizeModelName(raw) == n ==>
          Covers(refs, source[raw].backends))
  }

  ghost predicate Normalized(source: Catalog, raws: seq<string>, out: Catalog) {
    && (forall n :: n in out <==> n != "" && exists raw :: raw in raws && raw in source && NormalizeModelName(raw) == n)
    && (forall n :: n in out ==> out[n].name == n && MergedFrom(source, raws, n, out[n].backends))
  }

  lemma OfferedStays(source: Catalog, raws: seq<string>, raw: string, n: string, ref: BackendRef)
    ensures Offered(source, raws + [raw], n, ref) <==> Offered(source, raws, n, ref) || Offers(source, raw, n, ref)
  {
    hide Offers;
    if r :| r in raws && Offers(source, r, n, ref) { assert r in raws + [raw]; }
    if Offers(source, raw, n, ref) { assert raw in raws + [raw]; }
  }

  lemma CoversMore(refs: seq<BackendRef>, bigger: seq<BackendRef>, more: seq<BackendRef>)
    requires Covers(refs, more) && refs <= bigger
    ensures Covers(bigger, more)
  {
    forall i | 0 <= i < |more| && more[i].backend != "" ensures Refers(bigger, more[i].backend) {
      var j :| 0 <= j < |refs| && refs[j].backend == more[i].backend;
      assert bigger[j] == refs[j];
    }
  }

  lemma MergedOneMore(source: Catalog, raws: seq<string>, n: string, refs: seq<BackendRef>, raw: string)
    requires MergedFrom(source, raws, n, refs) && raw in source && NormalizeModelName(raw) == n
    ensures MergedFrom(source, raws + [raw], n, Merge(refs, source[raw].backends))
  {
    hide First, NormalizeModelName, Merge, Covers, Offered;
    assert forall x :: x in raws + [raw] <==> x in raws || x == raw;
    var m := Merge(refs, source[raw].backends);
    MergeDistinct(refs, source[raw].backends);
    MergeCovers(refs, source[raw].backends);
    MergeTakesFirst(refs, source[raw].backends);
    forall i | 0 <= i < |m| ensures Offered(source, raws + [raw], n, m[i]) {
      OfferedStays(source, raws, raw, n, m[i]);
      assert i < |refs| ==> m[i] == refs[i];
    }
    forall raw' | raw' in raws + [raw] && raw' in source && NormalizeModelName(raw') == n
      ensures Covers(m, source[raw'].backends)
    {
      if raw' in raws { CoversMore(refs, m, source[raw'].backends); }
    }
  }

  lemma MergedUnchanged(source: Catalog, raws: seq<string>, n: string, refs: seq<BackendRef>, raw: string)
    requires MergedFrom(source, raws, n, refs) && NormalizeModelName(raw) != n
    ensures MergedFrom(source, raws + [raw], n, refs)
  {
    hide First, NormalizeModelName, Covers, Offered;
    assert forall x :: x in raws + [raw] <==> x in raws || x == raw;
    forall i | 0 <= i < |refs| ensures Offered(source, raws + [raw], n, refs[i]) {
      OfferedStays(source, raws, raw, n, refs[i]);
    }
  }

  /** Nothing is merged from names of other models. */
  lemma MergedFromNone(source: Catalog, raws: seq<string>, n: string)
    requires forall raw :: raw in raws && raw in source ==> NormalizeModelName(raw) != n
    ensures MergedFrom(source, raws, n, [])
  {
  }

  lemma NamedOneMore(source: Catalog, raws: seq<string>, raw: string, n: string)
    requires raw in source
    ensures (exists r :: r in raws + [raw] && r in source && NormalizeModelName(r) == n) <==>
      NormalizeModelName(raw) == n || exists r :: r in raws && r in source && NormalizeModelName(r) == n
  {
    if r :| r in raws && r in source && NormalizeModelName(r) == n { assert r in raws + [raw]; }
    if NormalizeModelName(raw) == n { assert raw in raws + [raw]; }
  }

  /**
   Whatever the order: the keys are the non-empty normal forms, and each entry has exactly one
   reference to every backend that some entry of the model refers to, taken from one of them.
   */
  lemma {:induction false} BuildNormalizes(source: Catalog, order: seq<string>)
    requires forall raw :: raw in order ==> raw in source
    ensures Normalized(source, order, Build(source, order))
  {
    hide NormalizeModelName, MergedFrom, Merge;
    if order == [] {
    } else {
      var front, raw := order[..|order|-1], order[|order|-1];
      assert front + [raw] == order;
      BuildNormalizes(source, front);
      var was, now := Build(source, front), Build(source, order);
      var name := NormalizeModelName(raw);
      forall n | n in now ensures MergedFrom(source, order, n, now[n].backends) {
        if n != name {
          MergedUnchanged(source, front, n, was[n].backends, raw);
        } else {
          if n !in was { MergedFromNone(source, front, n); }
          MergedOneMore(source, front, n, if n in was then was[n].backends else [], raw);
        }
      }
      forall n ensures n in now <==> n != "" && exists r :: r in order && r in source && NormalizeModelName(r) == n {
        NamedOneMore(source, front, raw, n);
      }
    }
  }

  lemma BuildShape(source: Catalog, order: seq<string>)
    requires Enumerates(order, source.Keys)
    ensures Canonical(source, Build(source, order))
  {
    hide Build, NormalizeModelName, DistinctRefs;
    BuildNormalizes(source, order);
    var out := Build(source, order);
    forall n ensures n in out <==> n in NormalForms(source) {
      if n in NormalForms(source) {
        var raw :| raw in source && NormalizeModelName(raw) == n;
        assert raw in order;
      }
    }
  }

  lemma {:induction false} BuildNames(source: Catalog, order: seq<string>)
    ensures forall n :: n in Build(source, order) ==> Build(source, order)[n].name == n
  {
    hide Merge, NormalizeModelName;
    if order == [] {
    } else {
      BuildNames(source, order[..|order|-1]);
    }
  }

  lemma NoRefers()
    ensures forall x: string, refs: seq<BackendRef> :: refs == [] ==> !Refers(refs, x)
  {
  }

  /** The inner loops of NormalizeCatalog. */
  method MergeRefs(refs: seq<BackendRef>, more: seq<BackendRef>) returns (merged: seq<BackendRef>)
    ensures merged == Merge(refs, more)
  {
    hide Refers;
    var seen: set<string> := {};
    NoRefers();
    for i := 0 to |refs|
      invariant forall x :: x in seen <==> Refers(refs[..i], x)
    {
      RefersOneMore(refs[..i]);
      assert refs[..i+1] == refs[..i] + [refs[i]];
      seen := seen + {refs[i].backend};
    }
    assert refs[..|refs|] == refs;
    merged := refs;
    for i := 0 to |more|
      invariant merged == Merge(refs, more[..i])
      invariant forall x :: x in seen <==> Refers(merged, x)
    {
      assert more[..i+1][..i] == more[..i];
      var ref := more[i];
      if ref.backend == "" {
        continue;
      }
      if ref.backend in seen {
        continue;
      }
      RefersOneMore(merged);
      seen := seen + {ref.backend};
      merged := merged + [ref];
    }
    assert more[..|more|] == more;
  }

  method NormalizeCatalog(source: Catalog) returns (out: Catalog, ghost order: seq<string>)
    ensures Enumerates(order, source.Keys) && out == Build(source, order)
    ensures Canonical(source, out)
  {
    hide Merge, NormalizeModelName, DistinctRefs;
    out, order := map[], [];
    var rest := source.Keys;
    while rest != {}
      invariant rest <= source.Keys && Enumerates(order, source.Keys - rest)
      invariant out == Build(source, order)
      decreases |rest|
    {
      var rawName :| rawName in rest;
      rest := rest - {rawName};
      assert (order + [rawName])[..|order|] == order;
      order := order + [rawName];
      var entry := source[rawName];
      var name := NormalizeModelName(rawName);
      if name == "" {
        continue;
      }
      var current := ModelEntry(name, []);
      if name in out {
        current := out[name];
      }
      assert current.name == name by { BuildNames(source, order[..|order|-1]); }
      var merged := MergeRefs(current.backends, entry.backends);
      out := out[name := current.(backends := merged)];
    }
    BuildShape(source, order);
  }

  // ---------------------------------------------------------------------
  // When the order matters
  // ---------------------------------------------------------------------

  /** The weight of each backend that the references name; a later reference overrides an earlier one. */
  function Weights(refs: seq<BackendRef>): map<string, int> {
    if refs == [] then map[]
    else
      var w, last := Weights(refs[..|refs|-1]), refs[|refs|-1];
      if last.backend == "" then w else w[last.backend := Clamp(last.weight)]
  }

  /** Of several references to a backend, the last one decides. */
  lemma {:induction false} WeightsLast(refs: seq<BackendRef>, i: nat)
    requires i < |refs| && refs[i].backend != ""
    requires forall j :: i < j < |refs| ==> refs[j].backend != refs[i].backend
    ensures var b := refs[i].backend;
      && b in Weights(refs)
      && (refs[i].weight >= 1 ==> Weights(refs)[b] == refs[i].weight)
      && (refs[i].weight < 1 ==> Weights(refs)[b] == DEFAULT_MODEL_WEIGHT)
  {
    if i < |refs| - 1 { WeightsLast(refs[..|refs|-1], i); }
  }

  /** No backend has a weight that no reference names. */
  lemma {:induction false} WeightsNamed(refs: seq<BackendRef>, b: string)
    ensures b in Weights(refs) <==> b != "" && Refers(refs, b)
  {
    hide Refers;
    NoRefers();
    if refs == [] {
    } else {
      var front, last := refs[..|refs|-1], refs[|refs|-1];
      WeightsNamed(front, b);
      RefersOneMore(front);
      assert front + [last] == refs;
    }
  }

  ghost predicate Has(refs: seq<BackendRef>, b: string, w: int) {
    exists i :: 0 <= i < |refs| && refs[i].backend == b && Clamp(refs[i].weight) == w
  }

  lemma HasOneMore(refs: seq<BackendRef>, last: BackendRef, b: string, w: int)
    ensures Has(refs + [last], b, w) <==> Has(refs, b, w) || (b == last.backend && w == Clamp(last.weight))
  {
    var more := refs + [last];
    if Has(refs, b, w) {
      var i :| 0 <= i < |refs| && refs[i].backend == b && Clamp(refs[i].weight) == w;
      assert more[i] == refs[i];
    }
    if b == last.backend && w == Clamp(last.weight) { assert more[|refs|] == last; }
  }

  /** Of distinct references, each to a named backend, the weights are exactly the clamped ones. */
  lemma {:induction false} WeightsAreClamped(refs: seq<BackendRef>)
    requires DistinctRefs(refs) && forall i :: 0 <= i < |refs| ==> refs[i].backend != ""
    ensures forall b, w :: b in Weights(refs) && Weights(refs)[b] == w <==> Has(refs, b, w)
    ensures forall b :: b in Weights(refs) <==> Refers(refs, b)
  {
    if refs == [] {
    } else {
      var front, last := refs[..|refs|-1], refs[|refs|-1];
      WeightsAreClamped(front);
      RefersOneMore(front);
      assert front + [last] == refs;
      forall b, w ensures Has(refs, b, w) <==> Has(front, b, w) || (b == last.backend && w == Clamp(last.weight)) {
        HasOneMore(front, last, b, w);
      }
      assert !Refers(front, last.backend);
      forall w ensures !Has(front, last.backend, w) { }
    }
  }

  /** Entries of one model offer each backend with one weight. */
  ghost predicate NoConflict(source: Catalog) {
    forall raw1, raw2, n, r1, r2 ::
      Offers(source, raw1, n, r1) && Offers(source, raw2, n, r2) && n != "" && r1.backend == r2.backend ==>
        Clamp(r1.weight) == Clamp(r2.weight)
  }

  ghost predicate SameWeights(a: Catalog, b: Catalog) {
    a.Keys == b.Keys && forall n :: n in a ==> Weights(a[n].backends) == Weights(b[n].backends)
  }

  /** All orders give the same weights. */
  ghost predicate OrderNeverMatters(source: Catalog) {
    forall o1, o2 :: Enumerates(o1, source.Keys) && Enumerates(o2, source.Keys) ==>
      SameWeights(Build(source, o1), Build(source, o2))
  }

  lemma MergedWeights(source: Catalog, raws: seq<string>, n: string, refs: seq<BackendRef>)
    requires MergedFrom(source, raws, n, refs)
    ensures forall i :: 0 <= i < |refs| ==> refs[i].backend != ""
    ensures forall b, w :: b in Weights(refs) && Weights(refs)[b] == w <==> Has(refs, b, w)
    ensures forall b :: b in Weights(refs) <==> Refers(refs, b)
  {
    hide Weights, Has, Refers, Covers, NormalizeModelName;
    forall i | 0 <= i < |refs| ensures refs[i].backend != "" {
      assert Offered(source, raws, n, refs[i]);
    }
    WeightsAreClamped(refs);
  }

  lemma OneWeight(source: Catalog, raw1: string, raw2: string, n: string, r1: BackendRef, r2: BackendRef)
    requires NoConflict(source) && n != "" && r1.backend == r2.backend
    requires Offers(source, raw1, n, r1) && Offers(source, raw2, n, r2)
    ensures Clamp(r1.weight) == Clamp(r2.weight)
  {
  }

  /** A backend that one merged list has is in every other, as both cover what is offered. */
  lemma MergedAlike(source: Catalog, o1: seq<string>, o2: seq<string>, n: string,
                    a: seq<BackendRef>, b: seq<BackendRef>, i: nat)
    returns (j: nat)
    requires n != "" && NoConflict(source) && (forall x :: x in o1 <==> x in o2)
    requires MergedFrom(source, o1, n, a) && MergedFrom(source, o2, n, b) && i < |a|
    ensures j < |b| && b[j].backend == a[i].backend && Clamp(b[j].weight) == Clamp(a[i].weight)
  {
    hide NoConflict, NormalizeModelName, DistinctRefs;
    assert Offered(source, o1, n, a[i]);
    var raw :| raw in o1 && Offers(source, raw, n, a[i]);
    assert Covers(b, source[raw].backends);
    var k :| IsFirst(source[raw].backends, a[i], k);
    assert Refers(b, a[i].backend);
    j :| 0 <= j < |b| && b[j].backend == a[i].backend;
    assert Offered(source, o2, n, b[j]);
    var raw2 :| raw2 in o2 && Offers(source, raw2, n, b[j]);
    OneWeight(source, raw, raw2, n, a[i], b[j]);
  }

  lemma WeightsAgree(source: Catalog, o1: seq<string>, o2: seq<string>, n: string,
                     a: seq<BackendRef>, b: seq<BackendRef>)
    requires n != "" && NoConflict(source) && (forall x :: x in o1 <==> x in o2)
    requires MergedFrom(source, o1, n, a) && MergedFrom(source, o2, n, b)
    ensures Weights(a) == Weights(b)
  {
    hide NoConflict, MergedFrom, Weights, Clamp;
    MergedWeights(source, o1, n, a);
    MergedWeights(source, o2, n, b);
    forall x, w ensures Has(a, x, w) <==> Has(b, x, w) {
      if i :| 0 <= i < |a| && a[i].backend == x && Clamp(a[i].weight) == w {
        var j := MergedAlike(source, o1, o2, n, a, b, i);
      }
      if i :| 0 <= i < |b| && b[i].backend == x && Clamp(b[i].weight) == w {
        var j := MergedAlike(source, o2, o1, n, b, a, i);
      }
    }
    forall x ensures x in Weights(a) <==> x in Weights(b) {
      if x in Weights(a) { assert Has(a, x, Weights(a)[x]); }
      if x in Weights(b) { assert Has(b, x, Weights(b)[x]); }
    }
    forall x | x in Weights(a) ensures Weights(a)[x] == Weights(b)[x] {
      assert Has(a, x, Weights(a)[x]);
    }
  }

  lemma OrdersAgree(source: Catalog, o1: seq<string>, o2: seq<string>)
    requires NoConflict(source) && Enumerates(o1, source.Keys) && Enumerates(o2, source.Keys)
    ensures SameWeights(Build(source, o1), Build(source, o2))
  {
    hide NoConflict, MergedFrom, Weights, Build, NormalizeModelName;
    BuildNormalizes(source, o1);
    BuildNormalizes(source, o2);
    var a, b := Build(source, o1), Build(source, o2);
    assert forall x :: x in o1 <==> x in o2;
    assert forall n :: n in a <==> n in b;
    forall n | n in a ensures Weights(a[n].backends) == Weights(b[n].backends) {
      WeightsAgree(source, o1, o2, n, a[n].backends, b[n].backends);
    }
  }

  lemma {:induction false} MergeKeeps(refs: seq<BackendRef>, more: seq<BackendRef>, ref: BackendRef)
    requires ref in refs
    ensures ref in Merge(refs, more)
  {
    if more == [] {
    } else {
      MergeKeeps(refs, more[..|more|-1], ref);
    }
  }

  lemma {:induction false} MergeRefersOnly(more: seq<BackendRef>, b: string)
    requires forall j :: 0 <= j < |more| ==> more[j].backend != b
    ensures !Refers(Merge([], more), b)
  {
    hide Refers;
    NoRefers();
    if more == [] {
    } else {
      MergeRefersOnly(more[..|more|-1], b);
      RefersOneMore(Merge([], more[..|more|-1]));
    }
  }

  lemma {:induction false} FirstMerged(more: seq<BackendRef>, ref: BackendRef)
    requires First(more, ref)
    ensures ref in Merge([], more)
  {
    var i: nat :| IsFirst(more, ref, i);
    var front, last := more[..|more|-1], more[|more|-1];
    if i < |front| {
      assert IsFirst(front, ref, i);
      FirstMerged(front, ref);
    } else {
      MergeRefersOnly(front, ref.backend);
    }
  }

  /** The entry that comes first decides the weights of the backends it refers to. */
  lemma {:induction false} FirstWins(source: Catalog, raw: string, n: string, ref: BackendRef, rest: seq<string>)
    requires Offers(source, raw, n, ref) && n != ""
    ensures var out := Build(source, [raw] + rest); n in out && ref in out[n].backends
  {
    hide NormalizeModelName, First, Refers;
    if rest == [] {
      assert ([raw] + rest)[..0] == [];
      FirstMerged(source[raw].backends, ref);
    } else {
      var front := rest[..|rest|-1];
      assert ([raw] + rest)[..|rest|] == [raw] + front;
      FirstWins(source, raw, n, ref, front);
      var out := Build(source, [raw] + front);
      var last := rest[|rest|-1];
      if last in source && NormalizeModelName(last) == n {
        MergeKeeps(out[n].backends, source[last].backends, ref);
      }
    }
  }

  /** An order that starts with raw. */
  lemma StartingWith(source: Catalog, raw: string) returns (rest: seq<string>)
    requires raw in source
    ensures Enumerates([raw] + rest, source.Keys)
  {
    SortedExists(source.Keys - {raw});
    rest :| Enumerates(rest, source.Keys - {raw});
    var order := [raw] + rest;
    forall i, j | 0 <= i < j < |order| ensures order[i] != order[j] {
      assert order[j] in rest;
    }
    assert forall x :: x in order <==> x == raw || x in rest;
  }

  lemma FirstDecides(source: Catalog, raw: string, n: string, ref: BackendRef) returns (order: seq<string>)
    requires Offers(source, raw, n, ref) && n != ""
    ensures Enumerates(order, source.Keys) && n in Build(source, order)
    ensures var w := Weights(Build(source, order)[n].backends); ref.backend in w && w[ref.backend] == Clamp(ref.weight)
  {
    hide NormalizeModelName, Build, Weights, First, Clamp, DistinctRefs;
    var rest := StartingWith(source, raw);
    order := [raw] + rest;
    FirstWins(source, raw, n, ref, rest);
    BuildNormalizes(source, order);
    var refs := Build(source, order)[n].backends;
    MergedWeights(source, order, n, refs);
    assert Has(refs, ref.backend, Clamp(ref.weight)) by {
      var i :| 0 <= i < |refs| && refs[i] == ref;
    }
  }

  lemma ConflictShows(source: Catalog, raw1: string, raw2: string, n: string, r1: BackendRef, r2: BackendRef)
    requires Offers(source, raw1, n, r1) && Offers(source, raw2, n, r2) && n != ""
    requires r1.backend == r2.backend && Clamp(r1.weight) != Clamp(r2.weight)
    ensures !OrderNeverMatters(source)
  {
    hide Offers, Build, Weights, Enumerates;
    var o1 := FirstDecides(source, raw1, n, r1);
    var o2 := FirstDecides(source, raw2, n, r2);
    assert !SameWeights(Build(source, o1), Build(source, o2));
  }

  /** The weights are the same for all iteration orders exactly if merged names carry no conflicting weights. */
  lemma OrderNeverMattersIff(source: Catalog)
    ensures OrderNeverMatters(source) <==> NoConflict(source)
  {
    hide SameWeights, Offers, Build;
    if NoConflict(source) {
      forall o1, o2 | Enumerates(o1, source.Keys) && Enumerates(o2, source.Keys)
        ensures SameWeights(Build(source, o1), Build(source, o2))
      {
        OrdersAgree(source, o1, o2);
      }
    } else {
      var raw1, raw2, n, r1, r2 :| Offers(source, raw1, n, r1) && Offers(source, raw2, n, r2) && n != ""
        && r1.backend == r2.backend && Clamp(r1.weight) != Clamp(r2.weight);
      ConflictShows(source, raw1, raw2, n, r1, r2);
    }
  }
}
