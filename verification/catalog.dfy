/**
 * What one run of the locale compile pass computes, stated as functions of the
 * glob result (an ordered sequence of basename and parsed JSON): the
 * namespace/locale key of each file, the namespaces and locales in order of
 * first discovery, the per-key merged catalog, and the list of files the
 * writer emits (namespace-major). The loops that compute these are in module
 * Compile; the lemmas here say what the results mean.
 */
module Catalog {
  import opened Wrappers
  import opened Strings
  import opened Json

  /** One file found by the glob: its basename and the JSON it holds. */
  datatype Fragment = Fragment(basename: string, content: Json)

  /** The (namespace, locale) pair a fragment contributes to. */
  datatype Key = Key(ns: string, loc: string)

  /** What the pass reports: `{ locales, namespaces }`. */
  datatype Manifest = Manifest(locales: seq<string>, namespaces: seq<string>)

  /** The manifest as the JSON document written to disk. */
  function ManifestJson(m: Manifest): (j: Json)
    ensures j.Obj? && j.fields.Keys == {"locales", "namespaces"}
  {
    Obj(map[
      "locales" := Arr(seq(|m.locales|, i requires 0 <= i < |m.locales| => Str(m.locales[i]))),
      "namespaces" := Arr(seq(|m.namespaces|, i requires 0 <= i < |m.namespaces| => Str(m.namespaces[i])))])
  }

  /** `config.get('i18n.defaultNS') || 'default'` */
  function DefaultNamespace(configured: Option<string>): (ns: string)
    ensures ns != ""
    ensures TruthyString(configured) ==> ns == configured.value
  {
    OrDefault(configured, "default")
  }

  // ---------------------------------------------------------------------------
  // Key derivation (locales.ts:71-80, locales.js:65-74)
  // ---------------------------------------------------------------------------

  /** `basename.replace('.json', '')` */
  function Stem(basename: string): string {
    ReplaceFirst(basename, ".json", "")
  }

  /** `ns.loc[.more].json` gives (ns, loc); a stem without a dot gives (defaultNS, stem). */
  function DeriveKey(basename: string, defaultNS: string): Key {
    var stem := Stem(basename);
    var parts := Split(stem, '.');
    if |parts| > 1 then Key(parts[0], parts[1]) else Key(defaultNS, stem)
  }

  /** The only `.json` in `stem + ".json"` is the one at the end. */
  predicate JsonOnlyAtEnd(stem: string) {
    forall i :: 0 <= i < |stem| ==> !MatchesAt(stem + ".json", ".json", i)
  }

  lemma StemOfJsonName(stem: string)
    requires JsonOnlyAtEnd(stem)
    ensures Stem(stem + ".json") == stem
  {
    assert stem + ".json" + "" == stem + ".json";
    ReplaceFirstAt(stem, ".json", "", "");
    assert stem + "" + "" == stem;
  }

  /** A derived locale never holds a dot; a derived namespace holds one only when it is the default. */
  lemma DeriveKeyLocaleHasNoDot(basename: string, defaultNS: string)
    ensures '.' !in DeriveKey(basename, defaultNS).loc
    ensures '.' in DeriveKey(basename, defaultNS).ns ==> DeriveKey(basename, defaultNS).ns == defaultNS
  {
    var stem := Stem(basename);
    SplitPiecesFree(stem, '.');
    SplitSingle(stem, '.');
  }

  /** `ns.loc.json` yields namespace `ns` and locale `loc`. */
  lemma DeriveKeyTwoParts(ns: string, loc: string, defaultNS: string)
    requires '.' !in ns && '.' !in loc
    requires JsonOnlyAtEnd(ns + "." + loc)
    ensures DeriveKey(ns + "." + loc + ".json", defaultNS) == Key(ns, loc)
  {
    StemOfJsonName(ns + "." + loc);
    assert ns + "." + loc == ns + ['.'] + loc;
    SplitAround(ns, loc, '.');
    SplitSingle(ns, '.');
    SplitSingle(loc, '.');
  }

  /** `loc.json` yields the default namespace and locale `loc`. */
  lemma DeriveKeyDefault(loc: string, defaultNS: string)
    requires '.' !in loc
    requires JsonOnlyAtEnd(loc)
    ensures DeriveKey(loc + ".json", defaultNS) == Key(defaultNS, loc)
  {
    StemOfJsonName(loc);
    SplitSingle(loc, '.');
  }

  /** With three or more dot-separated parts only the first two count. */
  lemma DeriveKeyExtraParts(ns: string, loc: string, rest: string, defaultNS: string)
    requires '.' !in ns && '.' !in loc
    requires JsonOnlyAtEnd(ns + "." + loc + "." + rest)
    ensures DeriveKey(ns + "." + loc + "." + rest + ".json", defaultNS) == Key(ns, loc)
  {
    var stem := ns + "." + loc + "." + rest;
    StemOfJsonName(stem);
    assert stem == ns + ['.'] + (loc + ['.'] + rest);
    SplitAround(ns, loc + ['.'] + rest, '.');
    SplitAround(loc, rest, '.');
    SplitSingle(ns, '.');
    SplitSingle(loc, '.');
  }

  // ---------------------------------------------------------------------------
  // The keys of a glob result, and first-discovery lists
  // ---------------------------------------------------------------------------

  /** The key of every fragment, in glob order. */
  function KeysOf(files: seq<Fragment>, defaultNS: string): (keys: seq<Key>)
    ensures |keys| == |files|
    decreases |files|
  {
    if |files| == 0 then []
    else KeysOf(files[..|files| - 1], defaultNS) + [DeriveKey(files[|files| - 1].basename, defaultNS)]
  }

  function NamespacesOf(keys: seq<Key>): (r: seq<string>)
    ensures |r| == |keys|
    decreases |keys|
  {
    if |keys| == 0 then [] else NamespacesOf(keys[..|keys| - 1]) + [keys[|keys| - 1].ns]
  }

  function LocalesOf(keys: seq<Key>): (r: seq<string>)
    ensures |r| == |keys|
    decreases |keys|
  {
    if |keys| == 0 then [] else LocalesOf(keys[..|keys| - 1]) + [keys[|keys| - 1].loc]
  }

  /** Entry `i` of the keys is the key derived from file `i`'s basename. */
  lemma {:induction false} KeysOfAt(files: seq<Fragment>, defaultNS: string)
    ensures forall i :: 0 <= i < |files| ==> KeysOf(files, defaultNS)[i] == DeriveKey(files[i].basename, defaultNS)
    decreases |files|
  {
    if |files| > 0 {
      var p := files[..|files| - 1];
      KeysOfAt(p, defaultNS);
      forall i | 0 <= i < |files| ensures KeysOf(files, defaultNS)[i] == DeriveKey(files[i].basename, defaultNS) {
        if i < |p| { assert files[i] == p[i]; }
      }
    }
  }

  /** Entry `i` of the namespace and locale lists comes from key `i`. */
  lemma {:induction false} NamesOfAt(keys: seq<Key>)
    ensures forall i :: 0 <= i < |keys| ==> NamespacesOf(keys)[i] == keys[i].ns && LocalesOf(keys)[i] == keys[i].loc
    decreases |keys|
  {
    if |keys| > 0 {
      var p := keys[..|keys| - 1];
      NamesOfAt(p);
      forall i | 0 <= i < |keys| ensures NamespacesOf(keys)[i] == keys[i].ns && LocalesOf(keys)[i] == keys[i].loc {
        if i < |p| { assert keys[i] == p[i]; }
      }
    }
  }

  /** `if (!xs.includes(x)) xs.push(x)` */
  function AddUnique(xs: seq<string>, x: string): seq<string> {
    if x in xs then xs else xs + [x]
  }

  /** The names in order of first discovery, each once. */
  function FirstSeen(xs: seq<string>): seq<string>
    decreases |xs|
  {
    if |xs| == 0 then [] else AddUnique(FirstSeen(xs[..|xs| - 1]), xs[|xs| - 1])
  }

  predicate NoDuplicates(xs: seq<string>) {
    forall i, j :: 0 <= i < j < |xs| ==> xs[i] != xs[j]
  }

  /** The index of the first occurrence of `x` in `xs`, or `|xs|` when there is none. */
  function IndexOf(xs: seq<string>, x: string): (i: nat)
    ensures i <= |xs|
    ensures i < |xs| <==> x in xs
    ensures i < |xs| ==> xs[i] == x
    decreases |xs|
  {
    if |xs| == 0 then 0 else if xs[0] == x then 0 else 1 + IndexOf(xs[1..], x)
  }

  lemma {:induction false} IndexOfAppend(xs: seq<string>, y: string, x: string)
    ensures x in xs ==> IndexOf(xs + [y], x) == IndexOf(xs, x)
    ensures x !in xs && x == y ==> IndexOf(xs + [y], x) == |xs|
    decreases |xs|
  {
    if |xs| > 0 {
      assert (xs + [y])[0] == xs[0];
      assert (xs + [y])[1..] == xs[1..] + [y];
      IndexOfAppend(xs[1..], y, x);
    } else {
      assert xs + [y] == [y];
    }
  }

  lemma IndexOfDistinct(xs: seq<string>, i: nat)
    requires NoDuplicates(xs) && i < |xs|
    ensures IndexOf(xs, xs[i]) == i
  {
    var k := IndexOf(xs, xs[i]);
    assert xs[k] == xs[i];
  }

  /** The first-discovery list holds every name exactly once, in order of first discovery. */
  lemma {:induction false} FirstSeenSpec(xs: seq<string>)
    ensures NoDuplicates(FirstSeen(xs))
    ensures forall x :: x in FirstSeen(xs) <==> x in xs
    ensures forall i, j :: 0 <= i < j < |FirstSeen(xs)| ==>
      IndexOf(xs, FirstSeen(xs)[i]) < IndexOf(xs, FirstSeen(xs)[j])
    decreases |xs|
  {
    if |xs| > 0 {
      var p, y := xs[..|xs| - 1], xs[|xs| - 1];
      assert xs == p + [y];
      FirstSeenSpec(p);
      var rp := FirstSeen(p);
      var r := FirstSeen(xs);
      forall z | z in p ensures IndexOf(xs, z) == IndexOf(p, z) {
        IndexOfAppend(p, y, z);
      }
      if y in rp {
        assert r == rp;
      } else {
        assert r == rp + [y];
        IndexOfAppend(p, y, y);
        forall i, j | 0 <= i < j < |r| ensures IndexOf(xs, r[i]) < IndexOf(xs, r[j]) {
          if j == |rp| {
            assert r[i] == rp[i] && rp[i] in p;
          } else {
            assert r[i] == rp[i] && r[j] == rp[j];
          }
        }
      }
    }
  }

  /** A sequence without repetitions has as many elements as its set. */
  lemma {:induction false} DistinctCount(xs: seq<string>)
    requires NoDuplicates(xs)
    ensures |set x | x in xs| == |xs|
    decreases |xs|
  {
    if |xs| > 0 {
      var p := xs[..|xs| - 1];
      DistinctCount(p);
      var last := xs[|xs| - 1];
      assert xs == p + [last];
      assert (set x | x in xs) == (set x | x in p) + {last};
      assert last !in (set x | x in p);
    }
  }

  /** The number of names listed is the number of distinct names found. */
  lemma FirstSeenCount(xs: seq<string>)
    ensures |FirstSeen(xs)| == |set x | x in xs|
  {
    FirstSeenSpec(xs);
    DistinctCount(FirstSeen(xs));
    assert (set x | x in FirstSeen(xs)) == (set x | x in xs);
  }

  lemma {:induction false} NamespacesOfMembers(keys: seq<Key>)
    ensures forall k :: k in keys ==> k.ns in NamespacesOf(keys)
    ensures forall k :: k in keys ==> k.loc in LocalesOf(keys)
    decreases |keys|
  {
    if |keys| > 0 {
      var p := keys[..|keys| - 1];
      NamespacesOfMembers(p);
      assert keys == p + [keys[|keys| - 1]];
    }
  }

  /** `namespaces` of the pass. */
  function Namespaces(files: seq<Fragment>, defaultNS: string): seq<string> {
    FirstSeen(NamespacesOf(KeysOf(files, defaultNS)))
  }

  /** `localeTypes` of the pass. */
  function Locales(files: seq<Fragment>, defaultNS: string): seq<string> {
    FirstSeen(LocalesOf(KeysOf(files, defaultNS)))
  }

  // ---------------------------------------------------------------------------
  // The merged catalog (locales.ts:86-95, locales.js:80-89)
  // ---------------------------------------------------------------------------

  /** `locales`: namespace to locale to merged document. */
  type Catalog = map<string, map<string, Json>>

  predicate Occurs(c: Catalog, k: Key) {
    k.ns in c && k.loc in c[k.ns]
  }

  /** The value a fragment is merged into: the stored one, or `{}` when there is none or it is `null`. */
  function Prior(c: Catalog, k: Key): Json {
    if Occurs(c, k) && c[k.ns][k.loc] != Null then c[k.ns][k.loc] else EmptyObject
  }

  /** One iteration of the discovery loop: merge `v` into the entry of `k`, or `None` when the merge throws. */
  function Absorb(c: Catalog, k: Key, v: Json, arrays: ArrayMerge): Option<Catalog> {
    var inner := if k.ns in c then c[k.ns] else map[];
    match DeepMerge(Prior(c, k), v, arrays)
    case None => None
    case Some(merged) => Some(c[k.ns := inner[k.loc := merged]])
  }

  /**
   * The three statements of the loop body (create the namespace entry, reset
   * an absent or `null` locale entry to `{}`, merge) perform one Absorb, and
   * the merge throws exactly when Absorb fails.
   */
  lemma AbsorbInPlace(c: Catalog, k: Key, v: Json, arrays: ArrayMerge)
    ensures
      var c1 := if k.ns !in c then c[k.ns := map[]] else c;
      var c2 := if k.loc !in c1[k.ns] || c1[k.ns][k.loc] == Null then c1[k.ns := c1[k.ns][k.loc := EmptyObject]] else c1;
      var merged := DeepMerge(c2[k.ns][k.loc], v, arrays);
      && (merged.None? <==> Absorb(c, k, v, arrays).None?)
      && (merged.Some? ==> c2[k.ns := c2[k.ns][k.loc := merged.value]] == Absorb(c, k, v, arrays).value)
  {
    var inner := if k.ns in c then c[k.ns] else map[];
    var c1 := if k.ns !in c then c[k.ns := map[]] else c;
    var c2 := if k.loc !in c1[k.ns] || c1[k.ns][k.loc] == Null then c1[k.ns := c1[k.ns][k.loc := EmptyObject]] else c1;
    assert c2[k.ns][k.loc] == Prior(c, k);
    var merged := DeepMerge(Prior(c, k), v, arrays);
    if merged.Some? {
      assert c2[k.ns][k.loc := merged.value] == inner[k.loc := merged.value];
      assert Absorb(c, k, v, arrays) == Some(c[k.ns := inner[k.loc := merged.value]]);
    }
  }

  /** The catalog after the discovery loop has seen every file, or `None` when some merge threw. */
  function BuildCatalog(files: seq<Fragment>, defaultNS: string, arrays: ArrayMerge): Option<Catalog>
    decreases |files|
  {
    if |files| == 0 then Some(map[])
    else
      var f := files[|files| - 1];
      match BuildCatalog(files[..|files| - 1], defaultNS, arrays)
      case None => None
      case Some(c) => Absorb(c, DeriveKey(f.basename, defaultNS), f.content, arrays)
  }

  /** The contents of the files whose key is `k`, in glob order. */
  function ContentsFor(files: seq<Fragment>, defaultNS: string, k: Key): seq<Json>
    decreases |files|
  {
    if |files| == 0 then []
    else
      var f := files[|files| - 1];
      ContentsFor(files[..|files| - 1], defaultNS, k) + (if DeriveKey(f.basename, defaultNS) == k then [f.content] else [])
  }

  /** One step of the per-key fold: `null` so far counts as `{}`. */
  function MergeStep(acc: Json, v: Json, arrays: ArrayMerge): Option<Json> {
    DeepMerge(if acc == Null then EmptyObject else acc, v, arrays)
  }

  /** The left fold of the merge over `vs`, starting from `{}`; `None` once a step throws. */
  function FoldMerge(vs: seq<Json>, arrays: ArrayMerge): Option<Json>
    decreases |vs|
  {
    if |vs| == 0 then Some(EmptyObject)
    else
      match FoldMerge(vs[..|vs| - 1], arrays)
      case None => None
      case Some(acc) => MergeStep(acc, vs[|vs| - 1], arrays)
  }

  /**
   * A pair with a single fragment: an object or array is taken as it is, a
   * number or boolean leaves `{}`, and `null` makes the merge throw.
   */
  lemma FoldMergeSingle(v: Json, arrays: ArrayMerge)
    ensures FoldMerge([v], arrays) == DeepMerge(EmptyObject, v, arrays)
    ensures Mergeable(v) ==> FoldMerge([v], arrays) == Some(v)
    ensures v.Null? ==> FoldMerge([v], arrays).None?
    ensures v.Bool? || v.Num? ==> FoldMerge([v], arrays) == Some(EmptyObject)
  {
    assert [v][..0] == [];
    MergeIntoEmpty(v, arrays);
  }

  /** Absorbing a fragment for another key leaves the entry of `k` as it was. */
  lemma AbsorbOther(c: Catalog, kf: Key, v: Json, arrays: ArrayMerge, k: Key)
    requires kf != k && Absorb(c, kf, v, arrays).Some?
    ensures Occurs(Absorb(c, kf, v, arrays).value, k) <==> Occurs(c, k)
    ensures Occurs(c, k) ==> Absorb(c, kf, v, arrays).value[k.ns][k.loc] == c[k.ns][k.loc]
  {
  }

  /** Absorbing a fragment for `k` makes the entry of `k` the merge of the fragment into its prior value. */
  lemma AbsorbSame(c: Catalog, k: Key, v: Json, arrays: ArrayMerge)
    ensures Absorb(c, k, v, arrays).None? <==> DeepMerge(Prior(c, k), v, arrays).None?
    ensures Absorb(c, k, v, arrays).Some? ==>
      Occurs(Absorb(c, k, v, arrays).value, k) &&
      Some(Absorb(c, k, v, arrays).value[k.ns][k.loc]) == DeepMerge(Prior(c, k), v, arrays)
  {
  }

  /** The fold over one more fragment is one more merge step, and a failed fold stays failed. */
  lemma FoldMergeAppend(vs: seq<Json>, v: Json, arrays: ArrayMerge)
    ensures FoldMerge(vs, arrays).None? ==> FoldMerge(vs + [v], arrays).None?
    ensures FoldMerge(vs, arrays).Some? ==> FoldMerge(vs + [v], arrays) == MergeStep(FoldMerge(vs, arrays).value, v, arrays)
  {
    assert (vs + [v])[..|vs|] == vs;
  }

  /** The glob result grown by one file: its keys and its contents per key gain one step. */
  lemma LastFileStep(files: seq<Fragment>, defaultNS: string, k: Key)
    requires |files| > 0
    ensures var p, f := files[..|files| - 1], files[|files| - 1];
      && KeysOf(files, defaultNS) == KeysOf(p, defaultNS) + [DeriveKey(f.basename, defaultNS)]
      && ContentsFor(files, defaultNS, k) ==
           ContentsFor(p, defaultNS, k) + (if DeriveKey(f.basename, defaultNS) == k then [f.content] else [])
  {
  }

  /** A key occurs in the glob result exactly when some fragment is collected for it. */
  lemma {:induction false} KeysHaveContents(files: seq<Fragment>, defaultNS: string, k: Key)
    ensures k in KeysOf(files, defaultNS) <==> |ContentsFor(files, defaultNS, k)| > 0
    decreases |files|
  {
    if |files| > 0 {
      var p := files[..|files| - 1];
      KeysHaveContents(p, defaultNS, k);
      LastFileStep(files, defaultNS, k);
    }
  }

  /**
   * The one-pass grouping agrees with folding each key's files on their own:
   * when the pass succeeds, a pair is in the catalog exactly when some file
   * has that key, and its value is the left fold of the merge over those
   * files in glob order.
   */
  lemma {:induction false} CatalogByKey(files: seq<Fragment>, defaultNS: string, arrays: ArrayMerge, k: Key)
    ensures k in KeysOf(files, defaultNS) <==> |ContentsFor(files, defaultNS, k)| > 0
    ensures BuildCatalog(files, defaultNS, arrays).Some? ==>
      var c := BuildCatalog(files, defaultNS, arrays).value;
      && (Occurs(c, k) <==> k in KeysOf(files, defaultNS))
      && (Occurs(c, k) ==> FoldMerge(ContentsFor(files, defaultNS, k), arrays) == Some(c[k.ns][k.loc]))
    decreases |files|
  {
    KeysHaveContents(files, defaultNS, k);
    if |files| > 0 && BuildCatalog(files, defaultNS, arrays).Some? {
      var p := files[..|files| - 1];
      var f := files[|files| - 1];
      CatalogByKey(p, defaultNS, arrays, k);
      var kf := DeriveKey(f.basename, defaultNS);
      LastFileStep(files, defaultNS, k);
      var c := BuildCatalog(p, defaultNS, arrays).value;
      assert BuildCatalog(files, defaultNS, arrays) == Absorb(c, kf, f.content, arrays);
      var vs := ContentsFor(p, defaultNS, k);
      if kf == k {
        AbsorbSame(c, k, f.content, arrays);
        FoldMergeAppend(vs, f.content, arrays);
      } else {
        AbsorbOther(c, kf, f.content, arrays, k);
        assert vs + [] == vs;
        assert ContentsFor(files, defaultNS, k) == vs;
        assert k in KeysOf(files, defaultNS) <==> k in KeysOf(p, defaultNS);
      }
    }
  }

  /** The pass succeeds exactly when the fold of every pair's fragments succeeds. */
  lemma {:induction false} CatalogSucceeds(files: seq<Fragment>, defaultNS: string, arrays: ArrayMerge)
    ensures BuildCatalog(files, defaultNS, arrays).Some? <==>
      forall k :: k in KeysOf(files, defaultNS) ==> FoldMerge(ContentsFor(files, defaultNS, k), arrays).Some?
    decreases |files|
  {
    if |files| > 0 {
      var p := files[..|files| - 1];
      var f := files[|files| - 1];
      var kf := DeriveKey(f.basename, defaultNS);
      CatalogSucceeds(p, defaultNS, arrays);
      LastFileStep(files, defaultNS, kf);
      forall k | k in KeysOf(p, defaultNS) && k != kf
        ensures ContentsFor(files, defaultNS, k) == ContentsFor(p, defaultNS, k)
      {
        LastFileStep(files, defaultNS, k);
        assert ContentsFor(p, defaultNS, k) + [] == ContentsFor(p, defaultNS, k);
      }
      if BuildCatalog(p, defaultNS, arrays).None? {
        var k0 :| k0 in KeysOf(p, defaultNS) && FoldMerge(ContentsFor(p, defaultNS, k0), arrays).None?;
        LastFileStep(files, defaultNS, k0);
        FoldMergeAppend(ContentsFor(p, defaultNS, k0), f.content, arrays);
        assert ContentsFor(p, defaultNS, k0) + [] == ContentsFor(p, defaultNS, k0);
        assert k0 in KeysOf(files, defaultNS);
      } else {
        var c := BuildCatalog(p, defaultNS, arrays).value;
        CatalogByKey(p, defaultNS, arrays, kf);
        AbsorbSame(c, kf, f.content, arrays);
        var vs := ContentsFor(p, defaultNS, kf);
        FoldMergeAppend(vs, f.content, arrays);
        if kf !in KeysOf(p, defaultNS) {
          assert vs == [];
        }
        assert FoldMerge(ContentsFor(files, defaultNS, kf), arrays) == DeepMerge(Prior(c, kf), f.content, arrays);
        assert kf in KeysOf(files, defaultNS);
      }
    }
  }

  /** Once a prefix of the glob result fails, the whole pass fails. */
  lemma {:induction false} FailureStays(files: seq<Fragment>, j: nat, defaultNS: string, arrays: ArrayMerge)
    requires j <= |files| && BuildCatalog(files[..j], defaultNS, arrays).None?
    ensures BuildCatalog(files, defaultNS, arrays).None?
    decreases |files|
  {
    if j == |files| {
      assert files[..j] == files;
    } else {
      var p := files[..|files| - 1];
      assert p[..j] == files[..j];
      FailureStays(p, j, defaultNS, arrays);
    }
  }

  /** Extending the glob result by one file extends each of its derived lists by one step. */
  lemma PrefixStep(files: seq<Fragment>, i: nat, defaultNS: string, arrays: ArrayMerge)
    requires i < |files|
    ensures var k := DeriveKey(files[i].basename, defaultNS);
      && KeysOf(files[..i + 1], defaultNS) == KeysOf(files[..i], defaultNS) + [k]
      && LocalesOf(KeysOf(files[..i + 1], defaultNS)) == LocalesOf(KeysOf(files[..i], defaultNS)) + [k.loc]
      && NamespacesOf(KeysOf(files[..i + 1], defaultNS)) == NamespacesOf(KeysOf(files[..i], defaultNS)) + [k.ns]
      && (BuildCatalog(files[..i], defaultNS, arrays).Some? ==>
            BuildCatalog(files[..i + 1], defaultNS, arrays) == Absorb(BuildCatalog(files[..i], defaultNS, arrays).value, k, files[i].content, arrays))
  {
    var k := DeriveKey(files[i].basename, defaultNS);
    assert files[..i + 1][..i] == files[..i];
    var keys := KeysOf(files[..i], defaultNS);
    assert (keys + [k])[..|keys|] == keys;
  }

  /** One file more for the discovery loop: the lists grow by its names, and the catalog by its merge or the pass fails. */
  lemma CollectStep(files: seq<Fragment>, i: nat, defaultNS: string, arrays: ArrayMerge, c: Catalog)
    requires i < |files| && BuildCatalog(files[..i], defaultNS, arrays) == Some(c)
    ensures var k := DeriveKey(files[i].basename, defaultNS);
      && LocalesOf(KeysOf(files[..i + 1], defaultNS)) == LocalesOf(KeysOf(files[..i], defaultNS)) + [k.loc]
      && NamespacesOf(KeysOf(files[..i + 1], defaultNS)) == NamespacesOf(KeysOf(files[..i], defaultNS)) + [k.ns]
      && (Absorb(c, k, files[i].content, arrays).None? ==> BuildCatalog(files, defaultNS, arrays).None?)
      && (Absorb(c, k, files[i].content, arrays).Some? ==>
            BuildCatalog(files[..i + 1], defaultNS, arrays) == Absorb(c, k, files[i].content, arrays))
  {
    PrefixStep(files, i, defaultNS, arrays);
    if Absorb(c, DeriveKey(files[i].basename, defaultNS), files[i].content, arrays).None? {
      FailureStays(files, i + 1, defaultNS, arrays);
    }
  }

  /** Every namespace the catalog holds was discovered, and so was every locale of every pair. */
  lemma CatalogKeysListed(files: seq<Fragment>, defaultNS: string, arrays: ArrayMerge, k: Key)
    requires BuildCatalog(files, defaultNS, arrays).Some? && Occurs(BuildCatalog(files, defaultNS, arrays).value, k)
    ensures k.ns in Namespaces(files, defaultNS) && k.loc in Locales(files, defaultNS)
  {
    CatalogByKey(files, defaultNS, arrays, k);
    var keys := KeysOf(files, defaultNS);
    NamespacesOfMembers(keys);
    FirstSeenSpec(NamespacesOf(keys));
    FirstSeenSpec(LocalesOf(keys));
  }

  // ---------------------------------------------------------------------------
  // The files the writer emits (locales.ts:107-123, locales.js:101-117)
  // ---------------------------------------------------------------------------

  /** One `writeJson` of the pass: the pair and the document. */
  datatype Write = Write(key: Key, content: Json)

  /** `${namespace}.${locale}.json` */
  function FileName(k: Key): string {
    k.ns + "." + k.loc + ".json"
  }

  /** The inner loop: for one namespace, each locale in order whose pair occurred. */
  function RowPlan(c: Catalog, ns: string, locs: seq<string>): seq<Write>
    decreases |locs|
  {
    if |locs| == 0 then []
    else
      var loc := locs[|locs| - 1];
      RowPlan(c, ns, locs[..|locs| - 1]) +
        (if Occurs(c, Key(ns, loc)) then [Write(Key(ns, loc), c[ns][loc])] else [])
  }

  /** The nested loops: namespace-major over the discovered lists. */
  function Plan(c: Catalog, nss: seq<string>, locs: seq<string>): seq<Write>
    decreases |nss|
  {
    if |nss| == 0 then []
    else
      var ns := nss[|nss| - 1];
      Plan(c, nss[..|nss| - 1], locs) + (if ns in c then RowPlan(c, ns, locs) else [])
  }

  lemma RowPlanStep(c: Catalog, ns: string, locs: seq<string>, j: nat)
    requires j < |locs|
    ensures RowPlan(c, ns, locs[..j + 1]) == RowPlan(c, ns, locs[..j]) +
      (if Occurs(c, Key(ns, locs[j])) then [Write(Key(ns, locs[j]), c[ns][locs[j]])] else [])
  {
    assert locs[..j + 1][..j] == locs[..j];
  }

  lemma PlanStep(c: Catalog, nss: seq<string>, locs: seq<string>, i: nat)
    requires i < |nss|
    ensures Plan(c, nss[..i + 1], locs) == Plan(c, nss[..i], locs) + (if nss[i] in c then RowPlan(c, nss[i], locs) else [])
  {
    assert nss[..i + 1][..i] == nss[..i];
  }

  /** The writes of one run of the pass over `files`. */
  function ThreadPlan(files: seq<Fragment>, defaultNS: string, arrays: ArrayMerge): seq<Write>
    requires BuildCatalog(files, defaultNS, arrays).Some?
  {
    Plan(BuildCatalog(files, defaultNS, arrays).value, Namespaces(files, defaultNS), Locales(files, defaultNS))
  }

  /** No two writes are for the same pair. */
  predicate DistinctKeys(ws: seq<Write>) {
    forall i, j :: 0 <= i < j < |ws| ==> ws[i].key != ws[j].key
  }

  /** `k1` is written before `k2`: by namespace position, then by locale position. */
  predicate WrittenBefore(k1: Key, k2: Key, nss: seq<string>, locs: seq<string>) {
    IndexOf(nss, k1.ns) < IndexOf(nss, k2.ns) ||
    (k1.ns == k2.ns && IndexOf(locs, k1.loc) < IndexOf(locs, k2.loc))
  }

  lemma {:induction false} RowPlanMembers(c: Catalog, ns: string, locs: seq<string>)
    ensures forall w :: w in RowPlan(c, ns, locs) <==>
      w.key.ns == ns && w.key.loc in locs && Occurs(c, w.key) && w.content == c[w.key.ns][w.key.loc]
    decreases |locs|
  {
    if |locs| > 0 {
      var p := locs[..|locs| - 1];
      RowPlanMembers(c, ns, p);
      assert locs == p + [locs[|locs| - 1]];
    }
  }

  /** A write is planned exactly when its pair occurred and both names are listed, with the merged document. */
  lemma {:induction false} PlanMembers(c: Catalog, nss: seq<string>, locs: seq<string>)
    ensures forall w :: w in Plan(c, nss, locs) <==>
      w.key.ns in nss && w.key.loc in locs && Occurs(c, w.key) && w.content == c[w.key.ns][w.key.loc]
    decreases |nss|
  {
    if |nss| > 0 {
      var p := nss[..|nss| - 1];
      PlanMembers(c, p, locs);
      RowPlanMembers(c, nss[|nss| - 1], locs);
      assert nss == p + [nss[|nss| - 1]];
    }
  }

  lemma {:induction false} RowPlanOrdered(c: Catalog, ns: string, locs: seq<string>)
    requires NoDuplicates(locs)
    ensures DistinctKeys(RowPlan(c, ns, locs))
    ensures forall i, j :: 0 <= i < j < |RowPlan(c, ns, locs)| ==>
      IndexOf(locs, RowPlan(c, ns, locs)[i].key.loc) < IndexOf(locs, RowPlan(c, ns, locs)[j].key.loc)
    decreases |locs|
  {
    if |locs| > 0 {
      var p, loc := locs[..|locs| - 1], locs[|locs| - 1];
      assert locs == p + [loc];
      RowPlanOrdered(c, ns, p);
      RowPlanMembers(c, ns, p);
      var rp := RowPlan(c, ns, p);
      var r := RowPlan(c, ns, locs);
      forall w | w in rp ensures IndexOf(locs, w.key.loc) == IndexOf(p, w.key.loc) < |p| {
        IndexOfAppend(p, loc, w.key.loc);
      }
      if Occurs(c, Key(ns, loc)) {
        assert r == rp + [Write(Key(ns, loc), c[ns][loc])];
        assert loc !in p by {
          assert forall k :: 0 <= k < |p| ==> p[k] == locs[k] != locs[|locs| - 1];
        }
        IndexOfAppend(p, loc, loc);
        forall i, j | 0 <= i < j < |r|
          ensures r[i].key != r[j].key && IndexOf(locs, r[i].key.loc) < IndexOf(locs, r[j].key.loc)
        {
          assert r[i] == rp[i] && rp[i] in rp;
          if j < |rp| { assert r[j] == rp[j] && rp[j] in rp; }
        }
      } else {
        assert r == rp;
        forall i, j | 0 <= i < j < |r| ensures IndexOf(locs, r[i].key.loc) < IndexOf(locs, r[j].key.loc) {
          assert r[i] in rp && r[j] in rp;
        }
      }
    }
  }

  /** With duplicate-free lists each pair is written once, namespace-major. */
  lemma {:induction false} PlanOrdered(c: Catalog, nss: seq<string>, locs: seq<string>)
    requires NoDuplicates(nss) && NoDuplicates(locs)
    ensures DistinctKeys(Plan(c, nss, locs))
    ensures forall i, j :: 0 <= i < j < |Plan(c, nss, locs)| ==>
      WrittenBefore(Plan(c, nss, locs)[i].key, Plan(c, nss, locs)[j].key, nss, locs)
    decreases |nss|
  {
    if |nss| > 0 {
      var p, ns := nss[..|nss| - 1], nss[|nss| - 1];
      assert nss == p + [ns];
      assert NoDuplicates(p);
      PlanOrdered(c, p, locs);
      PlanMembers(c, p, locs);
      var pp := Plan(c, p, locs);
      var row := if ns in c then RowPlan(c, ns, locs) else [];
      var r := Plan(c, nss, locs);
      assert r == pp + row;
      assert ns !in p by {
        assert forall k :: 0 <= k < |p| ==> p[k] == nss[k] != nss[|nss| - 1];
      }
      forall w | w in pp ensures IndexOf(nss, w.key.ns) == IndexOf(p, w.key.ns) < |p| {
        IndexOfAppend(p, ns, w.key.ns);
      }
      IndexOfAppend(p, ns, ns);
      if ns in c {
        RowPlanOrdered(c, ns, locs);
        RowPlanMembers(c, ns, locs);
      }
      forall i, j | 0 <= i < j < |r|
        ensures r[i].key != r[j].key && WrittenBefore(r[i].key, r[j].key, nss, locs)
      {
        if j < |pp| {
          assert r[i] == pp[i] && r[j] == pp[j];
          assert pp[i] in pp && pp[j] in pp;
        } else if i < |pp| {
          assert r[i] == pp[i] && pp[i] in pp;
          assert r[j] == row[j - |pp|] && row[j - |pp|] in row;
        } else {
          assert r[i] == row[i - |pp|] && r[j] == row[j - |pp|];
          assert row[i - |pp|] in row && row[j - |pp|] in row;
        }
      }
    }
  }

  /**
   * One run writes exactly one document per pair that occurred in the glob
   * result, holding the fold of that pair's fragments, namespace-major in
   * discovery order; cross-product pairs that never occurred are skipped.
   */
  lemma CompiledExactly(files: seq<Fragment>, defaultNS: string, arrays: ArrayMerge)
    requires BuildCatalog(files, defaultNS, arrays).Some?
    ensures DistinctKeys(ThreadPlan(files, defaultNS, arrays))
    ensures forall w :: w in ThreadPlan(files, defaultNS, arrays) ==>
      w.key in KeysOf(files, defaultNS) && FoldMerge(ContentsFor(files, defaultNS, w.key), arrays) == Some(w.content)
    ensures forall k :: k in KeysOf(files, defaultNS) ==>
      FoldMerge(ContentsFor(files, defaultNS, k), arrays).Some? &&
      Write(k, FoldMerge(ContentsFor(files, defaultNS, k), arrays).value) in ThreadPlan(files, defaultNS, arrays)
    ensures forall i, j :: 0 <= i < j < |ThreadPlan(files, defaultNS, arrays)| ==>
      WrittenBefore(ThreadPlan(files, defaultNS, arrays)[i].key, ThreadPlan(files, defaultNS, arrays)[j].key,
        Namespaces(files, defaultNS), Locales(files, defaultNS))
  {
    var c := BuildCatalog(files, defaultNS, arrays).value;
    var nss, locs := Namespaces(files, defaultNS), Locales(files, defaultNS);
    FirstSeenSpec(NamespacesOf(KeysOf(files, defaultNS)));
    FirstSeenSpec(LocalesOf(KeysOf(files, defaultNS)));
    PlanOrdered(c, nss, locs);
    PlanMembers(c, nss, locs);
    forall w | w in ThreadPlan(files, defaultNS, arrays)
      ensures w.key in KeysOf(files, defaultNS) && FoldMerge(ContentsFor(files, defaultNS, w.key), arrays) == Some(w.content)
    {
      CatalogByKey(files, defaultNS, arrays, w.key);
    }
    forall k | k in KeysOf(files, defaultNS)
      ensures FoldMerge(ContentsFor(files, defaultNS, k), arrays).Some? &&
        Write(k, FoldMerge(ContentsFor(files, defaultNS, k), arrays).value) in ThreadPlan(files, defaultNS, arrays)
    {
      CatalogByKey(files, defaultNS, arrays, k);
      CatalogKeysListed(files, defaultNS, arrays, k);
    }
  }

  /** Every planned pair has a dot-free locale, because every derived key has one. */
  lemma {:induction false} KeysOfLocalesHaveNoDot(files: seq<Fragment>, defaultNS: string)
    ensures forall k :: k in KeysOf(files, defaultNS) ==> '.' !in k.loc
    decreases |files|
  {
    if |files| > 0 {
      KeysOfLocalesHaveNoDot(files[..|files| - 1], defaultNS);
      DeriveKeyLocaleHasNoDot(files[|files| - 1].basename, defaultNS);
    }
  }

  /** Distinct pairs with dot-free locales get distinct file names. */
  lemma FileNameInjective(k1: Key, k2: Key)
    requires '.' !in k1.loc && '.' !in k2.loc
    requires FileName(k1) == FileName(k2)
    ensures k1 == k2
  {
    var s1, s2 := k1.ns + "." + k1.loc, k2.ns + "." + k2.loc;
    assert FileName(k1) == s1 + ".json" && FileName(k2) == s2 + ".json";
    assert s1 == FileName(k1)[..|FileName(k1)| - 5];
    assert s2 == FileName(k2)[..|FileName(k2)| - 5];
    assert s1 == s2;
    assert s1[|s1| - |k1.loc| - 1] == '.' && s2[|s2| - |k2.loc| - 1] == '.';
    assert forall i :: |s1| - |k1.loc| <= i < |s1| ==> s1[i] != '.';
    assert forall i :: |s2| - |k2.loc| <= i < |s2| ==> s2[i] != '.';
    assert |k1.loc| == |k2.loc|;
    assert k1.loc == s1[|s1| - |k1.loc|..];
    assert k2.loc == s2[|s2| - |k2.loc|..];
    assert k1.ns == s1[..|k1.ns|];
    assert k2.ns == s2[..|k2.ns|];
  }

  /** The status string `run` returns. */
  function LoadedMessage(count: nat): string {
    "loaded " + NatToString(count) + " locales!"
  }

  /** `run` reports the number of distinct locales of the glob result, in decimal. */
  lemma LoadedCountsDistinctLocales(files: seq<Fragment>, defaultNS: string)
    ensures var msg := LoadedMessage(|Locales(files, defaultNS)|);
      var digits := msg[7..|msg| - 9];
      && msg[..7] == "loaded " && msg[|msg| - 9..] == " locales!"
      && (forall i :: 0 <= i < |digits| ==> IsDigit(digits[i]))
      && ParseDecimal(digits) == |set l | l in LocalesOf(KeysOf(files, defaultNS))|
  {
    var n := |Locales(files, defaultNS)|;
    var msg := LoadedMessage(n);
    assert msg[7..|msg| - 9] == NatToString(n);
    NatToStringRoundTrip(n);
    FirstSeenCount(LocalesOf(KeysOf(files, defaultNS)));
  }
}
