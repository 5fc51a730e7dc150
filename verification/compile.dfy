/**
 * The body of `thread`, shared by the two task files: the discovery loop that
 * groups and merges the fragments, and the writer that clears the output
 * directory and writes one file per pair that occurred (locales.ts:63-123,
 * locales.js:57-117). Each loop is proved against the functions of module
 * Catalog.
 */
module Compile {
  import opened Wrappers
  import opened Strings
  import opened Json
  import opened Catalog
  import opened Host

  /** The files the writes of `ws` leave in `dir`, later writes winning. */
  function Written(dir: Path, ws: seq<Write>): (r: map<Path, Json>)
    ensures forall p :: p in r ==> dir <= p
    decreases |ws|
  {
    if |ws| == 0 then map[]
    else
      var w := ws[|ws| - 1];
      Written(dir, ws[..|ws| - 1])[dir + [FileName(w.key)] := w.content]
  }

  /** The log entries of the writes of `ws`. */
  function WriteLog(dir: Path, ws: seq<Write>): (r: seq<Effect>)
    ensures |r| == |ws|
    ensures forall i :: 0 <= i < |ws| ==> r[i] == Wrote(dir + [FileName(ws[i].key)])
    decreases |ws|
  {
    if |ws| == 0 then [] else WriteLog(dir, ws[..|ws| - 1]) + [Wrote(dir + [FileName(ws[|ws| - 1].key)])]
  }

  lemma WrittenAppend(base: map<Path, Json>, log: seq<Effect>, dir: Path, ws: seq<Write>, w: Write)
    ensures (base + Written(dir, ws))[dir + [FileName(w.key)] := w.content] == base + Written(dir, ws + [w])
    ensures log + WriteLog(dir, ws) + [Wrote(dir + [FileName(w.key)])] == log + WriteLog(dir, ws + [w])
  {
    assert (ws + [w])[..|ws|] == ws;
  }

  /** The files written are those named by the writes. */
  lemma {:induction false} WrittenKeys(dir: Path, ws: seq<Write>)
    ensures Written(dir, ws).Keys == set w | w in ws :: dir + [FileName(w.key)]
    decreases |ws|
  {
    if |ws| > 0 {
      var p, last := ws[..|ws| - 1], ws[|ws| - 1];
      assert ws == p + [last];
      WrittenKeys(dir, p);
      assert (set w | w in ws :: dir + [FileName(w.key)])
          == (set w | w in p :: dir + [FileName(w.key)]) + {dir + [FileName(last.key)]};
    }
  }

  lemma PathsDiffer(dir: Path, k1: Key, k2: Key)
    requires '.' !in k1.loc && '.' !in k2.loc && k1 != k2
    ensures dir + [FileName(k1)] != dir + [FileName(k2)]
  {
    if dir + [FileName(k1)] == dir + [FileName(k2)] {
      assert FileName(k1) == (dir + [FileName(k1)])[|dir|];
      assert FileName(k2) == (dir + [FileName(k2)])[|dir|];
      FileNameInjective(k1, k2);
    }
  }

  /**
   * Writes for distinct pairs with dot-free locales leave exactly one file per
   * write in `dir`, holding that write's document.
   */
  lemma {:induction false} WrittenExact(dir: Path, ws: seq<Write>)
    requires DistinctKeys(ws)
    requires forall w :: w in ws ==> '.' !in w.key.loc
    ensures Written(dir, ws).Keys == set w | w in ws :: dir + [FileName(w.key)]
    ensures forall w :: w in ws ==> Written(dir, ws)[dir + [FileName(w.key)]] == w.content
    decreases |ws|
  {
    WrittenKeys(dir, ws);
    if |ws| > 0 {
      var p, last := ws[..|ws| - 1], ws[|ws| - 1];
      assert ws == p + [last];
      assert DistinctKeys(p);
      WrittenExact(dir, p);
      forall w | w in ws ensures Written(dir, ws)[dir + [FileName(w.key)]] == w.content {
        if w != last {
          var i :| 0 <= i < |ws| && ws[i] == w;
          assert i < |p|;
          assert w in p;
          PathsDiffer(dir, w.key, last.key);
        }
      }
    }
  }

  /**
   * After a run that clears `dir` and then writes `ws` there, every file under
   * `dir` is one of this run's writes, and nothing outside `dir` changed.
   */
  lemma NoStaleFiles(before: map<Path, Json>, dir: Path, ws: seq<Write>)
    ensures forall p :: p in Cleared(before, dir) + Written(dir, ws) && dir <= p ==> p in Written(dir, ws)
    ensures forall p :: !(dir <= p) ==>
      (p in Cleared(before, dir) + Written(dir, ws) <==> p in before) &&
      (p in before ==> (Cleared(before, dir) + Written(dir, ws))[p] == before[p])
  {
  }

  /**
   * The output directory after one compile run holds exactly one file
   * `${ns}.${loc}.json` per pair that occurred in the glob result, with the
   * fold of that pair's fragments; no file from a previous run survives, and
   * nothing outside the directory changed.
   */
  lemma CompiledDirectory(before: map<Path, Json>, dir: Path, files: seq<Fragment>, defaultNS: string, arrays: ArrayMerge)
    requires BuildCatalog(files, defaultNS, arrays).Some?
    ensures var after := Cleared(before, dir) + Written(dir, ThreadPlan(files, defaultNS, arrays));
      && (forall k :: k in KeysOf(files, defaultNS) ==>
            dir + [FileName(k)] in after && FoldMerge(ContentsFor(files, defaultNS, k), arrays) == Some(after[dir + [FileName(k)]]))
      && (forall p :: p in after && dir <= p ==> p in (set k | k in KeysOf(files, defaultNS) :: dir + [FileName(k)]))
      && (forall p :: !(dir <= p) ==> (p in after <==> p in before) && (p in before ==> after[p] == before[p]))
  {
    var ws := ThreadPlan(files, defaultNS, arrays);
    CompiledExactly(files, defaultNS, arrays);
    KeysOfLocalesHaveNoDot(files, defaultNS);
    WrittenExact(dir, ws);
    NoStaleFiles(before, dir, ws);
    var after := Cleared(before, dir) + Written(dir, ws);
    forall k | k in KeysOf(files, defaultNS)
      ensures dir + [FileName(k)] in after && FoldMerge(ContentsFor(files, defaultNS, k), arrays) == Some(after[dir + [FileName(k)]])
    {
      var w := Write(k, FoldMerge(ContentsFor(files, defaultNS, k), arrays).value);
      assert w in ws;
    }
    forall p | p in after && dir <= p
      ensures p in (set k | k in KeysOf(files, defaultNS) :: dir + [FileName(k)])
    {
      var w :| w in ws && p == dir + [FileName(w.key)];
      assert w.key in KeysOf(files, defaultNS);
    }
  }

  /**
   * The loop body's update of the pair's entry: create the namespace, reset
   * an absent or `null` locale entry to `{}`, merge the fragment. `ok` is
   * false where the merge throws.
   */
  method MergeFragment(locales: Catalog, k: Key, v: Json, arrays: ArrayMerge) returns (ok: bool, next: Catalog)
    ensures ok <==> Absorb(locales, k, v, arrays).Some?
    ensures ok ==> next == Absorb(locales, k, v, arrays).value
  {
    var namespace, locale := k.ns, k.loc;
    next := locales;
    if namespace !in next { next := next[namespace := map[]]; }
    if locale !in next[namespace] || next[namespace][locale] == Null {
      next := next[namespace := next[namespace][locale := EmptyObject]];
    }
    var merged := DeepMerge(next[namespace][locale], v, arrays);
    AbsorbInPlace(locales, k, v, arrays);
    if merged.None? {
      return false, next;
    }
    next := next[namespace := next[namespace][locale := merged.value]];
    ok := true;
  }

  /**
   * The discovery loop: key each file, record new names, merge into the
   * pair's entry. It stops with `ok` false where a merge throws, which
   * rejects the thread before anything is written.
   */
  method Collect(files: seq<Fragment>, defaultNS: string, arrays: ArrayMerge)
    returns (ok: bool, locales: Catalog, localeTypes: seq<string>, namespaces: seq<string>)
    ensures ok <==> BuildCatalog(files, defaultNS, arrays).Some?
    ensures ok ==> locales == BuildCatalog(files, defaultNS, arrays).value
    ensures ok ==> localeTypes == Locales(files, defaultNS) && namespaces == Namespaces(files, defaultNS)
  {
    locales, localeTypes, namespaces := map[], [], [];
    for i := 0 to |files|
      invariant BuildCatalog(files[..i], defaultNS, arrays) == Some(locales)
      invariant localeTypes == FirstSeen(LocalesOf(KeysOf(files[..i], defaultNS)))
      invariant namespaces == FirstSeen(NamespacesOf(KeysOf(files[..i], defaultNS)))
    {
      var k := DeriveKey(files[i].basename, defaultNS);
      var namespace, locale := k.ns, k.loc;

      if locale !in localeTypes { localeTypes := localeTypes + [locale]; }
      if namespace !in namespaces { namespaces := namespaces + [namespace]; }

      CollectStep(files, i, defaultNS, arrays, locales);
      var merged;
      merged, locales := MergeFragment(locales, k, files[i].content, arrays);
      if !merged {
        return false, locales, localeTypes, namespaces;
      }
    }
    assert files[..|files|] == files;
    ok := true;
  }

  /** Writing `ws` and then `vs` leaves what writing `ws + vs` leaves. */
  lemma {:induction false} WrittenConcat(base: map<Path, Json>, log: seq<Effect>, dir: Path, ws: seq<Write>, vs: seq<Write>)
    ensures base + Written(dir, ws) + Written(dir, vs) == base + Written(dir, ws + vs)
    ensures log + WriteLog(dir, ws) + WriteLog(dir, vs) == log + WriteLog(dir, ws + vs)
    decreases |vs|
  {
    if |vs| == 0 {
      assert ws + vs == ws;
    } else {
      var p, v := vs[..|vs| - 1], vs[|vs| - 1];
      WrittenConcat(base, log, dir, ws, p);
      assert vs == p + [v];
      assert ws + vs == (ws + p) + [v];
      WrittenAppend(base + Written(dir, ws), log + WriteLog(dir, ws), dir, p, v);
      WrittenAppend(base, log, dir, ws + p, v);
    }
  }

  /** The inner loop of the writer: each locale in order whose pair occurred under `namespace`. */
  method WriteRow(host: Machine, dir: Path, locales: Catalog, namespace: string, localeTypes: seq<string>)
    requires namespace in locales
    modifies host
    ensures host.files == old(host.files) + Written(dir, RowPlan(locales, namespace, localeTypes))
    ensures host.pending == old(host.pending)
    ensures host.log == old(host.log) + WriteLog(dir, RowPlan(locales, namespace, localeTypes))
  {
    ghost var base, baseLog := host.files, host.log;
    assert base + map[] == base && baseLog + [] == baseLog;
    for j := 0 to |localeTypes|
      invariant host.files == base + Written(dir, RowPlan(locales, namespace, localeTypes[..j]))
      invariant host.log == baseLog + WriteLog(dir, RowPlan(locales, namespace, localeTypes[..j]))
      invariant host.pending == old(host.pending)
    {
      var locale := localeTypes[j];
      ghost var row := RowPlan(locales, namespace, localeTypes[..j]);
      RowPlanStep(locales, namespace, localeTypes, j);
      if locale in locales[namespace] {
        var w := Write(Key(namespace, locale), locales[namespace][locale]);
        WrittenAppend(base, baseLog, dir, row, w);
        host.WriteJson(dir + [FileName(Key(namespace, locale))], locales[namespace][locale]);
      } else {
        assert row + [] == row;
      }
    }
    assert localeTypes[..|localeTypes|] == localeTypes;
  }

  /** The writer: clear `dir`, then the nested namespace/locale loops. */
  method WriteCatalog(host: Machine, dir: Path, locales: Catalog, namespaces: seq<string>, localeTypes: seq<string>)
    modifies host
    ensures host.files == Cleared(old(host.files), dir) + Written(dir, Plan(locales, namespaces, localeTypes))
    ensures host.pending == old(host.pending)
    ensures host.log == old(host.log) + [Removed(dir), MadeDir(dir)] + WriteLog(dir, Plan(locales, namespaces, localeTypes))
  {
    host.Remove(dir);
    host.EnsureDir(dir);
    ghost var base, baseLog := host.files, host.log;
    assert base + map[] == base && baseLog + [] == baseLog;
    for i := 0 to |namespaces|
      invariant host.files == base + Written(dir, Plan(locales, namespaces[..i], localeTypes))
      invariant host.log == baseLog + WriteLog(dir, Plan(locales, namespaces[..i], localeTypes))
      invariant host.pending == old(host.pending)
    {
      var namespace := namespaces[i];
      ghost var done := Plan(locales, namespaces[..i], localeTypes);
      PlanStep(locales, namespaces, localeTypes, i);
      if namespace in locales {
        WriteRow(host, dir, locales, namespace, localeTypes);
        WrittenConcat(base, baseLog, dir, done, RowPlan(locales, namespace, localeTypes));
      } else {
        assert done + [] == done;
      }
    }
    assert namespaces[..|namespaces|] == namespaces;
  }
}
