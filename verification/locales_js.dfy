/**
 * The older JavaScript locale task (bundles/locale/tasks/locales.js): the
 * same pass, writing under `data/www/locales`; the manifest goes to a cache
 * file by a write that is issued but not awaited, and `run` restarts the
 * server once the thread has returned.
 */
module LocalesJs {
  import opened Wrappers
  import opened Json
  import opened Catalog
  import opened Host
  import opened Compile

  /** `path.join(appRoot, 'data', 'www', 'locales')` */
  function DataDir(appRoot: Path): (dir: Path)
    ensures |dir| == |appRoot| + 3 && appRoot <= dir
  {
    appRoot + ["data", "www", "locales"]
  }

  /** `${appRoot}/.edenjs/.cache/locale.json` */
  function CachePath(appRoot: Path): (p: Path)
    ensures |p| == |appRoot| + 3 && appRoot <= p
  {
    appRoot + [".edenjs", ".cache", "locale.json"]
  }

  /** The manifest cache file lies outside the directory the pass clears. */
  lemma CacheOutsideData(appRoot: Path)
    ensures !(DataDir(appRoot) <= CachePath(appRoot))
  {
    assert DataDir(appRoot)[|appRoot|] == "data";
    assert CachePath(appRoot)[|appRoot|] == ".edenjs";
  }

  class LocalesTask {
    /** The machine the task's runner acts on. */
    const host: Machine

    constructor(host: Machine)
      ensures this.host == host
    {
      this.host := host;
    }

    /**
     * `thread(data)`: compile into `data/www/locales`, then issue the
     * manifest write. `ok` is false for a rejected thread: a merge threw
     * during discovery, before anything on disk changed.
     */
    method Thread(files: seq<Fragment>, appRoot: Path, namespace: string, arrays: ArrayMerge) returns (ok: bool)
      modifies host
      ensures ok <==> BuildCatalog(files, namespace, arrays).Some?
      ensures !ok ==> host.files == old(host.files) && host.pending == old(host.pending) && host.log == old(host.log)
      ensures ok ==>
        && host.files == Cleared(old(host.files), DataDir(appRoot)) + Written(DataDir(appRoot), ThreadPlan(files, namespace, arrays))
        && host.pending == old(host.pending) + [(CachePath(appRoot), ManifestJson(Manifest(Locales(files, namespace), Namespaces(files, namespace))))]
        && host.log == old(host.log) + [Removed(DataDir(appRoot)), MadeDir(DataDir(appRoot))]
          + WriteLog(DataDir(appRoot), ThreadPlan(files, namespace, arrays)) + [Issued(CachePath(appRoot))]
    {
      var locales, localeTypes, namespaces;
      ok, locales, localeTypes, namespaces := Collect(files, namespace, arrays);
      if !ok {
        return;
      }
      var frontend := DataDir(appRoot);
      WriteCatalog(host, frontend, locales, namespaces, localeTypes);
      host.IssueWriteJson(CachePath(appRoot), ManifestJson(Manifest(localeTypes, namespaces)));
    }

    /**
     * `run(files)`: the pass with the configured default namespace, then the
     * restart. `ok` is false for a rejected run, which does not restart.
     */
    method Run(files: seq<Fragment>, appRoot: Path, configuredNS: Option<string>, arrays: ArrayMerge) returns (ok: bool)
      modifies host
      ensures var ns := DefaultNamespace(configuredNS);
        && (ok <==> BuildCatalog(files, ns, arrays).Some?)
        && (!ok ==> host.files == old(host.files) && host.pending == old(host.pending) && host.log == old(host.log))
        && (ok ==>
          && host.files == Cleared(old(host.files), DataDir(appRoot)) + Written(DataDir(appRoot), ThreadPlan(files, ns, arrays))
          && host.pending == old(host.pending) + [(CachePath(appRoot), ManifestJson(Manifest(Locales(files, ns), Namespaces(files, ns))))]
          && host.log == old(host.log) + [Removed(DataDir(appRoot)), MadeDir(DataDir(appRoot))]
            + WriteLog(DataDir(appRoot), ThreadPlan(files, ns, arrays)) + [Issued(CachePath(appRoot)), Restarted])
    {
      ok := Thread(files, appRoot, DefaultNamespace(configuredNS), arrays);
      if !ok {
        return;
      }
      host.Restart();
    }
  }

  /**
   * In the log of a run, every catalog write precedes the manifest write,
   * which is only issued, and the restart comes after all of them; the
   * manifest may still be pending when the restart happens, as nothing in
   * the run awaits a write to its path.
   */
  lemma RunOrder(before: seq<Effect>, dir: Path, ws: seq<Write>, cache: Path)
    requires !(dir <= cache)
    ensures var log := before + [Removed(dir), MadeDir(dir)] + WriteLog(dir, ws) + [Issued(cache), Restarted];
      && |log| == |before| + |ws| + 4
      && log[|before|] == Removed(dir) && log[|before| + 1] == MadeDir(dir)
      && (forall i :: |before| + 2 <= i < |before| + 2 + |ws| ==> log[i].Wrote? && dir <= log[i].path)
      && log[|log| - 2] == Issued(cache)
      && log[|log| - 1] == Restarted
      && Wrote(cache) !in log[|before|..]
  {
    var log := before + [Removed(dir), MadeDir(dir)] + WriteLog(dir, ws) + [Issued(cache), Restarted];
    forall i | |before| + 2 <= i < |before| + 2 + |ws| ensures log[i].Wrote? && dir <= log[i].path {
      assert log[i] == WriteLog(dir, ws)[i - |before| - 2];
    }
    var tail := log[|before|..];
    forall i | 0 <= i < |tail| ensures tail[i] != Wrote(cache) {
      if 2 <= i < 2 + |ws| {
        assert tail[i] == log[|before| + i];
      }
    }
  }
}
