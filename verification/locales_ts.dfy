/**
 * The TypeScript locale task (bundles/locale/tasks/locales.ts): `thread` runs
 * the compile pass and writes the catalog under `www/locales`, returning the
 * manifest; `run` writes the manifest into the generated index module,
 * restarts the server and reports how many locales were loaded.
 */
module LocalesTs {
  import opened Wrappers
  import opened Json
  import opened Catalog
  import opened Host
  import opened Compile

  /** `path.join(appRoot, 'www', 'locales')` */
  function FrontendDir(appRoot: Path): (dir: Path)
    ensures |dir| == |appRoot| + 2 && appRoot <= dir
  {
    appRoot + ["www", "locales"]
  }

  /** The generated index module the manifest goes into. */
  const IndexName: string := ".index/locale.js"

  class LocalesTask {
    /** The machine the task's `cli` acts on. */
    const host: Machine

    constructor(host: Machine)
      ensures this.host == host
    {
      this.host := host;
    }

    /**
     * `thread(data)`: compile the glob result `files` into `www/locales`.
     * `None` is a rejected thread: a merge threw during discovery, before
     * anything on disk changed.
     */
    method Thread(files: seq<Fragment>, appRoot: Path, namespace: string, arrays: ArrayMerge) returns (m: Option<Manifest>)
      modifies host
      ensures m.Some? <==> BuildCatalog(files, namespace, arrays).Some?
      ensures m.None? ==> host.files == old(host.files) && host.pending == old(host.pending) && host.log == old(host.log)
      ensures m.Some? ==>
        && m.value == Manifest(Locales(files, namespace), Namespaces(files, namespace))
        && host.files == Cleared(old(host.files), FrontendDir(appRoot)) + Written(FrontendDir(appRoot), ThreadPlan(files, namespace, arrays))
        && host.pending == old(host.pending)
        && host.log == old(host.log) + [Removed(FrontendDir(appRoot)), MadeDir(FrontendDir(appRoot))]
          + WriteLog(FrontendDir(appRoot), ThreadPlan(files, namespace, arrays))
    {
      var ok, locales, localeTypes, namespaces := Collect(files, namespace, arrays);
      if !ok {
        return None;
      }
      var frontend := FrontendDir(appRoot);
      WriteCatalog(host, frontend, locales, namespaces, localeTypes);
      m := Some(Manifest(localeTypes, namespaces));
    }

    /**
     * `run(files)`: the pass with the configured default namespace, then the
     * index module, then the restart, then the status string. `None` is a
     * rejected run: the thread rejected, and neither the index nor the
     * restart happens.
     */
    method Run(files: seq<Fragment>, appRoot: Path, configuredNS: Option<string>, arrays: ArrayMerge) returns (status: Option<string>)
      modifies host
      ensures var ns := DefaultNamespace(configuredNS);
        && (status.Some? <==> BuildCatalog(files, ns, arrays).Some?)
        && (status.None? ==> host.files == old(host.files) && host.pending == old(host.pending) && host.log == old(host.log))
        && (status.Some? ==>
          && status.value == LoadedMessage(|Locales(files, ns)|)
          && host.files == Cleared(old(host.files), FrontendDir(appRoot)) + Written(FrontendDir(appRoot), ThreadPlan(files, ns, arrays))
          && host.pending == old(host.pending)
          && host.log == old(host.log) + [Removed(FrontendDir(appRoot)), MadeDir(FrontendDir(appRoot))]
            + WriteLog(FrontendDir(appRoot), ThreadPlan(files, ns, arrays))
            + [IndexWritten(IndexName, ManifestJson(Manifest(Locales(files, ns), Namespaces(files, ns)))), Restarted])
    {
      var data := Thread(files, appRoot, DefaultNamespace(configuredNS), arrays);
      if data.None? {
        return None;
      }
      host.WriteIndex(IndexName, ManifestJson(data.value));
      host.Restart();
      status := Some(LoadedMessage(|data.value.locales|));
    }
  }

  /**
   * In the log of a run, the directory is cleared and created before any
   * write, every catalog write precedes the index write, and the restart
   * comes last.
   */
  lemma RunOrder(before: seq<Effect>, dir: Path, ws: seq<Write>, index: Json)
    ensures var log := before + [Removed(dir), MadeDir(dir)] + WriteLog(dir, ws) + [IndexWritten(IndexName, index), Restarted];
      && |log| == |before| + |ws| + 4
      && log[|before|] == Removed(dir) && log[|before| + 1] == MadeDir(dir)
      && (forall i :: |before| + 2 <= i < |before| + 2 + |ws| ==> log[i].Wrote? && dir <= log[i].path)
      && log[|log| - 2] == IndexWritten(IndexName, index)
      && log[|log| - 1] == Restarted
  {
    var log := before + [Removed(dir), MadeDir(dir)] + WriteLog(dir, ws) + [IndexWritten(IndexName, index), Restarted];
    forall i | |before| + 2 <= i < |before| + 2 + |ws| ensures log[i].Wrote? && dir <= log[i].path {
      assert log[i] == WriteLog(dir, ws)[i - |before| - 2];
    }
  }
}
