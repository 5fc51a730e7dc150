/**
 * The effects the locale tasks have on the machine they run on: the files on
 * disk (fs-extra's remove, ensureDir and writeJson), writes issued without
 * being awaited, the CLI's index file and the restart signal. Every effect is
 * also appended to a log, so that the order of effects can be stated.
 */
module Host {
  import opened Json

  /** A file path, as its segments. */
  type Path = seq<string>

  datatype Effect =
    | Removed(dir: Path)
    | MadeDir(dir: Path)
    | Wrote(path: Path)
    | Issued(path: Path)
    | IndexWritten(name: string, data: Json)
    | Restarted

  /** The files left after `fs.remove(dir)`: everything not under `dir`. */
  function Cleared(files: map<Path, Json>, dir: Path): (r: map<Path, Json>)
    ensures forall p :: p in r <==> p in files && !(dir <= p)
    ensures forall p :: p in r ==> r[p] == files[p]
  {
    map p | p in files && !(dir <= p) :: files[p]
  }

  class Machine {
    /** The files on disk, path to parsed JSON. */
    var files: map<Path, Json>
    /** Writes issued and not awaited, oldest first. */
    var pending: seq<(Path, Json)>
    var log: seq<Effect>

    constructor(files: map<Path, Json>)
      ensures this.files == files && pending == [] && log == []
    {
      this.files := files;
      pending := [];
      log := [];
    }

    /** `await fs.remove(dir)` */
    method Remove(dir: Path)
      modifies this
      ensures files == Cleared(old(files), dir)
      ensures pending == old(pending) && log == old(log) + [Removed(dir)]
    {
      files := Cleared(files, dir);
      log := log + [Removed(dir)];
    }

    /** `await fs.ensureDir(dir)`: directories are implicit in the paths. */
    method EnsureDir(dir: Path)
      modifies this
      ensures files == old(files) && pending == old(pending) && log == old(log) + [MadeDir(dir)]
    {
      log := log + [MadeDir(dir)];
    }

    /** `await fs.writeJson(path, value)` */
    method WriteJson(path: Path, value: Json)
      modifies this
      ensures files == old(files)[path := value]
      ensures pending == old(pending) && log == old(log) + [Wrote(path)]
    {
      files := files[path := value];
      log := log + [Wrote(path)];
    }

    /** `fs.writeJson(path, value)` without `await`: issued, completion unknown. */
    method IssueWriteJson(path: Path, value: Json)
      modifies this
      ensures files == old(files)
      ensures pending == old(pending) + [(path, value)] && log == old(log) + [Issued(path)]
    {
      pending := pending + [(path, value)];
      log := log + [Issued(path)];
    }

    /** `cli.write(name, ...)` of the generated index module holding `data`. */
    method WriteIndex(name: string, data: Json)
      modifies this
      ensures files == old(files) && pending == old(pending)
      ensures log == old(log) + [IndexWritten(name, data)]
    {
      log := log + [IndexWritten(name, data)];
    }

    /** `cli.emit('restart')` / `runner.restart()` */
    method Restart()
      modifies this
      ensures files == old(files) && pending == old(pending) && log == old(log) + [Restarted]
    {
      log := log + [Restarted];
    }
  }
}
