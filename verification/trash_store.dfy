/**
 The trash operation as the test suite observes it, over a file system
 modelled as a map from absolute path to file contents.

 The `freedesktop`, `trash_cli` and `gio` strategies move `<pwd>/<name>` to
 `<data home>/Trash/files/<name>` and write the record
 `<data home>/Trash/info/<name>.trashinfo`.  The macOS strategies move it to
 `<home>/.Trash/<name>`.  An unknown strategy name is rejected before
 anything is touched.
 */
module TrashStore {
  import opened Bytes
  import opened Wrappers
  import opened Xdg
  import opened Strategies
  import opened TrashInfo

  /** Regular files by absolute path; directories exist implicitly. */
  type FileSystem = map<Bytes, Bytes>

  /** The parts of the process environment the operation reads. */
  datatype Environment = Environment(xdgDataHome: Option<Bytes>, home: Bytes, pwd: Bytes)

  /** Why a request fails: an unknown strategy, a missing source, or a trash name already in use. */
  datatype TrashError =
    | Unresolved(reason: ResolutionError)
    | NotFound(path: Bytes)
    | NameTaken(name: Bytes)

  /** One trashed file: where it was, where its bytes and its record now are, and when it was trashed. */
  datatype TrashEntry = TrashEntry(originalPath: Bytes, trashedFile: Bytes, infoFile: Bytes, deleted: Timestamp)

  /** The result of a successful request, with the strategy that carried it out. */
  datatype Outcome =
    | Trashed(strategy: Strategy, entry: TrashEntry)
    | Moved(strategy: Strategy, originalPath: Bytes, trashedFile: Bytes)
  {
    /** Where the file's bytes are after the request. */
    function Destination(): (path: Bytes)
    {
      if Trashed? then entry.trashedFile else trashedFile
    }
  }

  /** A state change of the file system together with its result. */
  datatype Step<T> = Step(result: Result<T, TrashError>, fs: FileSystem)

  /** `Trash` under the XDG data home. */
  function TrashDirectory(env: Environment): (dir: Bytes)
  {
    DataHome(env.xdgDataHome, env.home) + "/Trash"
  }

  /** The file the test creates and trashes: `name` in the working directory. */
  function SourcePath(env: Environment, name: Bytes): (path: Bytes)
  {
    env.pwd + [Slash] + name
  }

  /** Where the freedesktop layout puts the file's bytes. */
  function FilesPath(env: Environment, name: Bytes): (path: Bytes)
  {
    TrashDirectory(env) + "/files/" + name
  }

  /** Where the freedesktop layout puts the `.trashinfo` record. */
  function InfoPath(env: Environment, name: Bytes): (path: Bytes)
  {
    TrashDirectory(env) + "/info/" + name + ".trashinfo"
  }

  /** The macOS user trash entry for `name`. */
  function MacTrashPath(env: Environment, name: Bytes): (path: Bytes)
  {
    env.home + "/.Trash/" + name
  }

  /** A file name in the working directory, as the tests pass it. */
  predicate ValidName(name: Bytes)
  {
    |name| > 0 && Free(name, Slash) && name != "." && name != ".."
  }

  /** Renames `from` to `to`, which must be free: the bytes move, and every other path is untouched. */
  function Move(fs: FileSystem, from: Bytes, to: Bytes): (fs': FileSystem)
    requires from in fs && to !in fs
    ensures from !in fs' && to in fs' && fs'[to] == fs[from]
    ensures forall p :: p != from && p != to ==> (p in fs' <==> p in fs) && (p in fs ==> fs'[p] == fs[p])
  {
    (fs - {from})[to := fs[from]]
  }

  /** The bytes of a file and its record never land on the same path. */
  lemma FilesPathIsNotInfoPath(env: Environment, name: Bytes)
    ensures FilesPath(env, name) != InfoPath(env, name)
  {
    var t := TrashDirectory(env);
    assert FilesPath(env, name)[|t| + 1] == 'f';
    assert InfoPath(env, name)[|t| + 1] == 'i';
  }

  /**
   The freedesktop.org trash.  The source must exist, and neither the
   destination nor its record may exist yet (no successful trash ever
   overwrites an earlier entry); then the source is removed, its bytes
   appear under `files/` and its record under `info/`, and nothing else
   changes.  On failure nothing changes at all.
   */
  function FreedesktopTrash(fs: FileSystem, env: Environment, name: Bytes, now: Timestamp): (step: Step<TrashEntry>)
    requires ValidName(name) && Printable(now)
    ensures var source, trashed, info := SourcePath(env, name), FilesPath(env, name), InfoPath(env, name);
      && (step.result.Success? <==> source in fs && trashed !in fs && info !in fs)
      && (step.result.Failure? ==> step.fs == fs)
      && (source !in fs ==> step.result == Failure(NotFound(source)))
      && (step.result.Success? ==>
            && step.result.value == TrashEntry(source, trashed, info, now)
            && source !in step.fs
            && trashed in step.fs && step.fs[trashed] == fs[source]
            && info in step.fs && step.fs[info] == FormatTrashInfo(source, now)
            && PassesTestChecks(step.fs[info], env.pwd, name)
            && (forall p :: p != source && p != trashed && p != info ==>
                  (p in step.fs <==> p in fs) && (p in fs ==> step.fs[p] == fs[p])))
  {
    var source, trashed, info := SourcePath(env, name), FilesPath(env, name), InfoPath(env, name);
    if source !in fs then Step(Failure(NotFound(source)), fs)
    else if trashed in fs || info in fs then Step(Failure(NameTaken(name)), fs)
    else
      FilesPathIsNotInfoPath(env, name);
      FormatPassesTestChecks(env.pwd, name, now);
      var moved := Move(fs, source, trashed);
      Step(Success(TrashEntry(source, trashed, info, now)), moved[info := FormatTrashInfo(source, now)])
  }

  /**
   The macOS trash: the source must exist and `~/.Trash/<name>` must not;
   then the file is moved there with its bytes, and nothing else changes.
   On failure nothing changes at all.
   */
  function MacosTrash(fs: FileSystem, env: Environment, name: Bytes): (step: Step<Bytes>)
    requires ValidName(name)
    ensures var source, trashed := SourcePath(env, name), MacTrashPath(env, name);
      && (step.result.Success? <==> source in fs && trashed !in fs)
      && (step.result.Failure? ==> step.fs == fs)
      && (source !in fs ==> step.result == Failure(NotFound(source)))
      && (step.result.Success? ==>
            && step.result.value == trashed
            && source !in step.fs
            && trashed in step.fs && step.fs[trashed] == fs[source]
            && (forall p :: p != source && p != trashed ==>
                  (p in step.fs <==> p in fs) && (p in fs ==> step.fs[p] == fs[p])))
  {
    var source, trashed := SourcePath(env, name), MacTrashPath(env, name);
    if source !in fs then Step(Failure(NotFound(source)), fs)
    else if trashed in fs then Step(Failure(NameTaken(name)), fs)
    else Step(Success(trashed), Move(fs, source, trashed))
  }

  /**
   One request of the `trash` command: resolve the strategy named by
   `TRASH_STRATEGY`, then trash `<pwd>/<name>` with it.  Whatever the
   strategy, a successful request leaves the source gone and its bytes at the
   destination, and a failed one leaves the file system as it was.
   */
  method Trash(fs: FileSystem, env: Environment, strategyName: Bytes, name: Bytes, now: Timestamp)
    returns (outcome: Result<Outcome, TrashError>, fs': FileSystem)
    requires ValidName(name) && Printable(now)
    ensures outcome.Failure? ==> fs' == fs
    ensures outcome.Success? ==>
      && SourcePath(env, name) in fs && SourcePath(env, name) !in fs'
      && outcome.value.Destination() in fs' && fs'[outcome.value.Destination()] == fs[SourcePath(env, name)]
    ensures Resolve(strategyName).Failure? ==>
      outcome == Failure(Unresolved(UnknownStrategy(strategyName)))
    ensures Resolve(strategyName).Success? && FreedesktopLayout(Resolve(strategyName).value) ==>
      var step := FreedesktopTrash(fs, env, name, now);
      && fs' == step.fs
      && (step.result.Success? ==> outcome == Success(Trashed(Resolve(strategyName).value, step.result.value)))
      && (step.result.Failure? ==> outcome == Failure(step.result.error))
    ensures Resolve(strategyName).Success? && !FreedesktopLayout(Resolve(strategyName).value) ==>
      var step := MacosTrash(fs, env, name);
      && fs' == step.fs
      && (step.result.Success? ==>
            outcome == Success(Moved(Resolve(strategyName).value, SourcePath(env, name), step.result.value)))
      && (step.result.Failure? ==> outcome == Failure(step.result.error))
  {
    var resolved := Resolve(strategyName);
    if resolved.Failure? {
      return Failure(Unresolved(resolved.error)), fs;
    }
    var strategy := resolved.value;
    if FreedesktopLayout(strategy) {
      var step := FreedesktopTrash(fs, env, name, now);
      fs' := step.fs;
      match step.result {
        case Success(entry) => outcome := Success(Trashed(strategy, entry));
        case Failure(e) => outcome := Failure(e);
      }
    } else {
      var step := MacosTrash(fs, env, name);
      fs' := step.fs;
      match step.result {
        case Success(trashed) => outcome := Success(Moved(strategy, SourcePath(env, name), trashed));
        case Failure(e) => outcome := Failure(e);
      }
    }
  }

  /**
   Trashing a second file of the same name, after the first was trashed,
   fails and leaves the first entry's bytes and record as they were.
   */
  lemma SecondTrashKeepsFirst(fs: FileSystem, env: Environment, name: Bytes, first: Timestamp,
                              contents: Bytes, second: Timestamp)
    requires ValidName(name) && Printable(first) && Printable(second)
    requires FreedesktopTrash(fs, env, name, first).result.Success?
    ensures var fs1 := FreedesktopTrash(fs, env, name, first).fs;
      var fs2 := fs1[SourcePath(env, name) := contents];
      var step := FreedesktopTrash(fs2, env, name, second);
      && step.result == Failure(NameTaken(name))
      && step.fs[FilesPath(env, name)] == fs[SourcePath(env, name)]
      && step.fs[InfoPath(env, name)] == FormatTrashInfo(SourcePath(env, name), first)
  {
  }
}
