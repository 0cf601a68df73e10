/** The earlier version of the storage package: records hold only the path
    and the pinned branches, the repository is the working directory, and
    there is no last-branch tracking and no pruning setting. File access is
    not modelled, as in `Storage`; the error values and the defaults are the
    same. */
module LegacyStorage {
  import opened Wrappers
  import opened Seqs
  import opened Text
  import opened PinnedList
  import S = Storage

  datatype RepositoryConfig = RepositoryConfig(path: string, pinnedBranches: seq<string>)

  function HasPath(path: string): RepositoryConfig -> bool { (r: RepositoryConfig) => r.path == path }

  function FindRepo(repos: seq<RepositoryConfig>, path: string): int
  {
    FindIndexOf(repos, HasPath(path))
  }

  /** Pinning: add the branch to the repository's pins unless it is there,
      or add a record for a repository not yet in the table. */
  function PinIn(repos: seq<RepositoryConfig>, path: string, branch: string): seq<RepositoryConfig>
  {
    var i := FindRepo(repos, path);
    if i == -1 then repos + [RepositoryConfig(path, [branch])]
    else repos[i := repos[i].(pinnedBranches := Pinned(repos[i].pinnedBranches, branch))]
  }

  /** Unpinning: remove the first occurrence of the branch; an unknown
      repository or a branch that is not pinned is `ErrBranchNotPinned`. */
  function UnpinIn(repos: seq<RepositoryConfig>, path: string, branch: string): Result<seq<RepositoryConfig>, S.StorageError>
  {
    var i := FindRepo(repos, path);
    if i == -1 then Failure(S.BranchNotPinned)
    else
      var j := IndexOf(repos[i].pinnedBranches, branch);
      if j == -1 then Failure(S.BranchNotPinned)
      else Success(repos[i := repos[i].(pinnedBranches := RemoveAt(repos[i].pinnedBranches, j))])
  }

  /** Pinning a known repository appends the branch to its pins only when
      it is absent, never duplicates a pin and changes no other record; an
      unknown repository gets one new record pinning just the branch;
      afterwards the branch is pinned in the repository. */
  lemma PinInSpec(repos: seq<RepositoryConfig>, path: string, branch: string)
    ensures var r := PinIn(repos, path, branch);
            var i := FindRepo(repos, path);
            (i != -1 ==>
               |r| == |repos| && (forall k :: 0 <= k < |r| && k != i ==> r[k] == repos[k])
               && r[i].path == repos[i].path
               && r[i].pinnedBranches == (if branch in repos[i].pinnedBranches then repos[i].pinnedBranches
                                          else repos[i].pinnedBranches + [branch])
               && (NoDup(repos[i].pinnedBranches) ==> NoDup(r[i].pinnedBranches)))
            && (i == -1 ==> r == repos + [RepositoryConfig(path, [branch])])
            && FindRepo(r, path) != -1 && branch in r[FindRepo(r, path)].pinnedBranches
  {
    var r := PinIn(repos, path, branch);
    var i := FindRepo(repos, path);
    if i != -1 {
      PinnedSpec(repos[i].pinnedBranches, branch);
      assert FindRepo(r, path) == i by {
        assert HasPath(path)(r[i]);
        assert forall k :: 0 <= k < i ==> r[k] == repos[k];
      }
    } else {
      assert FindRepo(r, path) == |repos| by {
        assert HasPath(path)(r[|repos|]);
        assert forall k :: 0 <= k < |repos| ==> r[k] == repos[k];
      }
    }
  }

  /** Unpinning fails with `ErrBranchNotPinned` exactly when the repository
      is unknown or the branch is not among its pins; otherwise only that
      record changes, losing the first copy of the branch, and the rest of
      its pins keep their order. */
  lemma UnpinInSpec(repos: seq<RepositoryConfig>, path: string, branch: string)
    ensures var i := FindRepo(repos, path);
            UnpinIn(repos, path, branch).Failure? <==> i == -1 || branch !in repos[i].pinnedBranches
    ensures UnpinIn(repos, path, branch).Failure? ==> UnpinIn(repos, path, branch).error == S.BranchNotPinned
    ensures UnpinIn(repos, path, branch).Success? ==>
              var r := UnpinIn(repos, path, branch).value;
              var i := FindRepo(repos, path);
              |r| == |repos| && (forall k :: 0 <= k < |r| && k != i ==> r[k] == repos[k])
              && r[i].path == repos[i].path
              && r[i].pinnedBranches == RemoveFirst(repos[i].pinnedBranches, branch)
              && multiset(r[i].pinnedBranches) == multiset(repos[i].pinnedBranches) - multiset{branch}
              && Subseq(r[i].pinnedBranches, repos[i].pinnedBranches)
  {
    var i := FindRepo(repos, path);
    if i != -1 {
      RemoveFirstSpec(repos[i].pinnedBranches, branch);
    }
  }

  /** A parsed configuration file of this version. */
  datatype Document = Document(
    repositories: Option<seq<RepositoryConfig>>,
    pinnedBranchPrefix: Option<string>,
    windowSize: Option<int>)

  datatype ConfigFile = Missing | Unreadable(reason: string) | Malformed(reason: string) | Present(doc: Document)

  class Config {
    var repositories: seq<RepositoryConfig>
    var pinnedBranchPrefix: string
    var windowSize: int

    /** The default configuration. */
    constructor ()
      ensures repositories == [] && pinnedBranchPrefix == S.DefaultPrefix && windowSize == S.DefaultWindowSize
    {
      repositories := [];
      pinnedBranchPrefix := S.DefaultPrefix;
      windowSize := S.DefaultWindowSize;
    }
  }

  /** `GetConfig`: the defaults for a missing file (once written), the
      file's error for an unreadable or malformed one, and otherwise the
      file's settings over the defaults, with an empty prefix replaced by "★"
      and a zero window size by 10. */
  method GetConfig(dirErr: Option<string>, file: ConfigFile, writeErr: Option<string>) returns (cfg: Config?, err: Option<S.StorageError>)
    ensures cfg == null <==> err.Some?
    ensures cfg != null ==> fresh(cfg) && cfg.pinnedBranchPrefix != "" && cfg.windowSize != 0
    ensures dirErr.Some? ==> err == Some(S.IoFailure(dirErr.value))
    ensures dirErr.None? && file.Missing? ==> err == S.WriteResult(writeErr)
    ensures dirErr.None? && (file.Unreadable? || file.Malformed?) ==> err == Some(S.IoFailure(file.reason))
    ensures dirErr.None? && file.Present? ==> err.None?
    ensures cfg != null && file.Missing? ==>
              cfg.repositories == [] && cfg.pinnedBranchPrefix == S.DefaultPrefix && cfg.windowSize == S.DefaultWindowSize
    ensures cfg != null && file.Present? ==>
              var doc := file.doc;
              cfg.repositories == (if doc.repositories.Some? then doc.repositories.value else [])
              && cfg.pinnedBranchPrefix == (if doc.pinnedBranchPrefix.Some? && doc.pinnedBranchPrefix.value != ""
                                            then doc.pinnedBranchPrefix.value else S.DefaultPrefix)
              && cfg.windowSize == (if doc.windowSize.Some? && doc.windowSize.value != 0
                                    then doc.windowSize.value else S.DefaultWindowSize)
  {
    if dirErr.Some? {
      return null, Some(S.IoFailure(dirErr.value));
    }
    var c := new Config();
    match file {
      case Missing =>
        err := S.WriteResult(writeErr);
        cfg := if err.Some? then null else c;
      case Unreadable(reason) =>
        cfg, err := null, Some(S.IoFailure(reason));
      case Malformed(reason) =>
        cfg, err := null, Some(S.IoFailure(reason));
      case Present(doc) =>
        if doc.repositories.Some? {
          c.repositories := doc.repositories.value;
        }
        if doc.pinnedBranchPrefix.Some? {
          c.pinnedBranchPrefix := doc.pinnedBranchPrefix.value;
        }
        if doc.windowSize.Some? {
          c.windowSize := doc.windowSize.value;
        }
        if c.pinnedBranchPrefix == "" {
          c.pinnedBranchPrefix := S.DefaultPrefix;
        }
        if c.windowSize == 0 {
          c.windowSize := S.DefaultWindowSize;
        }
        cfg, err := c, None;
    }
  }

  /** `Pin`: trim the branch, pin it in the working directory's record
      (adding the record when needed), and write. */
  method Pin(cfg: Config, workingDir: string, branch: string, writeErr: Option<string>) returns (err: Option<S.StorageError>)
    modifies cfg
    ensures cfg.repositories == PinIn(old(cfg.repositories), workingDir, TrimSpace(branch))
    ensures err == S.WriteResult(writeErr)
    ensures cfg.pinnedBranchPrefix == old(cfg.pinnedBranchPrefix) && cfg.windowSize == old(cfg.windowSize)
  {
    var b := TrimSpace(branch);
    AddPin(cfg, workingDir, b);
    err := S.WriteResult(writeErr);
  }

  /** The table update of `Pin`, for an already trimmed branch. */
  method AddPin(cfg: Config, workingDir: string, b: string)
    modifies cfg
    ensures cfg.repositories == PinIn(old(cfg.repositories), workingDir, b)
    ensures cfg.pinnedBranchPrefix == old(cfg.pinnedBranchPrefix) && cfg.windowSize == old(cfg.windowSize)
  {
    var idx := FindIndexOf(cfg.repositories, HasPath(workingDir));
    if idx != -1 {
      if b !in cfg.repositories[idx].pinnedBranches {
        cfg.repositories := cfg.repositories[idx := cfg.repositories[idx].(pinnedBranches := cfg.repositories[idx].pinnedBranches + [b])];
      }
    } else {
      cfg.repositories := cfg.repositories + [RepositoryConfig(workingDir, [b])];
    }
  }

  /** `Unpin` (the branch is not trimmed): `ErrBranchNotPinned` without a
      write when the repository or the pin is missing; otherwise remove the
      first occurrence and write. */
  method Unpin(cfg: Config, workingDir: string, branch: string, writeErr: Option<string>) returns (err: Option<S.StorageError>)
    modifies cfg
    ensures UnpinIn(old(cfg.repositories), workingDir, branch).Failure? ==>
              err == Some(S.BranchNotPinned) && cfg.repositories == old(cfg.repositories)
    ensures UnpinIn(old(cfg.repositories), workingDir, branch).Success? ==>
              cfg.repositories == UnpinIn(old(cfg.repositories), workingDir, branch).value
              && err == S.WriteResult(writeErr)
    ensures cfg.pinnedBranchPrefix == old(cfg.pinnedBranchPrefix) && cfg.windowSize == old(cfg.windowSize)
  {
    var i := FindIndexOf(cfg.repositories, HasPath(workingDir));
    if i == -1 {
      return Some(S.BranchNotPinned);
    }
    var pins := cfg.repositories[i].pinnedBranches;
    var j := IndexOf(pins, branch);
    if j == -1 {
      return Some(S.BranchNotPinned);
    }
    cfg.repositories := cfg.repositories[i := cfg.repositories[i].(pinnedBranches := pins[..j] + pins[j + 1..])];
    err := S.WriteResult(writeErr);
  }
}
