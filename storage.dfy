/** The per-repository configuration table (the current storage package):
    records keyed by repository path, each holding its pinned branches and
    the last branch checked out. Reading and writing the YAML file, the
    configuration directory and finding the repository path are not
    modelled: the loaded configuration and the repository path are inputs,
    and writing is a step whose possible error is an input. */
module Storage {
  import opened Wrappers
  import opened Seqs
  import opened Text
  import opened PinnedList

  datatype RepositoryConfig = RepositoryConfig(path: string, pinnedBranches: seq<string>, lastBranch: string)

  /** `ErrBranchNotPinned`, or an error of the file system. */
  datatype StorageError = BranchNotPinned | IoFailure(message: string)

  /** The default pinned-branch prefix, "★". */
  const DefaultPrefix: string := "\U{2605}"
  const DefaultWindowSize: int := 10

  /** The result of the final write: its error, if any. */
  function WriteResult(writeErr: Option<string>): Option<StorageError>
  {
    match writeErr
    case None => None
    case Some(e) => Some(IoFailure(e))
  }

  function HasPath(path: string): RepositoryConfig -> bool { (r: RepositoryConfig) => r.path == path }
  function HasPathFold(path: string): RepositoryConfig -> bool { (r: RepositoryConfig) => EqualFold(r.path, path) }

  /** The record of the repository at exactly `path`, or -1. */
  function FindRepo(repos: seq<RepositoryConfig>, path: string): int
  {
    FindIndexOf(repos, HasPath(path))
  }

  // ---------------------------------------------------------------------
  // The table updates

  /** Pinning: add the branch to the repository's pins unless it is there,
      or add a record for a repository not yet in the table. */
  function PinIn(repos: seq<RepositoryConfig>, path: string, branch: string): seq<RepositoryConfig>
  {
    var i := FindRepo(repos, path);
    if i == -1 then repos + [RepositoryConfig(path, [branch], "")]
    else repos[i := repos[i].(pinnedBranches := Pinned(repos[i].pinnedBranches, branch))]
  }

  /** Unpinning: remove the first occurrence of the branch from the
      repository's pins; an unknown repository or a branch that is not pinned
      is `ErrBranchNotPinned`. */
  function UnpinIn(repos: seq<RepositoryConfig>, path: string, branch: string): Result<seq<RepositoryConfig>, StorageError>
  {
    var i := FindRepo(repos, path);
    if i == -1 then Failure(BranchNotPinned)
    else
      var j := IndexOf(repos[i].pinnedBranches, branch);
      if j == -1 then Failure(BranchNotPinned)
      else Success(repos[i := repos[i].(pinnedBranches := RemoveAt(repos[i].pinnedBranches, j))])
  }

  /** Clearing: the repository's pins become empty; an unknown repository
      leaves the table alone. */
  function ClearIn(repos: seq<RepositoryConfig>, path: string): seq<RepositoryConfig>
  {
    var i := FindRepo(repos, path);
    if i == -1 then repos else repos[i := repos[i].(pinnedBranches := [])]
  }

  /** Tracking: set the repository's last branch, or add a record without
      pins for a repository not yet in the table. */
  function SetLastIn(repos: seq<RepositoryConfig>, path: string, branch: string): seq<RepositoryConfig>
  {
    var i := FindRepo(repos, path);
    if i == -1 then repos + [RepositoryConfig(path, [], branch)]
    else repos[i := repos[i].(lastBranch := branch)]
  }

  /** Only the record at index `i` may differ between the two tables, which
      have the same length. */
  ghost predicate OthersUnchanged(a: seq<RepositoryConfig>, b: seq<RepositoryConfig>, i: int) {
    |a| == |b| && forall k :: 0 <= k < |a| && k != i ==> a[k] == b[k]
  }

  /** Pinning in a known repository changes only that record's pins, which
      gain the branch at the end when it was absent and never get a
      duplicate; an unknown repository gets one new record pinning just the
      branch. Either way the branch is then pinned in the repository. */
  lemma PinInSpec(repos: seq<RepositoryConfig>, path: string, branch: string)
    ensures var r := PinIn(repos, path, branch);
            var i := FindRepo(repos, path);
            (i != -1 ==>
               OthersUnchanged(repos, r, i)
               && r[i].path == repos[i].path && r[i].lastBranch == repos[i].lastBranch
               && r[i].pinnedBranches == (if branch in repos[i].pinnedBranches then repos[i].pinnedBranches
                                          else repos[i].pinnedBranches + [branch])
               && (NoDup(repos[i].pinnedBranches) ==> NoDup(r[i].pinnedBranches)))
            && (i == -1 ==> r == repos + [RepositoryConfig(path, [branch], "")])
            && FindRepo(r, path) != -1 && branch in r[FindRepo(r, path)].pinnedBranches
  {
    var r := PinIn(repos, path, branch);
    var i := FindRepo(repos, path);
    if i != -1 {
      PinnedSpec(repos[i].pinnedBranches, branch);
      assert FindRepo(r, path) == i by {
        assert HasPath(path)(r[i]);
        assert forall k :: 0 <= k < i ==> r[k] == repos[k];
      }
    } else {
      assert FindRepo(r, path) == |repos| by {
        assert HasPath(path)(r[|repos|]);
        assert forall k :: 0 <= k < |repos| ==> r[k] == repos[k];
      }
    }
  }

  /** Pinning twice is pinning once. */
  lemma PinInIdempotent(repos: seq<RepositoryConfig>, path: string, branch: string)
    ensures PinIn(PinIn(repos, path, branch), path, branch) == PinIn(repos, path, branch)
  {
    var r := PinIn(repos, path, branch);
    PinInSpec(repos, path, branch);
    var i := FindRepo(r, path);
    assert r[i := r[i].(pinnedBranches := Pinned(r[i].pinnedBranches, branch))] == r;
  }

  /** Unpinning fails exactly when the repository is unknown or the branch is
      not among its pins. Otherwise only that record's pins change: they lose
      exactly one copy of the branch and keep the order of the rest. */
  lemma UnpinInSpec(repos: seq<RepositoryConfig>, path: string, branch: string)
    ensures var i := FindRepo(repos, path);
            UnpinIn(repos, path, branch).Failure? <==> i == -1 || branch !in repos[i].pinnedBranches
    ensures UnpinIn(repos, path, branch).Failure? ==> UnpinIn(repos, path, branch).error == BranchNotPinned
    ensures UnpinIn(repos, path, branch).Success? ==>
              var r := UnpinIn(repos, path, branch).value;
              var i := FindRepo(repos, path);
              OthersUnchanged(repos, r, i)
              && r[i].path == repos[i].path && r[i].lastBranch == repos[i].lastBranch
              && r[i].pinnedBranches == RemoveFirst(repos[i].pinnedBranches, branch)
              && |r[i].pinnedBranches| == |repos[i].pinnedBranches| - 1
              && multiset(r[i].pinnedBranches) == multiset(repos[i].pinnedBranches) - multiset{branch}
              && Subseq(r[i].pinnedBranches, repos[i].pinnedBranches)
  {
    var i := FindRepo(repos, path);
    if i != -1 {
      RemoveFirstSpec(repos[i].pinnedBranches, branch);
    }
  }

  /** Pinning a branch that the known repository does not have and then
      unpinning it restores the table. */
  lemma PinThenUnpinIn(repos: seq<RepositoryConfig>, path: string, branch: string)
    requires FindRepo(repos, path) != -1
    requires branch !in repos[FindRepo(repos, path)].pinnedBranches
    ensures UnpinIn(PinIn(repos, path, branch), path, branch) == Success(repos)
  {
    var i := FindRepo(repos, path);
    var r := PinIn(repos, path, branch);
    PinInSpec(repos, path, branch);
    PinThenUnpin(repos[i].pinnedBranches, branch);
    assert FindRepo(r, path) == i by {
      assert HasPath(path)(r[i]);
      assert forall k :: 0 <= k < i ==> r[k] == repos[k];
    }
    var u := UnpinIn(r, path, branch);
    assert u.Success?;
    assert u.value == r[i := r[i].(pinnedBranches := repos[i].pinnedBranches)];
    assert u.value == repos;
  }

  /** Clearing empties only the known repository's pins and leaves an
      unknown repository's table alone; clearing twice is clearing once. */
  lemma ClearInSpec(repos: seq<RepositoryConfig>, path: string)
    ensures var r := ClearIn(repos, path);
            var i := FindRepo(repos, path);
            (i == -1 ==> r == repos)
            && (i != -1 ==> OthersUnchanged(repos, r, i) && r[i] == repos[i].(pinnedBranches := []))
    ensures ClearIn(ClearIn(repos, path), path) == ClearIn(repos, path)
  {
    var i := FindRepo(repos, path);
    if i != -1 {
      var r := ClearIn(repos, path);
      assert FindRepo(r, path) == i by {
        assert HasPath(path)(r[i]);
        assert forall k :: 0 <= k < i ==> r[k] == repos[k];
      }
    }
  }

  /** Tracking changes only the known repository's last branch, or appends
      one record without pins; the table grows by at most one, and afterwards
      the repository's record holds the branch as its last branch. */
  lemma SetLastInSpec(repos: seq<RepositoryConfig>, path: string, branch: string)
    ensures var r := SetLastIn(repos, path, branch);
            var i := FindRepo(repos, path);
            (i != -1 ==> OthersUnchanged(repos, r, i) && r[i] == repos[i].(lastBranch := branch))
            && (i == -1 ==> r == repos + [RepositoryConfig(path, [], branch)])
            && |repos| <= |r| <= |repos| + 1
            && FindRepo(r, path) != -1 && r[FindRepo(r, path)].lastBranch == branch
  {
    var r := SetLastIn(repos, path, branch);
    var i := FindRepo(repos, path);
    if i != -1 {
      assert FindRepo(r, path) == i by {
        assert HasPath(path)(r[i]);
        assert forall k :: 0 <= k < i ==> r[k] == repos[k];
      }
    } else {
      assert FindRepo(r, path) == |repos| by {
        assert HasPath(path)(r[|repos|]);
        assert forall k :: 0 <= k < |repos| ==> r[k] == repos[k];
      }
    }
  }

  // ---------------------------------------------------------------------
  // The configuration

  /** A parsed configuration file: each setting is present or absent. */
  datatype Document = Document(
    repositories: Option<seq<RepositoryConfig>>,
    pinnedBranchPrefix: Option<string>,
    windowSize: Option<int>,
    pruneRemoteBranches: Option<bool>)

  /** What is found at the configuration file's place. */
  datatype ConfigFile =
    | Missing
    | Unreadable(reason: string)   // a stat error other than not-exist, or a read error
    | Malformed(reason: string)    // YAML that does not unmarshal
    | Present(doc: Document)

  class Config {
    var repositories: seq<RepositoryConfig>
    var pinnedBranchPrefix: string
    var windowSize: int
    var pruneRemoteBranches: bool

    /** The default configuration. */
    constructor ()
      ensures repositories == [] && pinnedBranchPrefix == DefaultPrefix
      ensures windowSize == DefaultWindowSize && !pruneRemoteBranches
    {
      repositories := [];
      pinnedBranchPrefix := DefaultPrefix;
      windowSize := DefaultWindowSize;
      pruneRemoteBranches := false;
    }

    /** Unmarshalling into the defaults: each setting present in the file
        replaces the current value, each absent one keeps it. */
    method Unmarshal(doc: Document)
      modifies this
      ensures repositories == if doc.repositories.Some? then doc.repositories.value else old(repositories)
      ensures pinnedBranchPrefix == if doc.pinnedBranchPrefix.Some? then doc.pinnedBranchPrefix.value else old(pinnedBranchPrefix)
      ensures windowSize == if doc.windowSize.Some? then doc.windowSize.value else old(windowSize)
      ensures pruneRemoteBranches == if doc.pruneRemoteBranches.Some? then doc.pruneRemoteBranches.value else old(pruneRemoteBranches)
    {
      if doc.repositories.Some? {
        repositories := doc.repositories.value;
      }
      if doc.pinnedBranchPrefix.Some? {
        pinnedBranchPrefix := doc.pinnedBranchPrefix.value;
      }
      if doc.windowSize.Some? {
        windowSize := doc.windowSize.value;
      }
      if doc.pruneRemoteBranches.Some? {
        pruneRemoteBranches := doc.pruneRemoteBranches.value;
      }
    }

    /** `GetRepositoryConfig`: a copy of the first record whose path equals
        `path` ignoring case, leaving the table alone; otherwise a new record
        for `path` without pins or last branch, appended to the table and then
        written. Either way the table afterwards has a record for the path. */
    method GetRepositoryConfig(path: string, writeErr: Option<string>) returns (rc: RepositoryConfig, err: Option<StorageError>)
      modifies this
      ensures var i := FindIndexOf(old(repositories), HasPathFold(path));
              (i != -1 ==> rc == old(repositories)[i] && repositories == old(repositories) && err.None?)
              && (i == -1 ==> rc == RepositoryConfig(path, [], "") && repositories == old(repositories) + [rc]
                              && err == WriteResult(writeErr))
      ensures EqualFold(rc.path, path)
      ensures exists k :: 0 <= k < |repositories| && repositories[k] == rc
      ensures pinnedBranchPrefix == old(pinnedBranchPrefix) && windowSize == old(windowSize)
      ensures pruneRemoteBranches == old(pruneRemoteBranches)
    {
      var k := 0;
      while k < |repositories|
        invariant 0 <= k <= |repositories|
        invariant forall j :: 0 <= j < k ==> !HasPathFold(path)(repositories[j])
      {
        if EqualFold(repositories[k].path, path) {
          assert HasPathFold(path)(repositories[k]);
          return repositories[k], None;
        }
        k := k + 1;
      }
      rc := RepositoryConfig(path, [], "");
      repositories := repositories + [rc];
      assert repositories[|repositories| - 1] == rc;
      err := WriteResult(writeErr);
    }
  }

  /** `GetConfig`: with the directory in place, a missing file yields the
      defaults (once they have been written); an unreadable or malformed file
      yields its error; a present file is read over the defaults, after which
      an empty prefix becomes "★" and a zero window size becomes 10. */
  method GetConfig(dirErr: Option<string>, file: ConfigFile, writeErr: Option<string>) returns (cfg: Config?, err: Option<StorageError>)
    ensures cfg == null <==> err.Some?
    ensures cfg != null ==> fresh(cfg) && cfg.pinnedBranchPrefix != "" && cfg.windowSize != 0
    ensures dirErr.Some? ==> err == Some(IoFailure(dirErr.value))
    ensures dirErr.None? && file.Missing? ==> err == WriteResult(writeErr)
    ensures dirErr.None? && (file.Unreadable? || file.Malformed?) ==> err == Some(IoFailure(file.reason))
    ensures dirErr.None? && file.Present? ==> err.None?
    ensures cfg != null && file.Missing? ==>
              cfg.repositories == [] && cfg.pinnedBranchPrefix == DefaultPrefix
              && cfg.windowSize == DefaultWindowSize && !cfg.pruneRemoteBranches
    ensures cfg != null && file.Present? ==>
              var doc := file.doc;
              cfg.repositories == (if doc.repositories.Some? then doc.repositories.value else [])
              && cfg.pinnedBranchPrefix == (if doc.pinnedBranchPrefix.Some? && doc.pinnedBranchPrefix.value != ""
                                            then doc.pinnedBranchPrefix.value else DefaultPrefix)
              && cfg.windowSize == (if doc.windowSize.Some? && doc.windowSize.value != 0
                                    then doc.windowSize.value else DefaultWindowSize)
              && cfg.pruneRemoteBranches == (doc.pruneRemoteBranches.Some? && doc.pruneRemoteBranches.value)
  {
    if dirErr.Some? {
      return null, Some(IoFailure(dirErr.value));
    }
    var c := new Config();
    match file {
      case Missing =>
        err := WriteResult(writeErr);
        cfg := if err.Some? then null else c;
      case Unreadable(reason) =>
        cfg, err := null, Some(IoFailure(reason));
      case Malformed(reason) =>
        cfg, err := null, Some(IoFailure(reason));
      case Present(doc) =>
        c.Unmarshal(doc);
        if c.pinnedBranchPrefix == "" {
          c.pinnedBranchPrefix := DefaultPrefix;
        }
        if c.windowSize == 0 {
          c.windowSize := DefaultWindowSize;
        }
        cfg, err := c, None;
    }
  }

  // ---------------------------------------------------------------------
  // The operations on a loaded configuration

  /** `Pin`: trim the branch, pin it in the repository's record (adding the
      record when needed), and write. */
  method Pin(cfg: Config, repositoryPath: string, branch: string, writeErr: Option<string>) returns (err: Option<StorageError>)
    modifies cfg
    ensures cfg.repositories == PinIn(old(cfg.repositories), repositoryPath, TrimSpace(branch))
    ensures err == WriteResult(writeErr)
    ensures cfg.pinnedBranchPrefix == old(cfg.pinnedBranchPrefix) && cfg.windowSize == old(cfg.windowSize)
    ensures cfg.pruneRemoteBranches == old(cfg.pruneRemoteBranches)
  {
    var b := TrimSpace(branch);
    AddPin(cfg, repositoryPath, b);
    err := WriteResult(writeErr);
  }

  /** The table update of `Pin`, for an already trimmed branch. */
  method AddPin(cfg: Config, repositoryPath: string, b: string)
    modifies cfg
    ensures cfg.repositories == PinIn(old(cfg.repositories), repositoryPath, b)
    ensures cfg.pinnedBranchPrefix == old(cfg.pinnedBranchPrefix) && cfg.windowSize == old(cfg.windowSize)
    ensures cfg.pruneRemoteBranches == old(cfg.pruneRemoteBranches)
  {
    var idx := FindIndexOf(cfg.repositories, HasPath(repositoryPath));
    if idx != -1 {
      if b !in cfg.repositories[idx].pinnedBranches {
        cfg.repositories := cfg.repositories[idx := cfg.repositories[idx].(pinnedBranches := cfg.repositories[idx].pinnedBranches + [b])];
      }
    } else {
      cfg.repositories := cfg.repositories + [RepositoryConfig(repositoryPath, [b], "")];
    }
  }

  /** `Unpin` (the branch is not trimmed): an unknown repository or a branch
      that is not pinned is `ErrBranchNotPinned` and nothing is written;
      otherwise remove the first occurrence and write. */
  method Unpin(cfg: Config, repositoryPath: string, branch: string, writeErr: Option<string>) returns (err: Option<StorageError>)
    modifies cfg
    ensures UnpinIn(old(cfg.repositories), repositoryPath, branch).Failure? ==>
              err == Some(BranchNotPinned) && cfg.repositories == old(cfg.repositories)
    ensures UnpinIn(old(cfg.repositories), repositoryPath, branch).Success? ==>
              cfg.repositories == UnpinIn(old(cfg.repositories), repositoryPath, branch).value
              && err == WriteResult(writeErr)
    ensures cfg.pinnedBranchPrefix == old(cfg.pinnedBranchPrefix) && cfg.windowSize == old(cfg.windowSize)
    ensures cfg.pruneRemoteBranches == old(cfg.pruneRemoteBranches)
  {
    var i := FindIndexOf(cfg.repositories, HasPath(repositoryPath));
    if i == -1 {
      return Some(BranchNotPinned);
    }
    var pins := cfg.repositories[i].pinnedBranches;
    var j := IndexOf(pins, branch);
    if j == -1 {
      return Some(BranchNotPinned);
    }
    cfg.repositories := cfg.repositories[i := cfg.repositories[i].(pinnedBranches := pins[..j] + pins[j + 1..])];
    err := WriteResult(writeErr);
  }

  /** `ClearPins`: empty the repository's pins when it is known, then write. */
  method ClearPins(cfg: Config, repositoryPath: string, writeErr: Option<string>) returns (err: Option<StorageError>)
    modifies cfg
    ensures cfg.repositories == ClearIn(old(cfg.repositories), repositoryPath)
    ensures err == WriteResult(writeErr)
    ensures cfg.pinnedBranchPrefix == old(cfg.pinnedBranchPrefix) && cfg.windowSize == old(cfg.windowSize)
    ensures cfg.pruneRemoteBranches == old(cfg.pruneRemoteBranches)
  {
    var idx := FindIndexOf(cfg.repositories, HasPath(repositoryPath));
    if idx != -1 {
      cfg.repositories := cfg.repositories[idx := cfg.repositories[idx].(pinnedBranches := [])];
    }
    err := WriteResult(writeErr);
  }

  /** `SetLastBranch`: trim the branch, record it as the repository's last
      branch (adding a record without pins when needed), and write. */
  method SetLastBranch(cfg: Config, repositoryPath: string, branch: string, writeErr: Option<string>) returns (err: Option<StorageError>)
    modifies cfg
    ensures cfg.repositories == SetLastIn(old(cfg.repositories), repositoryPath, TrimSpace(branch))
    ensures err == WriteResult(writeErr)
    ensures cfg.pinnedBranchPrefix == old(cfg.pinnedBranchPrefix) && cfg.windowSize == old(cfg.windowSize)
    ensures cfg.pruneRemoteBranches == old(cfg.pruneRemoteBranches)
  {
    var b := TrimSpace(branch);
    RecordLast(cfg, repositoryPath, b);
    err := WriteResult(writeErr);
  }

  /** The table update of `SetLastBranch`, for an already trimmed branch. */
  method RecordLast(cfg: Config, repositoryPath: string, b: string)
    modifies cfg
    ensures cfg.repositories == SetLastIn(old(cfg.repositories), repositoryPath, b)
    ensures cfg.pinnedBranchPrefix == old(cfg.pinnedBranchPrefix) && cfg.windowSize == old(cfg.windowSize)
    ensures cfg.pruneRemoteBranches == old(cfg.pruneRemoteBranches)
  {
    var idx := FindIndexOf(cfg.repositories, HasPath(repositoryPath));
    if idx != -1 {
      cfg.repositories := cfg.repositories[idx := cfg.repositories[idx].(lastBranch := b)];
    } else {
      cfg.repositories := cfg.repositories + [RepositoryConfig(repositoryPath, [], b)];
    }
  }
}
