/** Parsing the output of `git branch -r` into branch names. Running git is
    not modelled: its output (or its error) is the input. */
module GitBranches {
  import opened Wrappers
  import opened Text

  /** The branch named by one line of output: the text after the first '/'.
      A line without a '/', or whose first '/' is its last character, names
      nothing. */
  function RemoteName(line: string): (r: Option<string>)
    ensures r.None? <==> line == [] || '/' !in line[..|line| - 1]
    ensures r.Some? ==>
              var k := |line| - |r.value| - 1;
              0 <= k && line[k] == '/' && '/' !in line[..k] && line[k + 1..] == r.value && r.value != ""
  {
    if '/' !in line then None
    else
      var idx := IndexOfChar(line, '/');
      if idx == |line| - 1 then
        assert line[..|line| - 1] == line[..idx];
        None
      else
        assert line[idx] in line[..|line| - 1];
        Some(line[idx + 1..])
  }

  /** The names of all lines that name a branch, in line order. */
  function RemoteNames(lines: seq<string>): (r: seq<string>)
    ensures |r| <= |lines|
  {
    if lines == [] then []
    else
      (match RemoteName(lines[0]) case Some(b) => [b] case None => []) + RemoteNames(lines[1..])
  }

  /** `RemoteBranches`: a failed command yields its error and no list;
      otherwise the output is split into lines and each line that names a
      branch contributes that name. */
  function RemoteBranches(out: Result<string, string>): (r: Result<seq<string>, string>)
    ensures out.Failure? ==> r == Failure(out.error)
    ensures out.Success? ==> r.Success? && |r.value| <= |Split(out.value, '\n')|
  {
    match out
    case Failure(e) => Failure(e)
    case Success(s) => Success(RemoteNames(Split(s, '\n')))
  }

  /** A line "<remote>/<branch>" names exactly the branch, so long as the
      remote holds no '/'; the branch itself may hold more of them. */
  lemma RemoteNameOf(remote: string, branch: string)
    requires '/' !in remote
    ensures RemoteName(remote + "/" + branch) == if branch == "" then None else Some(branch)
  {
    var line := remote + "/" + branch;
    assert line[|remote|] == '/' && line[..|remote|] == remote;
    if branch == "" {
      assert line[..|line| - 1] == remote;
    } else {
      assert line[|remote| + 1..] == branch;
    }
  }

  /** Names keep the line order: the names of two blocks of lines are the
      names of the first block followed by those of the second. */
  lemma {:induction false} RemoteNamesAppend(a: seq<string>, b: seq<string>)
    ensures RemoteNames(a + b) == RemoteNames(a) + RemoteNames(b)
    decreases |a|
  {
    if a != [] {
      RemoteNamesAppend(a[1..], b);
      assert (a + b)[0] == a[0] && (a + b)[1..] == a[1..] + b;
    } else {
      assert a + b == b;
    }
  }

  /** Every name is non-empty and is the tail of some line. */
  lemma {:induction false} RemoteNamesNonEmpty(lines: seq<string>)
    ensures forall x :: x in RemoteNames(lines) ==> x != ""
    ensures forall x :: x in RemoteNames(lines) ==> exists k :: 0 <= k < |lines| && RemoteName(lines[k]) == Some(x)
    decreases |lines|
  {
    if lines != [] {
      RemoteNamesNonEmpty(lines[1..]);
      var r := RemoteNames(lines);
      var rest := RemoteNames(lines[1..]);
      forall x | x in r
        ensures x != "" && exists k :: 0 <= k < |lines| && RemoteName(lines[k]) == Some(x)
      {
        if x !in rest {
          assert RemoteName(lines[0]) == Some(x);
        } else {
          var k :| 0 <= k < |lines[1..]| && RemoteName(lines[1..][k]) == Some(x);
          assert RemoteName(lines[k + 1]) == Some(x);
        }
      }
    }
  }

  /** The lines "<remotes[k]>/<names[k]>". */
  function Listing(remotes: seq<string>, names: seq<string>): seq<string>
    requires |remotes| == |names|
  {
    seq(|names|, k requires 0 <= k < |names| => remotes[k] + "/" + names[k])
  }

  lemma {:induction false} RemoteNamesOfListing(remotes: seq<string>, names: seq<string>)
    requires |remotes| == |names|
    requires forall k :: 0 <= k < |remotes| ==> '/' !in remotes[k]
    requires forall k :: 0 <= k < |names| ==> names[k] != ""
    ensures RemoteNames(Listing(remotes, names)) == names
    decreases |names|
  {
    if names != [] {
      RemoteNameOf(remotes[0], names[0]);
      RemoteNamesOfListing(remotes[1..], names[1..]);
      assert Listing(remotes, names)[1..] == Listing(remotes[1..], names[1..]);
    }
  }

  /** Round trip: the newline-terminated output listing remote-tracking
      branches "<remote>/<name>" parses back to exactly the names, in order
      (the empty piece after the final newline names nothing). */
  lemma RemoteBranchesRoundTrip(remotes: seq<string>, names: seq<string>)
    requires |remotes| == |names|
    requires forall k :: 0 <= k < |remotes| ==> '/' !in remotes[k] && '\n' !in remotes[k]
    requires forall k :: 0 <= k < |names| ==> names[k] != "" && '\n' !in names[k]
    ensures RemoteBranches(Success(Join(Listing(remotes, names) + [""], '\n'))) == Success(names)
  {
    var lines := Listing(remotes, names);
    forall k | 0 <= k < |lines + [""]| ensures '\n' !in (lines + [""])[k] {
      if k < |lines| {
        assert lines[k] == remotes[k] + "/" + names[k];
      }
    }
    SplitJoin(lines + [""], '\n');
    RemoteNamesAppend(lines, [""]);
    RemoteNamesOfListing(remotes, names);
    assert RemoteNames([""]) == [] by {
      assert RemoteName("") == None;
      assert [""][1..] == [];
    }
    var out := Join(lines + [""], '\n');
    assert Split(out, '\n') == lines + [""];
    assert RemoteNames(lines + [""]) == names;
  }
}
