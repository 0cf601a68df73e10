/** The caller-owned pinned-branch list and the branch selector's pin/unpin
    closures, which change it in place and roll the change back when the
    persistence callback reports an error. */
module PinnedList {
  import opened Wrappers
  import opened Seqs

  /** A persistence callback (`OnPinBranch`, `OnUnpinBranch`): absent (nil), or
      the error, if any, that it reports for a branch. */
  type Persist = Option<string -> Option<string>>

  /** The pin list after a successful pin: the branch is appended when absent. */
  function Pinned(pins: seq<string>, branch: string): seq<string>
  {
    if branch in pins then pins else pins + [branch]
  }

  /** Pinning keeps the existing pins in place, adds at most the one branch at
      the end, and never creates a duplicate. */
  lemma PinnedSpec(pins: seq<string>, branch: string)
    ensures |Pinned(pins, branch)| == if branch in pins then |pins| else |pins| + 1
    ensures Pinned(pins, branch)[..|pins|] == pins
    ensures forall x :: x in Pinned(pins, branch) <==> x in pins || x == branch
    ensures NoDup(pins) ==> NoDup(Pinned(pins, branch))
  {
    if NoDup(pins) && branch !in pins {
      NoDupAppend(pins, [branch]);
    }
  }

  /** Pinning a new branch and then unpinning it restores the list. */
  lemma PinThenUnpin(pins: seq<string>, branch: string)
    requires branch !in pins
    ensures RemoveFirst(Pinned(pins, branch), branch) == pins
  {
    var p := pins + [branch];
    assert branch in p;
    var i := IndexOf(p, branch);
    assert i == |pins|;
    assert RemoveAt(p, i) == p[..|pins|];
  }

  /** Unpinning a branch and pinning it again keeps the same labels; the branch
      moves to the end. */
  lemma UnpinThenPin(pins: seq<string>, branch: string)
    requires branch in pins && NoDup(pins)
    ensures multiset(Pinned(RemoveFirst(pins, branch), branch)) == multiset(pins)
    ensures Pinned(RemoveFirst(pins, branch), branch)[|pins| - 1] == branch
  {
    RemoveFirstSpec(pins, branch);
  }

  /** The shared pinned list (`*[]string`): the renderer and the branch
      selector hold the same object and both change it. */
  class PinList {
    var items: seq<string>

    constructor (items: seq<string>)
      ensures this.items == items
    {
      this.items := items;
    }

    /** The selector's `OnPin`: append the branch when it is absent, then ask
        the persistence callback; on its error, drop the appended branch again
        and return the error. A branch already pinned changes nothing and is not
        persisted. */
    method OnPin(branch: string, persist: Persist) returns (err: Option<string>, persisted: bool)
      modifies this
      ensures persisted <==> branch !in old(items) && persist.Some?
      ensures persisted ==> err == persist.value(branch)
      ensures !persisted ==> err.None?
      ensures items == if err.Some? then old(items) else Pinned(old(items), branch)
    {
      err, persisted := None, false;
      if branch !in items {
        items := items + [branch];
        if persist.Some? {
          persisted := true;
          err := persist.value(branch);
          if err.Some? {
            items := items[..|items| - 1];
          }
        }
      }
    }

    /** The selector's `OnUnpin`: find the first occurrence, remove it, then ask
        the persistence callback; on its error, restore the saved copy and
        return the error. A branch that is not pinned changes nothing and is not
        persisted. */
    method OnUnpin(branch: string, persist: Persist) returns (err: Option<string>, persisted: bool)
      modifies this
      ensures persisted <==> branch in old(items) && persist.Some?
      ensures persisted ==> err == persist.value(branch)
      ensures !persisted ==> err.None?
      ensures items == if err.Some? then old(items) else RemoveFirst(old(items), branch)
    {
      err, persisted := None, false;
      if branch in items {
        var pinned := items;
        var i := 0;
        while i < |pinned|
          invariant 0 <= i <= |pinned|
          invariant branch !in pinned[..i]
          invariant items == pinned == old(items)
          invariant !persisted && err.None?
        {
          if pinned[i] == branch {
            var saved := pinned;
            items := pinned[..i] + pinned[i + 1..];
            assert i == IndexOf(pinned, branch);
            if persist.Some? {
              persisted := true;
              err := persist.value(branch);
              if err.Some? {
                items := saved;
                return;
              }
            }
            break;
          }
          i := i + 1;
        }
      }
    }
  }
}
