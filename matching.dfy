/** The match engine: the ordered branch list (pinned labels first) and the
    case-insensitive search filters of the renderer and of the older
    single-file picker. */
module Matching {
  import opened Seqs
  import opened Text

  function In(s: seq<string>): string -> bool { x => x in s }
  function NotIn(s: seq<string>): string -> bool { x => x !in s }
  function Matches(input: string): string -> bool { x => ContainsFold(x, input) }

  /** Pinned labels that are real branches, in pin order, followed by every
      other branch in its original order. */
  function Ordered(branches: seq<string>, pins: seq<string>): seq<string>
  {
    var pinned := Filter(pins, In(branches));
    pinned + Filter(branches, NotIn(pinned))
  }

  /** The renderer's filter: the whole ordered list for empty input, otherwise
      the ordered labels containing the input (ignoring case), deduplicated. */
  function View(branches: seq<string>, pins: seq<string>, input: string): seq<string>
  {
    var all := Ordered(branches, pins);
    if input == "" then all else Uniq(Filter(all, Matches(input)))
  }

  /** The older picker's filter over the raw branch list: no pins and no
      deduplication. */
  function MainFilter(things: seq<string>, input: string): seq<string>
  {
    if input == "" then things else Filter(things, Matches(input))
  }

  /** Every label of `r` that is pinned comes before every label that is not. */
  ghost predicate PinnedFirst(r: seq<string>, pins: seq<string>) {
    forall i, j :: 0 <= i < j < |r| && r[j] in pins ==> r[i] in pins
  }

  /** Every label contains the empty string. */
  lemma MatchesEmpty(x: string)
    ensures ContainsFold(x, "")
  {
    assert Lower("") == "";
    assert Lower(x)[..0] == "";
  }

  /** The ordered list holds exactly the branches; it is the pinned branches in
      pin order followed by the unpinned branches in their original order
      (stale pins are dropped); and it has no duplicates when neither input
      list has. */
  lemma OrderedSpec(branches: seq<string>, pins: seq<string>)
    ensures forall x :: x in Ordered(branches, pins) <==> x in branches
    ensures Ordered(branches, pins) == Filter(pins, In(branches)) + Filter(branches, NotIn(pins))
    ensures PinnedFirst(Ordered(branches, pins), pins)
    ensures NoDup(branches) && NoDup(pins) ==> NoDup(Ordered(branches, pins))
  {
    var pinned := Filter(pins, In(branches));
    var normal := Filter(branches, NotIn(pinned));
    FilterMembers(pins, In(branches));
    FilterMembers(branches, NotIn(pinned));
    FilterExt(branches, NotIn(pinned), NotIn(pins));
    var r := pinned + normal;
    forall i, j | 0 <= i < j < |r| && r[j] in pins
      ensures r[i] in pins
    {
      assert r[i] in pinned;
    }
    if NoDup(branches) && NoDup(pins) {
      FilterNoDup(pins, In(branches));
      FilterNoDup(branches, NotIn(pinned));
      NoDupAppend(pinned, normal);
    }
  }

  /** A subsequence of a pinned-first list is pinned-first. */
  lemma {:induction false} PinnedFirstSubseq(r: seq<string>, s: seq<string>, pins: seq<string>)
    requires Subseq(r, s) && PinnedFirst(s, pins)
    ensures PinnedFirst(r, pins)
    decreases |s|
  {
    if r != [] {
      assert PinnedFirst(s[1..], pins);
      if r[0] == s[0] && Subseq(r[1..], s[1..]) {
        PinnedFirstSubseq(r[1..], s[1..], pins);
        SubseqMembers(r[1..], s[1..]);
        forall i, j | 0 <= i < j < |r| && r[j] in pins
          ensures r[i] in pins
        {
          if i == 0 {
            assert r[j] == r[1..][j - 1];
            assert r[j] in s[1..];
            var k :| 0 <= k < |s[1..]| && s[1..][k] == r[j];
            assert s[k + 1] in pins;
          } else {
            assert r[1..][i - 1] == r[i] && r[1..][j - 1] == r[j];
          }
        }
      } else {
        PinnedFirstSubseq(r, s[1..], pins);
      }
    }
  }

  /** The renderer's view: the matching branches (all of them for empty
      input), taken in the ordered list's order, so pinned first; no
      duplicates for non-empty input; and, when branches and pins are free of
      duplicates, exactly the matching subsequence of the ordered list. */
  lemma ViewSpec(branches: seq<string>, pins: seq<string>, input: string)
    ensures forall x :: x in View(branches, pins, input) <==> x in branches && ContainsFold(x, input)
    ensures Subseq(View(branches, pins, input), Ordered(branches, pins))
    ensures PinnedFirst(View(branches, pins, input), pins)
    ensures input != "" ==> NoDup(View(branches, pins, input))
    ensures NoDup(branches) && NoDup(pins) ==>
              NoDup(View(branches, pins, input))
              && View(branches, pins, input) == Filter(Ordered(branches, pins), Matches(input))
  {
    var all := Ordered(branches, pins);
    OrderedSpec(branches, pins);
    var r := View(branches, pins, input);
    if input == "" {
      forall x | x in branches ensures ContainsFold(x, input) { MatchesEmpty(x); }
      SubseqRefl(all);
      FilterAll(all, Matches(input));
    } else {
      var f := Filter(all, Matches(input));
      FilterMembers(all, Matches(input));
      UniqSpec(f);
      FilterSubseq(all, Matches(input));
      UniqSubseq(f);
      SubseqTrans(r, f, all);
      if NoDup(branches) && NoDup(pins) {
        FilterNoDup(all, Matches(input));
        UniqOfNoDup(f);
      }
    }
    PinnedFirstSubseq(r, all, pins);
  }

  /** With empty input nothing is deduplicated: a label pinned twice shows
      twice. With any search text it shows once, whatever the case of the
      text. */
  lemma DuplicatesOnlyWithoutInput()
    ensures View(["main"], ["main", "main"], "") == ["main", "main"]
    ensures View(["main"], ["main", "main"], "MAIN") == ["main"]
  {
    var pins := ["main", "main"];
    assert Filter(pins, In(["main"])) == pins by {
      assert Filter(pins[1..], In(["main"])) == ["main"] by {
        assert pins[1..][1..] == [];
      }
    }
    assert Filter(["main"], NotIn(pins)) == [] by {
      assert ["main"][1..] == [];
    }
    assert Ordered(["main"], pins) == pins;
    assert ContainsFold("main", "MAIN") by {
      assert Lower("MAIN") == "main";
      assert Lower("main")[..4] == "main";
    }
    FilterAll(pins, Matches("MAIN"));
    assert Uniq(pins) == ["main"] by {
      assert Filter(pins[1..], x => x != pins[0]) == [] by {
        assert pins[1..][1..] == [];
      }
    }
  }

  /** The older picker's filter is the plain case-insensitive filter: it keeps
      the order of the branch list and every copy of a matching label. */
  lemma MainFilterSpec(things: seq<string>, input: string)
    ensures MainFilter(things, input) == Filter(things, Matches(input))
    ensures Subseq(MainFilter(things, input), things)
    ensures forall x :: multiset(MainFilter(things, input))[x]
                          == if ContainsFold(x, input) then multiset(things)[x] else 0
  {
    if input == "" {
      forall x | x in things ensures ContainsFold(x, input) { MatchesEmpty(x); }
      FilterAll(things, Matches(input));
    }
    FilterSubseq(things, Matches(input));
    forall x ensures multiset(MainFilter(things, input))[x]
                       == if ContainsFold(x, input) then multiset(things)[x] else 0
    {
      FilterCount(things, Matches(input), x);
    }
  }
}
