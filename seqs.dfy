/** Sequence helpers that mirror the slice utilities the picker uses
    (`lo.Filter`, `lo.Uniq`, `lo.IndexOf`, slice splicing). */
module Seqs {

  /** No element occurs twice. */
  predicate NoDup<T(==)>(s: seq<T>) {
    forall i, j :: 0 <= i < j < |s| ==> s[i] != s[j]
  }

  /** `r` is obtained from `s` by deleting elements, keeping the order of the rest. */
  ghost predicate Subseq<T>(r: seq<T>, s: seq<T>)
    decreases |s|
  {
    r == [] || (s != [] && ((r[0] == s[0] && Subseq(r[1..], s[1..])) || Subseq(r, s[1..])))
  }

  /** Index of the first occurrence of `x`, or -1 (`lo.IndexOf`). */
  function IndexOf<T(==)>(s: seq<T>, x: T): (r: int)
    ensures -1 <= r < |s|
    ensures r == -1 <==> x !in s
    ensures 0 <= r ==> s[r] == x && x !in s[..r]
  {
    if s == [] then -1
    else if s[0] == x then 0
    else
      var k := IndexOf(s[1..], x);
      if k == -1 then -1
      else
        assert s[..k + 1] == [s[0]] + s[1..][..k];
        k + 1
  }

  /** Index of the first element that `p` accepts, or -1 (`lo.FindIndexOf`). */
  function FindIndexOf<T>(s: seq<T>, p: T -> bool): (r: int)
    ensures -1 <= r < |s|
    ensures r == -1 <==> forall k :: 0 <= k < |s| ==> !p(s[k])
    ensures 0 <= r ==> p(s[r]) && forall k :: 0 <= k < r ==> !p(s[k])
  {
    if s == [] then -1
    else if p(s[0]) then 0
    else
      var k := FindIndexOf(s[1..], p);
      if k == -1 then -1 else k + 1
  }

  /** The elements of `s` that `keep` accepts, in order (`lo.Filter`). */
  function Filter<T(!new)>(s: seq<T>, keep: T -> bool): (r: seq<T>)
    ensures |r| <= |s|
  {
    if s == [] then []
    else (if keep(s[0]) then [s[0]] else []) + Filter(s[1..], keep)
  }

  /** The first occurrence of every element of `s`, in order (`lo.Uniq`). */
  function Uniq<T(==,!new)>(s: seq<T>): (r: seq<T>)
    ensures |r| <= |s|
    decreases |s|
  {
    if s == [] then []
    else [s[0]] + Uniq(Filter(s[1..], x => x != s[0]))
  }

  /** `s` without the element at index `i` (the `s[:i] + s[i+1:]` splice). */
  function RemoveAt<T>(s: seq<T>, i: nat): (r: seq<T>)
    requires i < |s|
    ensures |r| == |s| - 1
    ensures forall j :: 0 <= j < i ==> r[j] == s[j]
    ensures forall j :: i <= j < |r| ==> r[j] == s[j + 1]
  {
    s[..i] + s[i + 1..]
  }

  /** `s` without the first occurrence of `x`; `s` itself when `x` is absent. */
  function RemoveFirst<T(==)>(s: seq<T>, x: T): seq<T>
  {
    if x in s then RemoveAt(s, IndexOf(s, x)) else s
  }

  lemma NoDupAppend<T>(a: seq<T>, b: seq<T>)
    requires NoDup(a) && NoDup(b)
    requires forall x :: x in a ==> x !in b
    ensures NoDup(a + b)
  {
    forall i, j | 0 <= i < j < |a + b|
      ensures (a + b)[i] != (a + b)[j]
    {
      if j < |a| {
        assert (a + b)[i] == a[i] && (a + b)[j] == a[j];
      } else if i < |a| {
        assert (a + b)[i] == a[i] && (a + b)[j] == b[j - |a|];
        assert a[i] in a && a[i] !in b;
      } else {
        assert (a + b)[i] == b[i - |a|] && (a + b)[j] == b[j - |a|];
      }
    }
  }

  // ---------------------------------------------------------------------
  // Subsequences

  lemma {:induction false} SubseqMembers<T>(r: seq<T>, s: seq<T>)
    requires Subseq(r, s)
    ensures forall x :: x in r ==> x in s
    decreases |s|
  {
    if r != [] {
      if r[0] == s[0] && Subseq(r[1..], s[1..]) {
        SubseqMembers(r[1..], s[1..]);
        assert forall x :: x in r ==> x == r[0] || x in r[1..];
      } else {
        SubseqMembers(r, s[1..]);
      }
    }
  }

  lemma {:induction false} SubseqTrans<T>(a: seq<T>, b: seq<T>, c: seq<T>)
    requires Subseq(a, b) && Subseq(b, c)
    ensures Subseq(a, c)
    decreases |c|
  {
    if a != [] {
      if b[0] == c[0] && Subseq(b[1..], c[1..]) {
        if a[0] == b[0] && Subseq(a[1..], b[1..]) {
          SubseqTrans(a[1..], b[1..], c[1..]);
        } else {
          SubseqTrans(a, b[1..], c[1..]);
        }
      } else {
        SubseqTrans(a, b, c[1..]);
      }
    }
  }

  lemma {:induction false} SubseqRefl<T>(s: seq<T>)
    ensures Subseq(s, s)
    decreases |s|
  {
    if s != [] {
      SubseqRefl(s[1..]);
    }
  }

  // ---------------------------------------------------------------------
  // Filter

  /** Filter keeps exactly the accepted elements. */
  lemma {:induction false} FilterMembers<T(!new)>(s: seq<T>, keep: T -> bool)
    ensures forall x :: x in Filter(s, keep) <==> x in s && keep(x)
    decreases |s|
  {
    if s != [] {
      FilterMembers(s[1..], keep);
      assert s == [s[0]] + s[1..];
    }
  }

  /** Filter keeps the order of what it keeps. */
  lemma {:induction false} FilterSubseq<T(!new)>(s: seq<T>, keep: T -> bool)
    ensures Subseq(Filter(s, keep), s)
    decreases |s|
  {
    if s != [] {
      FilterSubseq(s[1..], keep);
      var rest := Filter(s[1..], keep);
      if keep(s[0]) {
        assert Filter(s, keep) == [s[0]] + rest;
        assert ([s[0]] + rest)[1..] == rest;
      } else {
        assert Filter(s, keep) == rest;
      }
    }
  }

  /** Filter keeps every accepted element with its full multiplicity: it never
      removes duplicates. */
  lemma {:induction false} FilterCount<T(!new)>(s: seq<T>, keep: T -> bool, x: T)
    ensures multiset(Filter(s, keep))[x] == if keep(x) then multiset(s)[x] else 0
    decreases |s|
  {
    if s != [] {
      FilterCount(s[1..], keep, x);
      assert s == [s[0]] + s[1..];
    }
  }

  lemma {:induction false} FilterNoDup<T(!new)>(s: seq<T>, keep: T -> bool)
    requires NoDup(s)
    ensures NoDup(Filter(s, keep))
    decreases |s|
  {
    if s != [] {
      assert s[0] !in s[1..];
      FilterNoDup(s[1..], keep);
      FilterMembers(s[1..], keep);
    }
  }

  /** Filter with a predicate that accepts every element is the identity. */
  lemma {:induction false} FilterAll<T(!new)>(s: seq<T>, keep: T -> bool)
    requires forall x :: x in s ==> keep(x)
    ensures Filter(s, keep) == s
    decreases |s|
  {
    if s != [] {
      FilterAll(s[1..], keep);
    }
  }

  /** Filters that agree on the elements of `s` give the same result. */
  lemma {:induction false} FilterExt<T(!new)>(s: seq<T>, p: T -> bool, q: T -> bool)
    requires forall x :: x in s ==> p(x) == q(x)
    ensures Filter(s, p) == Filter(s, q)
    decreases |s|
  {
    if s != [] {
      FilterExt(s[1..], p, q);
    }
  }

  // ---------------------------------------------------------------------
  // Uniq

  /** Uniq keeps every element and drops every repetition. */
  lemma {:induction false} UniqSpec<T(!new)>(s: seq<T>)
    ensures forall x :: x in Uniq(s) <==> x in s
    ensures NoDup(Uniq(s))
    decreases |s|
  {
    if s != [] {
      var f := Filter(s[1..], x => x != s[0]);
      FilterMembers(s[1..], x => x != s[0]);
      UniqSpec(f);
      var u := Uniq(f);
      assert s[0] !in u;
      assert forall j :: 0 <= j < |u| ==> ([s[0]] + u)[j + 1] == u[j];
      assert s == [s[0]] + s[1..];
    }
  }

  /** Uniq keeps the order of the first occurrences. */
  lemma {:induction false} UniqSubseq<T(!new)>(s: seq<T>)
    ensures Subseq(Uniq(s), s)
    decreases |s|
  {
    if s != [] {
      var f := Filter(s[1..], x => x != s[0]);
      UniqSubseq(f);
      FilterSubseq(s[1..], x => x != s[0]);
      SubseqTrans(Uniq(f), f, s[1..]);
      assert ([s[0]] + Uniq(f))[1..] == Uniq(f);
    }
  }

  /** Filtering keeps the order of first occurrences: of two kept elements,
      the one found first in the filter is found first in the input. */
  lemma {:induction false} FilterFirstOrder<T(!new)>(s: seq<T>, keep: T -> bool, y: T, z: T)
    requires keep(y) && keep(z) && y in s && z in s
    requires IndexOf(Filter(s, keep), y) < IndexOf(Filter(s, keep), z)
    ensures IndexOf(s, y) < IndexOf(s, z)
    decreases |s|
  {
    var f := Filter(s, keep);
    var g := Filter(s[1..], keep);
    assert f == (if keep(s[0]) then [s[0]] else []) + g;
    if s[0] == z && s[0] != y {
      FilterMembers(s, keep);
      assert false;
    } else if s[0] != y && s[0] != z {
      assert y in s[1..] && z in s[1..];
      assert IndexOf(s, y) == 1 + IndexOf(s[1..], y);
      assert IndexOf(s, z) == 1 + IndexOf(s[1..], z);
      FilterMembers(s[1..], keep);
      assert y in g && z in g;
      if keep(s[0]) {
        assert f[0] == s[0] && f[1..] == g;
        assert IndexOf(f, y) == 1 + IndexOf(g, y);
        assert IndexOf(f, z) == 1 + IndexOf(g, z);
      } else {
        assert f == g;
      }
      FilterFirstOrder(s[1..], keep, y, z);
    }
  }

  /** Uniq lists the distinct elements in the order of their first
      occurrences. */
  lemma {:induction false} UniqOrder<T(!new)>(s: seq<T>)
    ensures forall i, j :: 0 <= i < j < |Uniq(s)| ==> IndexOf(s, Uniq(s)[i]) < IndexOf(s, Uniq(s)[j])
    decreases |s|
  {
    if s != [] {
      var f := Filter(s[1..], x => x != s[0]);
      var u := Uniq(s);
      var uf := Uniq(f);
      UniqOrder(f);
      UniqSpec(f);
      FilterMembers(s[1..], x => x != s[0]);
      assert u == [s[0]] + uf;
      forall i, j | 0 <= i < j < |u|
        ensures IndexOf(s, u[i]) < IndexOf(s, u[j])
      {
        var z := uf[j - 1];
        assert u[j] == z && z in f;
        if i > 0 {
          var y := uf[i - 1];
          assert u[i] == y && y in f;
          FilterFirstOrder(s[1..], x => x != s[0], y, z);
        }
      }
    }
  }

  /** Without duplicates there is nothing for Uniq to remove. */
  lemma {:induction false} UniqOfNoDup<T(!new)>(s: seq<T>)
    requires NoDup(s)
    ensures Uniq(s) == s
    decreases |s|
  {
    if s != [] {
      assert s[0] !in s[1..];
      FilterAll(s[1..], x => x != s[0]);
      UniqOfNoDup(s[1..]);
    }
  }

  // ---------------------------------------------------------------------
  // Removing the first occurrence

  /** Removing the first occurrence takes exactly one copy of `x` out of a
      sequence that holds one, keeps the order of the rest, and changes
      nothing otherwise. */
  lemma RemoveFirstSpec<T>(s: seq<T>, x: T)
    ensures x in s ==> |RemoveFirst(s, x)| == |s| - 1
    ensures x in s ==> multiset(RemoveFirst(s, x)) == multiset(s) - multiset{x}
    ensures x !in s ==> RemoveFirst(s, x) == s
    ensures Subseq(RemoveFirst(s, x), s)
    ensures NoDup(s) ==> NoDup(RemoveFirst(s, x)) && x !in RemoveFirst(s, x)
  {
    if x in s {
      var i := IndexOf(s, x);
      RemoveAtMultiset(s, i);
      RemoveAtSubseq(s, i);
      if NoDup(s) {
        RemoveAtNoDup(s, i);
      }
    } else {
      SubseqRefl(s);
    }
  }

  lemma RemoveAtMultiset<T>(s: seq<T>, i: nat)
    requires i < |s|
    ensures multiset(RemoveAt(s, i)) == multiset(s) - multiset{s[i]}
  {
    assert s == s[..i] + [s[i]] + s[i + 1..];
    assert multiset(s) == multiset(s[..i]) + multiset{s[i]} + multiset(s[i + 1..]);
  }

  lemma RemoveAtNoDup<T>(s: seq<T>, i: nat)
    requires i < |s| && NoDup(s)
    ensures NoDup(RemoveAt(s, i)) && s[i] !in RemoveAt(s, i)
  {
    var r := RemoveAt(s, i);
    forall a, b | 0 <= a < b < |r| ensures r[a] != r[b] {
      var a' := if a < i then a else a + 1;
      var b' := if b < i then b else b + 1;
      assert r[a] == s[a'] && r[b] == s[b'];
    }
    forall k | 0 <= k < |r| ensures r[k] != s[i] {
      var k' := if k < i then k else k + 1;
      assert r[k] == s[k'];
    }
  }

  lemma {:induction false} RemoveAtSubseq<T>(s: seq<T>, i: nat)
    requires i < |s|
    ensures Subseq(RemoveAt(s, i), s)
    decreases i
  {
    if i == 0 {
      assert RemoveAt(s, 0) == s[1..];
      SubseqRefl(s[1..]);
    } else {
      RemoveAtSubseq(s[1..], i - 1);
      assert RemoveAt(s, i) == [s[0]] + RemoveAt(s[1..], i - 1);
    }
  }
}
