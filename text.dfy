/** String operations the picker takes from Go's `strings` package, on
    strings modelled as sequences of characters. */
module Text {

  /** ASCII lower-casing of one character (`strings.ToLower` restricted to ASCII). */
  function LowerChar(c: char): (r: char)
    ensures 'A' <= c <= 'Z' ==> r as int == c as int + 32
    ensures !('A' <= c <= 'Z') ==> r == c
  {
    if 'A' <= c <= 'Z' then (c as int + 32) as char else c
  }

  function Lower(s: string): (r: string)
    ensures |r| == |s|
    ensures forall i :: 0 <= i < |s| ==> r[i] == LowerChar(s[i])
  {
    seq(|s|, i requires 0 <= i < |s| => LowerChar(s[i]))
  }

  /** `sub` occurs in `s` starting at index `i`. */
  ghost predicate OccursAt(s: string, sub: string, i: int) {
    0 <= i && i + |sub| <= |s| && s[i..i + |sub|] == sub
  }

  /** `strings.Contains`: `sub` occurs somewhere in `s`. */
  predicate Contains(s: string, sub: string)
    decreases |s|
  {
    (|sub| <= |s| && s[..|sub|] == sub) || (s != [] && Contains(s[1..], sub))
  }

  /** Contains holds exactly when there is an index at which `sub` occurs. */
  lemma ContainsSpec(s: string, sub: string)
    ensures Contains(s, sub) <==> exists i :: OccursAt(s, sub, i)
  {
    if Contains(s, sub) {
      ContainsWitness(s, sub);
    }
    if i :| OccursAt(s, sub, i) {
      OccursContains(s, sub, i);
    }
  }

  lemma {:induction false} ContainsWitness(s: string, sub: string)
    requires Contains(s, sub)
    ensures exists i :: OccursAt(s, sub, i)
    decreases |s|
  {
    if |sub| <= |s| && s[..|sub|] == sub {
      assert OccursAt(s, sub, 0);
    } else {
      ContainsWitness(s[1..], sub);
      var i :| OccursAt(s[1..], sub, i);
      assert s[i + 1..i + 1 + |sub|] == s[1..][i..i + |sub|];
      assert OccursAt(s, sub, i + 1);
    }
  }

  lemma {:induction false} OccursContains(s: string, sub: string, i: int)
    requires OccursAt(s, sub, i)
    ensures Contains(s, sub)
    decreases i
  {
    if i != 0 {
      assert s[1..][i - 1..i - 1 + |sub|] == s[i..i + |sub|];
      OccursContains(s[1..], sub, i - 1);
    }
  }

  /** Case-insensitive containment, as the picker's filters test it:
      `strings.Contains(strings.ToLower(s), strings.ToLower(sub))`. */
  predicate ContainsFold(s: string, sub: string) {
    Contains(Lower(s), Lower(sub))
  }

  /** Case-insensitive equality (`strings.EqualFold`, ASCII only). */
  predicate EqualFold(a: string, b: string) {
    Lower(a) == Lower(b)
  }

  /** White space as Go's `unicode.IsSpace` defines it. */
  const SpaceChars: set<char> := {
    ' ', '\t', '\n', '\U{0B}', '\U{0C}', '\r', '\U{85}', '\U{A0}', '\U{1680}',
    '\U{2000}', '\U{2001}', '\U{2002}', '\U{2003}', '\U{2004}', '\U{2005}',
    '\U{2006}', '\U{2007}', '\U{2008}', '\U{2009}', '\U{200A}',
    '\U{2028}', '\U{2029}', '\U{202F}', '\U{205F}', '\U{3000}'
  }

  predicate IsSpace(c: char) {
    c in SpaceChars
  }

  ghost predicate AllSpace(s: string) {
    forall i :: 0 <= i < |s| ==> IsSpace(s[i])
  }

  /** Neither end of `s` is white space. */
  ghost predicate Trimmed(s: string) {
    s == [] || (!IsSpace(s[0]) && !IsSpace(s[|s| - 1]))
  }

  /** The index of the first character at or after `i` that is not white
      space (`|s|` when there is none): the forward scan of `strings.TrimSpace`. */
  function TrimStart(s: string, i: nat): (r: nat)
    requires i <= |s|
    ensures i <= r <= |s|
    decreases |s| - i
  {
    if i < |s| && IsSpace(s[i]) then TrimStart(s, i + 1) else i
  }

  /** The end of `s[lo..j]` once trailing white space is dropped: the
      backward scan of `strings.TrimSpace`, which stops at `lo`. */
  function TrimEnd(s: string, j: nat, lo: nat): (r: nat)
    requires lo <= j <= |s|
    ensures lo <= r <= j
    decreases j
  {
    if lo < j && IsSpace(s[j - 1]) then TrimEnd(s, j - 1, lo) else j
  }

  /** The forward scan passes only white space and stops at the end or at a
      character that is not white space. */
  lemma {:induction false} TrimStartSpec(s: string, i: nat)
    requires i <= |s|
    ensures forall k :: i <= k < TrimStart(s, i) ==> IsSpace(s[k])
    ensures TrimStart(s, i) == |s| || !IsSpace(s[TrimStart(s, i)])
    decreases |s| - i
  {
    if i < |s| && IsSpace(s[i]) {
      TrimStartSpec(s, i + 1);
    }
  }

  /** The backward scan passes only white space and stops at `lo` or after a
      character that is not white space. */
  lemma {:induction false} TrimEndSpec(s: string, j: nat, lo: nat)
    requires lo <= j <= |s|
    ensures forall k :: TrimEnd(s, j, lo) <= k < j ==> IsSpace(s[k])
    ensures TrimEnd(s, j, lo) == lo || !IsSpace(s[TrimEnd(s, j, lo) - 1])
    decreases j
  {
    if lo < j && IsSpace(s[j - 1]) {
      TrimEndSpec(s, j - 1, lo);
    }
  }

  /** `strings.TrimSpace`: drop leading and trailing white space. */
  function TrimSpace(s: string): (r: string)
    ensures |r| <= |s|
  {
    var i := TrimStart(s, 0);
    s[i..TrimEnd(s, |s|, i)]
  }

  /** The trimmed text is the middle slice of `s`, everything cut away is
      white space, and neither end of the result is. */
  lemma TrimSpaceSpec(s: string)
    ensures exists i, j :: 0 <= i <= j <= |s| && TrimSpace(s) == s[i..j] && AllSpace(s[..i]) && AllSpace(s[j..])
    ensures Trimmed(TrimSpace(s))
  {
    var i := TrimStart(s, 0);
    var j := TrimEnd(s, |s|, i);
    TrimStartSpec(s, 0);
    TrimEndSpec(s, |s|, i);
    AllSpaceSlice(s, 0, i);
    AllSpaceSlice(s, j, |s|);
    assert s[..i] == s[0..i] && s[j..] == s[j..|s|];
  }

  /** Trimming is idempotent. */
  lemma TrimSpaceIdempotent(s: string)
    ensures TrimSpace(TrimSpace(s)) == TrimSpace(s)
  {
    var t := TrimSpace(s);
    TrimSpaceSpec(s);
    if t != [] {
      assert TrimStart(t, 0) == 0;
      assert TrimEnd(t, |t|, 0) == |t|;
    }
    assert t[0..|t|] == t;
  }

  // ---------------------------------------------------------------------
  // Splitting into lines

  /** `strings.Split(s, string(sep))`: the pieces between the separators. There
      is always at least one piece, and no piece holds the separator. */
  function Split(s: string, sep: char): (r: seq<string>)
    ensures |r| >= 1
    ensures forall k :: 0 <= k < |r| ==> sep !in r[k]
    decreases |s|
  {
    if sep !in s then [s]
    else
      var i := IndexOfChar(s, sep);
      [s[..i]] + Split(s[i + 1..], sep)
  }

  function IndexOfChar(s: string, c: char): (r: nat)
    requires c in s
    ensures r < |s| && s[r] == c && c !in s[..r]
  {
    if s[0] == c then 0
    else
      var k := IndexOfChar(s[1..], c);
      assert s[..k + 1] == [s[0]] + s[1..][..k];
      k + 1
  }

  /** `strings.Join(pieces, string(sep))`. */
  function Join(pieces: seq<string>, sep: char): string
    requires |pieces| >= 1
  {
    if |pieces| == 1 then pieces[0] else pieces[0] + [sep] + Join(pieces[1..], sep)
  }

  /** Joining the pieces back gives the original text. */
  lemma {:induction false} JoinSplit(s: string, sep: char)
    ensures Join(Split(s, sep), sep) == s
    decreases |s|
  {
    if sep in s {
      var i := IndexOfChar(s, sep);
      var rest := Split(s[i + 1..], sep);
      JoinSplit(s[i + 1..], sep);
      var r := Split(s, sep);
      assert r == [s[..i]] + rest;
      assert r[0] == s[..i] && r[1..] == rest;
      assert Join(r, sep) == s[..i] + [sep] + Join(rest, sep);
      assert s == s[..i] + [sep] + s[i + 1..];
    }
  }

  /** The first occurrence is the one with no occurrence before it. */
  lemma IndexOfCharAt(s: string, c: char, n: nat)
    requires n < |s| && s[n] == c && c !in s[..n]
    ensures IndexOfChar(s, c) == n
  {
  }

  /** Splitting a join of separator-free pieces gives the pieces back. */
  lemma {:induction false} SplitJoin(pieces: seq<string>, sep: char)
    requires |pieces| >= 1
    requires forall k :: 0 <= k < |pieces| ==> sep !in pieces[k]
    ensures Split(Join(pieces, sep), sep) == pieces
    decreases |pieces|
  {
    if |pieces| > 1 {
      var s := Join(pieces, sep);
      var p := pieces[0];
      var rest := Join(pieces[1..], sep);
      assert s == p + [sep] + rest;
      assert s[..|p|] == p && s[|p|] == sep && s[|p| + 1..] == rest;
      IndexOfCharAt(s, sep, |p|);
      assert Split(s, sep) == [p] + Split(rest, sep);
      SplitJoin(pieces[1..], sep);
      assert pieces == [p] + pieces[1..];
    } else {
      assert sep !in pieces[0];
    }
  }

  /** Everything between `lo` and `hi` being white space is `AllSpace` of
      that slice. */
  lemma AllSpaceSlice(s: string, lo: nat, hi: nat)
    requires lo <= hi <= |s|
    requires forall k :: lo <= k < hi ==> IsSpace(s[k])
    ensures AllSpace(s[lo..hi])
  {
    forall k | 0 <= k < hi - lo ensures IsSpace(s[lo..hi][k]) {
      assert s[lo..hi][k] == s[lo + k];
    }
  }
}
