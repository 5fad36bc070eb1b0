/**
 * The pieces of Go's `strings` package the core uses: searching for a
 * pattern, `strings.Split` with a non-empty separator, and
 * `strings.TrimSuffix`.
 */
module Strings {

  /** pat occurs in s starting at index j. */
  predicate OccursAt(s: string, pat: string, j: int) {
    0 <= j && j + |pat| <= |s| && s[j..j + |pat|] == pat
  }

  /**
   * The first index at or after from where pat occurs in s, or |s| when
   * there is none.
   */
  function Find(s: string, pat: string, from: nat): (k: nat)
    requires pat != [] && from <= |s|
    ensures from <= k <= |s|
    ensures k < |s| ==> OccursAt(s, pat, k)
    ensures forall j :: from <= j < k ==> !OccursAt(s, pat, j)
    ensures k == |s| ==> forall j :: from <= j ==> !OccursAt(s, pat, j)
    decreases |s| - from
  {
    if from == |s| then |s|
    else if OccursAt(s, pat, from) then from
    else Find(s, pat, from + 1)
  }

  /** The first index at or after from holding c, or |s| when there is none. */
  function IndexOf(s: string, c: char, from: nat): (k: nat)
    requires from <= |s|
    ensures from <= k <= |s|
    ensures k < |s| ==> s[k] == c
    ensures forall j :: from <= j < k ==> s[j] != c
    decreases |s| - from
  {
    if from == |s| then |s|
    else if s[from] == c then from
    else IndexOf(s, c, from + 1)
  }

  /** No occurrence of pat lies wholly inside s. */
  ghost predicate Free(s: string, pat: string) {
    forall j :: !OccursAt(s, pat, j)
  }

  /**
   * Go's strings.Split for a non-empty separator: the pieces between
   * successive leftmost, non-overlapping occurrences of sep. Joining the
   * pieces with sep gives back s, and no piece holds sep.
   */
  function Split(s: string, sep: string): (r: seq<string>)
    requires sep != []
    ensures |r| >= 1
    ensures Join(r, sep) == s
    ensures forall i :: 0 <= i < |r| ==> Free(r[i], sep)
    decreases |s|
  {
    var k := Find(s, sep, 0);
    PrefixFree(s, sep, k);
    if k == |s| then
      assert s[..k] == s;
      [s]
    else
      var rest := s[k + |sep|..];
      assert s == s[..k] + sep + rest by { assert s[k..k + |sep|] == sep; }
      [s[..k]] + Split(rest, sep)
  }

  /** Where piece i of a split begins in s: the earlier pieces, each followed by sep. */
  function Start(r: seq<string>, sep: string, i: nat): nat
    requires i <= |r|
  {
    if i == 0 then 0 else Start(r, sep, i - 1) + |r[i - 1]| + |sep|
  }

  /** Putting a piece in front shifts every later start by that piece and one sep. */
  lemma {:induction false} StartCons(a: string, r: seq<string>, sep: string, i: nat)
    requires i <= |r|
    ensures Start([a] + r, sep, i + 1) == |a| + |sep| + Start(r, sep, i)
    decreases i
  {
    if i > 0 {
      StartCons(a, r, sep, i - 1);
      assert ([a] + r)[i] == r[i - 1];
    }
  }

  /**
   * Split cuts at the leftmost occurrence each time: no occurrence of sep
   * begins anywhere inside a piece, so each piece ends where the first
   * occurrence after its start begins.
   */
  lemma SplitLeftmost(s: string, sep: string)
    requires sep != []
    ensures var r := Split(s, sep);
      forall i, j :: 0 <= i < |r| && Start(r, sep, i) <= j < Start(r, sep, i) + |r[i]| ==> !OccursAt(s, sep, j)
  {
    var r := Split(s, sep);
    forall i, j | 0 <= i < |r| && Start(r, sep, i) <= j < Start(r, sep, i) + |r[i]|
      ensures !OccursAt(s, sep, j)
    {
      NoCutInside(s, sep, i, j);
    }
  }

  /** An occurrence at or after d is an occurrence in the suffix from d. */
  lemma OccursInSuffix(s: string, pat: string, d: nat, j: int)
    requires d <= j && d <= |s|
    ensures OccursAt(s, pat, j) ==> OccursAt(s[d..], pat, j - d)
  {
  }

  /** The first piece is s up to the first occurrence of sep. */
  lemma FirstPiece(s: string, sep: string)
    requires sep != []
    ensures Split(s, sep)[0] == s[..Find(s, sep, 0)]
  {
  }

  /**
   * A position inside a later piece lies, shifted back past the first
   * occurrence, inside the previous piece of the split of what follows it.
   */
  lemma LaterPiece(s: string, sep: string, i: nat, j: int)
    requires sep != [] && 0 < i < |Split(s, sep)|
    requires Start(Split(s, sep), sep, i) <= j < Start(Split(s, sep), sep, i) + |Split(s, sep)[i]|
    ensures var k := Find(s, sep, 0);
      var r' := Split(s[k + |sep|..], sep);
      k + |sep| <= j && i - 1 < |r'|
      && Start(r', sep, i - 1) <= j - k - |sep| < Start(r', sep, i - 1) + |r'[i - 1]|
  {
    var k := Find(s, sep, 0);
    var r' := Split(s[k + |sep|..], sep);
    assert Split(s, sep) == [s[..k]] + r';
    StartCons(s[..k], r', sep, i - 1);
  }

  /** No occurrence of sep begins at position j inside piece i. */
  lemma {:induction false} NoCutInside(s: string, sep: string, i: nat, j: int)
    requires sep != []
    ensures i < |Split(s, sep)| && Start(Split(s, sep), sep, i) <= j < Start(Split(s, sep), sep, i) + |Split(s, sep)[i]|
      ==> !OccursAt(s, sep, j)
    decreases |s|
  {
    var r := Split(s, sep);
    if i < |r| && Start(r, sep, i) <= j < Start(r, sep, i) + |r[i]| {
      var k := Find(s, sep, 0);
      if i == 0 {
        FirstPiece(s, sep);
      } else {
        LaterPiece(s, sep, i, j);
        NoCutInside(s[k + |sep|..], sep, i - 1, j - k - |sep|);
        OccursInSuffix(s, sep, k + |sep|, j);
      }
    }
  }

  /** Go's strings.Join: the parts with sep between each pair. */
  function Join(parts: seq<string>, sep: string): string
    requires |parts| >= 1
    decreases |parts|
  {
    if |parts| == 1 then parts[0] else parts[0] + sep + Join(parts[1..], sep)
  }

  /** Go's strings.TrimSuffix: drops one copy of suffix from the end, if there. */
  function TrimSuffix(s: string, suffix: string): (r: string)
    ensures r == s || r + suffix == s
    ensures |s| >= |suffix| && s[|s| - |suffix|..] == suffix ==> r + suffix == s
    ensures !(|s| >= |suffix| && s[|s| - |suffix|..] == suffix) ==> r == s
  {
    if |s| >= |suffix| && s[|s| - |suffix|..] == suffix then s[..|s| - |suffix|] else s
  }

  /** A piece that ends where an occurrence of pat begins holds no occurrence of pat. */
  lemma PrefixFree(s: string, pat: string, k: nat)
    requires pat != [] && k <= |s|
    requires forall j :: 0 <= j < k ==> !OccursAt(s, pat, j)
    ensures Free(s[..k], pat)
  {
    forall j | OccursAt(s[..k], pat, j)
      ensures false
    {
      assert s[..k][j..j + |pat|] == s[j..j + |pat|];
      assert OccursAt(s, pat, j);
    }
  }

  /** A string without the separator's first character splits into itself. */
  lemma SplitWhole(s: string, sep: string)
    requires sep != [] && sep[0] !in s
    ensures Split(s, sep) == [s]
  {
  }

  /**
   * A field free of the separator's first character, followed by the
   * separator, is split off as the first piece.
   */
  lemma SplitFirst(f: string, sep: string, rest: string)
    requires sep != [] && sep[0] !in f
    ensures Split(f + sep + rest, sep) == [f] + Split(rest, sep)
  {
    var s := f + sep + rest;
    assert OccursAt(s, sep, |f|) by {
      assert s[|f|..|f| + |sep|] == sep;
    }
    var k := Find(s, sep, 0);
    assert k == |f|;
    assert s[..k] == f;
    assert s[k + |sep|..] == rest;
  }

  /**
   * Joining fields that lack the separator's first character and
   * splitting again gives back the fields.
   */
  lemma {:induction false} SplitJoin(fs: seq<string>, sep: string)
    requires |fs| >= 1 && sep != []
    requires forall i :: 0 <= i < |fs| ==> sep[0] !in fs[i]
    ensures Split(Join(fs, sep), sep) == fs
    decreases |fs|
  {
    if |fs| == 1 {
      SplitWhole(fs[0], sep);
    } else {
      SplitFirst(fs[0], sep, Join(fs[1..], sep));
      SplitJoin(fs[1..], sep);
      assert fs == [fs[0]] + fs[1..];
    }
  }
}
