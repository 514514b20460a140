/** The pieces of Go's `strings` package that the request path relies on:
    `Index`, `Split`, `Join`, `TrimSpace` and `ToLower`. A string is a sequence
    of Unicode scalar values (Go's runes). */
module Strings {

  /** `sep` occurs in `s` starting at index `i`. */
  predicate OccursAt(s: string, sep: string, i: int) {
    0 <= i && i + |sep| <= |s| && s[i..i + |sep|] == sep
  }

  ghost predicate Contains(s: string, sep: string) {
    exists i :: OccursAt(s, sep, i)
  }

  /** `sep` occurs in `s` at exactly one position. */
  ghost predicate ExactlyOnce(s: string, sep: string) {
    exists i :: OccursAt(s, sep, i) && forall j :: OccursAt(s, sep, j) ==> j == i
  }

  /** No proper suffix of `sep` is also a prefix of it, so two occurrences of
      `sep` can never overlap. */
  ghost predicate OverlapFree(sep: string) {
    forall k :: 0 < k < |sep| ==> sep[k..] != sep[..|sep| - k]
  }

  /** An occurrence inside a slice of `s` is an occurrence in `s`, shifted. */
  lemma OccursInSlice(s: string, sep: string, a: nat, b: nat, j: int)
    requires a <= b <= |s| && OccursAt(s[a..b], sep, j)
    ensures OccursAt(s, sep, a + j)
  {
    forall t | 0 <= t < |sep| ensures s[a + j..a + j + |sep|][t] == sep[t] {
      assert s[a..b][j..j + |sep|][t] == sep[t];
    }
  }

  /** strings.Index applied to `s[from..]`, reported as a position in `s`: the
      first occurrence of `sep` at or after `from`, or -1. */
  function IndexFrom(s: string, sep: string, from: nat): (r: int)
    ensures r == -1 || (from <= r && OccursAt(s, sep, r))
    ensures r >= 0 ==> forall j :: from <= j < r ==> !OccursAt(s, sep, j)
    ensures r < 0 ==> forall j :: from <= j ==> !OccursAt(s, sep, j)
    decreases |s| - from
  {
    if from + |sep| > |s| then -1
    else if OccursAt(s, sep, from) then from
    else IndexFrom(s, sep, from + 1)
  }

  /** strings.Index: the position of the first occurrence of `sep`, or -1. */
  function Index(s: string, sep: string): (r: int)
    ensures -1 <= r <= |s|
    ensures r >= 0 ==> OccursAt(s, sep, r)
    ensures r >= 0 ==> forall j :: 0 <= j < r ==> !OccursAt(s, sep, j)
    ensures r < 0 ==> forall j :: !OccursAt(s, sep, j)
  {
    IndexFrom(s, sep, 0)
  }

  /** The pieces of `s[from..]` between the successive leftmost occurrences
      of `sep`, the way strings.Split walks the rest of its input. */
  function SplitFrom(s: string, sep: string, from: nat): (pieces: seq<string>)
    requires |sep| > 0 && from <= |s|
    ensures |pieces| >= 1
    decreases |s| - from
  {
    var i := IndexFrom(s, sep, from);
    if i < 0 then [s[from..]] else [s[from..i]] + SplitFrom(s, sep, i + |sep|)
  }

  /** strings.Split: the pieces of `s` between the successive leftmost
      non-overlapping occurrences of `sep`. */
  function Split(s: string, sep: string): (pieces: seq<string>)
    requires |sep| > 0
    ensures |pieces| >= 1
  {
    SplitFrom(s, sep, 0)
  }

  /** strings.Join. */
  function Join(pieces: seq<string>, sep: string): string {
    if |pieces| == 0 then ""
    else if |pieces| == 1 then pieces[0]
    else pieces[0] + sep + Join(pieces[1..], sep)
  }

  lemma {:induction false} JoinSplitFrom(s: string, sep: string, from: nat)
    requires |sep| > 0 && from <= |s|
    ensures Join(SplitFrom(s, sep, from), sep) == s[from..]
    decreases |s| - from
  {
    var i := IndexFrom(s, sep, from);
    if i >= 0 {
      var tail := SplitFrom(s, sep, i + |sep|);
      JoinSplitFrom(s, sep, i + |sep|);
      assert SplitFrom(s, sep, from) == [s[from..i]] + tail;
      assert ([s[from..i]] + tail)[1..] == tail;
      assert s[from..] == s[from..i] + s[i..i + |sep|] + s[i + |sep|..];
    }
  }

  /** Joining the pieces back with the separator gives the original string. */
  lemma JoinSplit(s: string, sep: string)
    requires |sep| > 0
    ensures Join(Split(s, sep), sep) == s
  {
    JoinSplitFrom(s, sep, 0);
    assert s[0..] == s;
  }

  lemma {:induction false} SplitFromPiecesFree(s: string, sep: string, from: nat)
    requires |sep| > 0 && from <= |s|
    ensures forall k :: 0 <= k < |SplitFrom(s, sep, from)| ==> !Contains(SplitFrom(s, sep, from)[k], sep)
    decreases |s| - from
  {
    var i := IndexFrom(s, sep, from);
    var end := if i < 0 then |s| else i;
    forall j | OccursAt(s[from..end], sep, j) ensures false {
      OccursInSlice(s, sep, from, end, j);
    }
    assert !Contains(s[from..end], sep);
    if i >= 0 {
      SplitFromPiecesFree(s, sep, i + |sep|);
      var tail := SplitFrom(s, sep, i + |sep|);
      assert SplitFrom(s, sep, from) == [s[from..end]] + tail;
    } else {
      assert s[from..end] == s[from..];
    }
  }

  /** No piece produced by Split contains the separator. */
  lemma SplitPiecesFree(s: string, sep: string)
    requires |sep| > 0
    ensures forall k :: 0 <= k < |Split(s, sep)| ==> !Contains(Split(s, sep)[k], sep)
  {
    SplitFromPiecesFree(s, sep, 0);
  }

  /** Two overlapping occurrences of `sep` make a suffix of it equal to a
      prefix of it. */
  lemma OverlapShift(s: string, sep: string, i: int, j: int)
    requires OccursAt(s, sep, i) && OccursAt(s, sep, j) && i < j < i + |sep|
    ensures sep[j - i..] == sep[..|sep| - (j - i)]
  {
    var n, k := |sep|, j - i;
    forall t | 0 <= t < n - k ensures sep[k..][t] == sep[..n - k][t] {
      assert s[i..i + n][k + t] == s[i + k + t];
      assert s[j..j + n][t] == s[i + k + t];
    }
  }

  /** Two occurrences of an overlap-free separator are at least |sep| apart. */
  lemma OccurrencesApart(s: string, sep: string, i: int, j: int)
    requires OverlapFree(sep) && OccursAt(s, sep, i) && OccursAt(s, sep, j) && i < j
    ensures j >= i + |sep|
  {
    if j < i + |sep| {
      OverlapShift(s, sep, i, j);
      assert false;
    }
  }

  /** The first occurrence is the only one when none follows it. */
  lemma OnlyOccurrence(s: string, sep: string, i: int)
    requires OverlapFree(sep) && i == IndexFrom(s, sep, 0) && i >= 0
    requires IndexFrom(s, sep, i + |sep|) < 0
    ensures ExactlyOnce(s, sep)
  {
    forall j | OccursAt(s, sep, j) ensures j == i {
      if j > i {
        OccurrencesApart(s, sep, i, j);
      }
    }
  }

  /** With a separator whose occurrences cannot overlap, Split yields exactly
      two pieces precisely when the separator occurs exactly once. */
  lemma TwoPieces(s: string, sep: string)
    requires |sep| > 0 && OverlapFree(sep)
    ensures |Split(s, sep)| == 2 <==> ExactlyOnce(s, sep)
  {
    var i := IndexFrom(s, sep, 0);
    if i >= 0 {
      var rest := SplitFrom(s, sep, i + |sep|);
      assert Split(s, sep) == [s[..i]] + rest;
      var k := IndexFrom(s, sep, i + |sep|);
      if k < 0 {
        OnlyOccurrence(s, sep, i);
      } else {
        assert |rest| >= 2;
        assert OccursAt(s, sep, i) && OccursAt(s, sep, k) && k != i;
      }
    }
  }

  /** When `sep` occurs only at `i`, the second piece of Split is everything
      after that occurrence, and the first everything before it. */
  lemma PiecesAroundSole(s: string, sep: string, i: int)
    requires |sep| > 0 && OccursAt(s, sep, i)
    requires forall j :: OccursAt(s, sep, j) ==> j == i
    ensures Split(s, sep) == [s[..i], s[i + |sep|..]]
  {
    var first := IndexFrom(s, sep, 0);
    assert first >= 0 ==> OccursAt(s, sep, first);
    assert first == i;
    var next := IndexFrom(s, sep, i + |sep|);
    assert next >= 0 ==> OccursAt(s, sep, next);
    assert SplitFrom(s, sep, i + |sep|) == [s[i + |sep|..]];
  }

  /** unicode.IsSpace: the Unicode White_Space characters. */
  predicate IsSpace(c: char) {
    c == ' ' || c == '\t' || c == '\n' || c == '\U{B}' || c == '\U{C}' || c == '\r'
    || c == '\U{85}' || c == '\U{A0}' || c == '\U{1680}'
    || ('\U{2000}' <= c <= '\U{200A}')
    || c == '\U{2028}' || c == '\U{2029}' || c == '\U{202F}' || c == '\U{205F}' || c == '\U{3000}'
  }

  /** The first position at or after `i` that does not hold white space, or
      `|s|` when there is none: how strings.TrimSpace finds the start. */
  function SpaceEnd(s: string, i: nat): (j: nat)
    requires i <= |s|
    ensures i <= j <= |s|
    ensures forall k :: i <= k < j ==> IsSpace(s[k])
    ensures j == |s| || !IsSpace(s[j])
    decreases |s| - i
  {
    if i < |s| && IsSpace(s[i]) then SpaceEnd(s, i + 1) else i
  }

  /** The least position `e`, no lower than `lo`, such that only white space
      lies between `e` and `j`: how strings.TrimSpace finds the stop, scanning
      back from the end no further than the start. */
  function SpaceStart(s: string, lo: nat, j: nat): (e: nat)
    requires lo <= j <= |s|
    ensures lo <= e <= j
    ensures forall k :: e <= k < j ==> IsSpace(s[k])
    ensures e == lo || !IsSpace(s[e - 1])
    decreases j
  {
    if j > lo && IsSpace(s[j - 1]) then SpaceStart(s, lo, j - 1) else j
  }

  /** strings.TrimSpace: `s` without its leading and trailing white space.
      The result is the slice of `s` from its first character that is not
      white space up to and including its last one, so neither of its ends is
      white space. */
  function TrimSpace(s: string): (r: string)
    ensures |r| <= |s|
    ensures r == [] || (!IsSpace(r[0]) && !IsSpace(r[|r| - 1]))
  {
    var start := SpaceEnd(s, 0);
    s[start..SpaceStart(s, start, |s|)]
  }

  /** TrimSpace keeps one infix of `s` and cuts off only white space on either
      side of it. */
  lemma TrimSpaceCutsSpace(s: string)
    ensures var r, start := TrimSpace(s), SpaceEnd(s, 0);
      && start + |r| <= |s|
      && r == s[start..start + |r|]
      && (forall k :: 0 <= k < start ==> IsSpace(s[k]))
      && (forall k :: start + |r| <= k < |s| ==> IsSpace(s[k]))
  {
    var start := SpaceEnd(s, 0);
    var stop := SpaceStart(s, start, |s|);
    assert TrimSpace(s) == s[start..stop];
    forall k | stop <= k < |s| ensures IsSpace(s[k]) {
    }
  }

  /** TrimSpace is fixed by what it promises: if `s` is white space, then `r`,
      then white space, and `r` neither starts nor ends with white space,
      TrimSpace(s) is `r`. */
  lemma TrimSpaceUnique(a: string, r: string, b: string)
    requires forall k :: 0 <= k < |a| ==> IsSpace(a[k])
    requires forall k :: 0 <= k < |b| ==> IsSpace(b[k])
    requires r == [] || (!IsSpace(r[0]) && !IsSpace(r[|r| - 1]))
    ensures TrimSpace(a + r + b) == r
  {
    var s := a + r + b;
    var start := SpaceEnd(s, 0);
    var stop := SpaceStart(s, start, |s|);
    assert forall k :: 0 <= k < |a| ==> s[k] == a[k];
    assert forall k :: |a| + |r| <= k < |s| ==> s[k] == b[k - |a| - |r|];
    if r == [] {
      assert start == |s|;
    } else {
      assert s[|a|] == r[0] && s[|a| + |r| - 1] == r[|r| - 1];
      assert start == |a|;
      assert stop == |a| + |r|;
      assert s[start..stop] == r;
    }
  }

  /** Trimming twice is trimming once. */
  lemma TrimSpaceIdempotent(s: string)
    ensures TrimSpace(TrimSpace(s)) == TrimSpace(s)
  {
    var r := TrimSpace(s);
    TrimSpaceUnique([], r, []);
    assert [] + r + [] == r;
  }

  /** unicode.ToLower, restricted to ASCII letters. */
  function LowerChar(c: char): (d: char)
    ensures !('A' <= d <= 'Z')
    ensures 'A' <= c <= 'Z' ==> d as int == c as int + 32
    ensures !('A' <= c <= 'Z') ==> d == c
  {
    if 'A' <= c <= 'Z' then (c as int + 32) as char else c
  }

  /** strings.ToLower, for ASCII letters: each character lower-cased in place. */
  function ToLower(s: string): (r: string)
    ensures |r| == |s|
    ensures forall k :: 0 <= k < |s| ==> r[k] == LowerChar(s[k])
  {
    if s == [] then [] else [LowerChar(s[0])] + ToLower(s[1..])
  }

  /** Lower-casing is idempotent. */
  lemma ToLowerIdempotent(s: string)
    ensures ToLower(ToLower(s)) == ToLower(s)
  {
    var r := ToLower(s);
    assert forall k :: 0 <= k < |r| ==> LowerChar(r[k]) == r[k];
  }
}
