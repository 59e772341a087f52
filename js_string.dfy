/**
 * The part of JavaScript's string library the front-matter processor relies on:
 * `String.prototype.split` with a non-empty string separator and no limit, as
 * the ECMAScript algorithm defines it (search for the separator from the
 * current position, cut there, resume behind the match, and keep the remainder
 * as the last piece). `Join` (`Array.prototype.join`) is its partner, used to
 * state the round trip; `Count` is an independent scan that counts the
 * separators.
 */
module JsString {
  import opened Wrappers

  /** `d` occurs in `s` starting at index `j`. */
  predicate OccursAt(s: string, d: string, j: int) {
    0 <= j && j + |d| <= |s| && s[j..j + |d|] == d
  }

  /** `d` occurs somewhere in `s`. */
  ghost predicate Contains(s: string, d: string) {
    exists j :: OccursAt(s, d, j)
  }

  /** No proper prefix of `d` is also a suffix of `d`: two occurrences of `d` never overlap. */
  ghost predicate BorderFree(d: string) {
    forall k :: 0 < k < |d| ==> d[..k] != d[|d| - k..]
  }

  /** No part of `parts` contains `d`. */
  ghost predicate PartsFree(parts: seq<string>, d: string) {
    forall k :: 0 <= k < |parts| ==> !Contains(parts[k], d)
  }

  /**
   * ECMAScript's StringIndexOf(s, d, from): the first index at or after `from`
   * where `d` occurs, or None. IndexOfFirst states that it is the first.
   */
  function IndexOf(s: string, d: string, from: nat): (r: Option<nat>)
    requires |d| > 0
    ensures r.Some? ==> from <= r.value && OccursAt(s, d, r.value)
    decreases |s| - from
  {
    if from + |d| > |s| then None
    else if s[from..from + |d|] == d then Some(from)
    else IndexOf(s, d, from + 1)
  }

  /** `s.split(d)` from position `from` on: the pieces between the occurrences IndexOf finds. */
  function SplitFrom(s: string, d: string, from: nat): (r: seq<string>)
    requires |d| > 0 && from <= |s|
    ensures |r| >= 1
    decreases |s| - from
  {
    match IndexOf(s, d, from)
    case None => [s[from..]]
    case Some(j) => [s[from..j]] + SplitFrom(s, d, j + |d|)
  }

  /** The last piece: no occurrence is left. */
  lemma SplitFromNone(s: string, d: string, from: nat)
    requires |d| > 0 && from <= |s| && IndexOf(s, d, from).None?
    ensures SplitFrom(s, d, from) == [s[from..]]
  {
  }

  /** One cut: the piece up to the occurrence IndexOf finds, then the pieces behind it. */
  lemma SplitFromSome(s: string, d: string, from: nat, j: nat)
    requires |d| > 0 && from <= |s| && IndexOf(s, d, from) == Some(j)
    ensures SplitFrom(s, d, from) == [s[from..j]] + SplitFrom(s, d, j + |d|)
  {
  }

  /** `s.split(d)`. */
  function Split(s: string, d: string): (r: seq<string>)
    requires |d| > 0
    ensures |r| >= 1
  {
    SplitFrom(s, d, 0)
  }

  /** `parts.join(d)`: the parts with `d` between consecutive ones. */
  function Join(parts: seq<string>, d: string): (r: string)
    ensures |parts| == 1 ==> r == parts[0]
    decreases |parts|
  {
    if |parts| == 0 then ""
    else if |parts| == 1 then parts[0]
    else parts[0] + d + Join(parts[1..], d)
  }

  /**
   * The number of occurrences of `d` in `s` at or after `from`, counted left to
   * right without overlap: after a match, counting resumes behind it.
   */
  function CountFrom(s: string, d: string, from: nat): nat
    requires |d| > 0
    decreases |s| - from
  {
    if from + |d| > |s| then 0
    else if s[from..from + |d|] == d then 1 + CountFrom(s, d, from + |d|)
    else CountFrom(s, d, from + 1)
  }

  /** The number of non-overlapping occurrences of `d` in `s`. */
  function Count(s: string, d: string): nat
    requires |d| > 0
  {
    CountFrom(s, d, 0)
  }

  /** `s.split(d)[0]`: the part of `s` before the first occurrence of `d`, or all of `s`. */
  function PrefixBefore(s: string, d: string): (r: string)
    requires |d| > 0
    ensures r <= s
    ensures forall j :: 0 <= j < |r| ==> !OccursAt(s, d, j)
    ensures Contains(s, d) ==> OccursAt(s, d, |r|)
    ensures !Contains(s, d) ==> r == s
  {
    IndexOfFirst(s, d, 0);
    Split(s, d)[0]
  }

  /**
   * IndexOf finds no occurrence between `from` and the index it returns, and
   * returns None exactly when there is no occurrence at or after `from`.
   */
  lemma {:induction false} IndexOfFirst(s: string, d: string, from: nat)
    requires |d| > 0
    ensures IndexOf(s, d, from).Some? ==>
              forall j :: from <= j < IndexOf(s, d, from).value ==> !OccursAt(s, d, j)
    ensures IndexOf(s, d, from).None? <==> forall j :: from <= j ==> !OccursAt(s, d, j)
    decreases |s| - from
  {
    if from + |d| <= |s| && s[from..from + |d|] != d {
      IndexOfFirst(s, d, from + 1);
    }
  }

  /** A slice of a slice is a slice of the original. */
  lemma SliceOfSlice(s: string, from: nat, to: nat, k: nat, n: nat)
    requires from <= to <= |s| && k + n <= to - from
    ensures s[from..to][k..k + n] == s[from + k..from + k + n]
  {
    var a, b := s[from..to][k..k + n], s[from + k..from + k + n];
    assert forall i :: 0 <= i < n ==> a[i] == b[i];
  }

  /** A split piece cut off before a first occurrence holds no occurrence itself. */
  lemma PieceFree(s: string, d: string, from: nat, to: nat)
    requires |d| > 0 && from <= to <= |s|
    requires forall j :: from <= j < to ==> !OccursAt(s, d, j)
    ensures !Contains(s[from..to], d)
  {
    var piece := s[from..to];
    forall k | 0 <= k && k + |d| <= |piece|
      ensures !OccursAt(piece, d, k)
    {
      SliceOfSlice(s, from, to, k, |d|);
      assert !OccursAt(s, d, from + k);
    }
  }

  /** No piece of a split contains the separator. */
  lemma {:induction false} SplitFromFree(s: string, d: string, from: nat)
    requires |d| > 0 && from <= |s|
    ensures PartsFree(SplitFrom(s, d, from), d)
    decreases |s| - from
  {
    IndexOfFirst(s, d, from);
    match IndexOf(s, d, from)
    case None =>
      PieceFree(s, d, from, |s|);
      assert s[from..] == s[from..|s|];
      SplitFromNone(s, d, from);
    case Some(j) =>
      var next := j + |d|;
      SplitFromFree(s, d, next);
      FreeStep(s, d, from, j, next);
  }

  /** One step of the splitting loop keeps every piece free of `d`. */
  lemma FreeStep(s: string, d: string, from: nat, j: nat, next: nat)
    requires |d| > 0 && from <= |s| && IndexOf(s, d, from) == Some(j) && next == j + |d|
    requires forall i :: from <= i < j ==> !OccursAt(s, d, i)
    requires PartsFree(SplitFrom(s, d, next), d)
    ensures PartsFree(SplitFrom(s, d, from), d)
  {
    PieceFree(s, d, from, j);
    var rest := SplitFrom(s, d, next);
    SplitFromSome(s, d, from, j);
    forall k | 0 < k < 1 + |rest|
      ensures !Contains(([s[from..j]] + rest)[k], d)
    {
      assert ([s[from..j]] + rest)[k] == rest[k - 1];
    }
  }

  /** No piece of `s.split(d)` contains `d`. */
  lemma SplitPiecesFree(s: string, d: string)
    requires |d| > 0
    ensures PartsFree(Split(s, d), d)
  {
    SplitFromFree(s, d, 0);
  }

  /** Joining a part in front of at least one more part puts the separator between them. */
  lemma JoinCons(parts: seq<string>, head: string, tail: seq<string>, d: string)
    requires |tail| >= 1 && parts == [head] + tail
    ensures Join(parts, d) == head + d + Join(tail, d)
  {
    assert parts[1..] == tail;
  }

  /** A suffix of `s` is the concatenation of three consecutive slices. */
  lemma SliceConcat(s: string, from: nat, j: nat, k: nat)
    requires from <= j <= k <= |s|
    ensures s[from..] == s[from..j] + s[j..k] + s[k..]
  {
  }

  /** Joining the pieces found from `from` on gives back `s[from..]`. */
  lemma {:induction false} JoinSplitFrom(s: string, d: string, from: nat)
    requires |d| > 0 && from <= |s|
    ensures Join(SplitFrom(s, d, from), d) == s[from..]
    decreases |s| - from
  {
    match IndexOf(s, d, from)
    case None =>
      SplitFromNone(s, d, from);
    case Some(j) =>
      var next := j + |d|;
      JoinSplitFrom(s, d, next);
      JoinStep(s, d, from, j, next);
  }

  /** One step of the splitting loop: joining puts back the piece and the matched `d`. */
  lemma JoinStep(s: string, d: string, from: nat, j: nat, next: nat)
    requires |d| > 0 && from <= |s| && IndexOf(s, d, from) == Some(j) && next == j + |d|
    requires Join(SplitFrom(s, d, next), d) == s[next..]
    ensures Join(SplitFrom(s, d, from), d) == s[from..]
  {
    var head, pieces := s[from..j], SplitFrom(s, d, next);
    SplitFromSome(s, d, from, j);
    JoinCons(SplitFrom(s, d, from), head, pieces, d);
    Recompose(s, from, j, next, d, Join(pieces, d));
  }

  /** A piece, the matched `d` and the text after the match make up the suffix again. */
  lemma Recompose(s: string, from: nat, j: nat, next: nat, d: string, rest: string)
    requires from <= j <= next <= |s| && s[j..next] == d && rest == s[next..]
    ensures s[from..j] + d + rest == s[from..]
  {
    SliceConcat(s, from, j, next);
  }

  /** Joining the pieces of a split with the separator gives back the original string. */
  lemma JoinSplit(s: string, d: string)
    requires |d| > 0
    ensures Join(Split(s, d), d) == s
  {
    JoinSplitFrom(s, d, 0);
  }

  /** A string without the separator splits into itself alone, and only such a string does. */
  lemma SplitSingle(s: string, d: string)
    requires |d| > 0
    ensures Split(s, d) == [s] <==> !Contains(s, d)
  {
    IndexOfFirst(s, d, 0);
    match IndexOf(s, d, 0)
    case None =>
    case Some(j) =>
      assert |Split(s, d)| >= 2;
  }

  /** Counting restarts behind the occurrence IndexOf finds. */
  lemma {:induction false} CountFirst(s: string, d: string, from: nat, j: nat, next: nat)
    requires |d| > 0 && IndexOf(s, d, from) == Some(j) && next == j + |d|
    ensures CountFrom(s, d, from) == 1 + CountFrom(s, d, next)
    decreases |s| - from
  {
    if s[from..from + |d|] != d {
      CountFirst(s, d, from + 1, j, next);
    }
  }

  lemma {:induction false} CountAbsent(s: string, d: string, from: nat)
    requires |d| > 0 && IndexOf(s, d, from).None?
    ensures CountFrom(s, d, from) == 0
    decreases |s| - from
  {
    if from + |d| <= |s| {
      CountAbsent(s, d, from + 1);
    }
  }

  /** A split from `from` yields one more piece than there are separators counted from `from`. */
  lemma {:induction false} SplitCountFrom(s: string, d: string, from: nat)
    requires |d| > 0 && from <= |s|
    ensures |SplitFrom(s, d, from)| == CountFrom(s, d, from) + 1
    decreases |s| - from
  {
    match IndexOf(s, d, from)
    case None =>
      CountAbsent(s, d, from);
      SplitFromNone(s, d, from);
    case Some(j) =>
      var next := j + |d|;
      SplitCountFrom(s, d, next);
      CountStep(s, d, from, j, next);
  }

  /** One step of the splitting loop adds one piece and one counted match. */
  lemma CountStep(s: string, d: string, from: nat, j: nat, next: nat)
    requires |d| > 0 && from <= |s| && IndexOf(s, d, from) == Some(j) && next == j + |d|
    requires |SplitFrom(s, d, next)| == CountFrom(s, d, next) + 1
    ensures |SplitFrom(s, d, from)| == CountFrom(s, d, from) + 1
  {
    SplitFromLength(s, d, from, j, next);
    CountFirst(s, d, from, j, next);
  }

  /** A match adds one piece in front of the split of what follows it. */
  lemma SplitFromLength(s: string, d: string, from: nat, j: nat, next: nat)
    requires |d| > 0 && from <= |s| && IndexOf(s, d, from) == Some(j) && next == j + |d|
    ensures |SplitFrom(s, d, from)| == 1 + |SplitFrom(s, d, next)|
  {
    SplitFromSome(s, d, from, j);
  }

  /** A split yields one more piece than there are non-overlapping occurrences of the separator. */
  lemma SplitCount(s: string, d: string)
    requires |d| > 0
    ensures |Split(s, d)| == Count(s, d) + 1
  {
    SplitCountFrom(s, d, 0);
  }

  /** An occurrence in the suffix `s == u[from..]` is an occurrence in `u`, `from` positions further on. */
  lemma OccursInSuffix(u: string, from: nat, s: string, d: string, j: nat)
    requires from <= |u| && u[from..] == s
    ensures OccursAt(s, d, j) <==> OccursAt(u, d, from + j)
  {
    if from + j + |d| <= |u| {
      var a, b := s[j..j + |d|], u[from + j..from + j + |d|];
      assert forall i :: 0 <= i < |d| ==> a[i] == b[i];
    }
  }

  /** The search from `from` returns `p` when `p` is the first occurrence at or after `from`. */
  lemma {:induction false} IndexOfAt(s: string, d: string, from: nat, p: nat)
    requires |d| > 0 && from <= p && OccursAt(s, d, p)
    requires forall j :: from <= j < p ==> !OccursAt(s, d, j)
    ensures IndexOf(s, d, from) == Some(p)
    decreases p - from
  {
    if from < p {
      assert !OccursAt(s, d, from);
      IndexOfAt(s, d, from + 1, p);
    }
  }

  /**
   * In `t + d + rest`, with `t` free of the border-free `d`, no occurrence of `d`
   * starts inside `t`.
   */
  lemma NoOccurrenceInside(t: string, d: string, rest: string, k: nat)
    requires |d| > 0 && BorderFree(d)
    requires !Contains(t, d) && k < |t|
    ensures !OccursAt(t + d + rest, d, k)
  {
    var s := t + d + rest;
    if k + |d| <= |t| {
      // the candidate lies inside t, which has no occurrence
      assert s[k..k + |d|] == t[k..k + |d|];
      assert !OccursAt(t, d, k);
    } else {
      // the candidate would overlap the copy of d behind t by len characters
      var len := k + |d| - |t|;
      assert s[|t|..|t| + |d|] == d;
      assert d[..len] == s[|t|..|t| + len];
      assert s[k..k + |d|][|d| - len..] == s[|t|..|t| + len];
      assert d[..len] != d[|d| - len..];
    }
  }

  /**
   * In `t + d + rest`, with `t` free of the border-free `d`, the first occurrence
   * of `d` is the one right after `t`.
   */
  lemma FirstOccurrence(t: string, d: string, rest: string)
    requires |d| > 0 && BorderFree(d) && !Contains(t, d)
    ensures OccursAt(t + d + rest, d, |t|)
    ensures forall k :: 0 <= k < |t| ==> !OccursAt(t + d + rest, d, k)
  {
    assert (t + d + rest)[|t|..|t| + |d|] == d;
    forall k | 0 <= k < |t|
      ensures !OccursAt(t + d + rest, d, k)
    {
      NoOccurrenceInside(t, d, rest, k);
    }
  }

  /** A first occurrence at `p` in the suffix `s == u[from..]` is what the search from `from` finds. */
  lemma IndexOfInSuffix(u: string, from: nat, s: string, d: string, p: nat)
    requires |d| > 0 && from <= |u| && u[from..] == s
    requires OccursAt(s, d, p) && forall k :: 0 <= k < p ==> !OccursAt(s, d, k)
    ensures IndexOf(u, d, from) == Some(from + p)
  {
    OccursInSuffix(u, from, s, d, p);
    forall j | from <= j < from + p
      ensures !OccursAt(u, d, j)
    {
      OccursInSuffix(u, from, s, d, j - from);
    }
    IndexOfAt(u, d, from, from + p);
  }

  /**
   * When `u[from..]` is `t + d + rest` and `t` does not contain the border-free
   * `d`, the search from `from` finds the copy of `d` placed right after `t`.
   */
  lemma FirstAfterFree(u: string, from: nat, t: string, d: string, rest: string)
    requires |d| > 0 && BorderFree(d)
    requires from <= |u| && u[from..] == t + d + rest
    requires !Contains(t, d)
    ensures IndexOf(u, d, from) == Some(from + |t|)
  {
    FirstOccurrence(t, d, rest);
    IndexOfInSuffix(u, from, t + d + rest, d, |t|);
  }

  /** Splitting a suffix `u[from..]` that is a join of free parts gives back the parts. */
  lemma {:induction false} SplitJoinFrom(u: string, from: nat, parts: seq<string>, d: string)
    requires |d| > 0 && BorderFree(d)
    requires |parts| >= 1 && PartsFree(parts, d)
    requires from <= |u| && u[from..] == Join(parts, d)
    ensures SplitFrom(u, d, from) == parts
    decreases |parts|
  {
    if |parts| == 1 {
      SplitJoinedSingle(u, from, parts, d);
    } else {
      var next, tail := from + |parts[0]| + |d|, parts[1..];
      JoinedStep(u, from, parts, d);
      SplitJoinFrom(u, next, tail, d);
      SplitFromStep(u, d, from, parts, next, tail);
    }
  }

  /** A suffix that is a single free piece is not split. */
  lemma SplitJoinedSingle(u: string, from: nat, parts: seq<string>, d: string)
    requires |d| > 0 && |parts| == 1 && PartsFree(parts, d)
    requires from <= |u| && u[from..] == Join(parts, d)
    ensures SplitFrom(u, d, from) == parts
  {
    var head := parts[0];
    assert !Contains(head, d);
    forall j | from <= j
      ensures !OccursAt(u, d, j)
    {
      OccursInSuffix(u, from, head, d, j - from);
    }
    IndexOfFirst(u, d, from);
    SplitFromNone(u, d, from);
    assert parts == [head];
  }

  /** One step of the splitting loop: the first piece, then the split of what follows the match. */
  lemma SplitFromStep(u: string, d: string, from: nat, parts: seq<string>, next: nat, tail: seq<string>)
    requires |d| > 0 && |parts| >= 2 && next == from + |parts[0]| + |d| <= |u|
    requires IndexOf(u, d, from) == Some(from + |parts[0]|)
    requires u[from..from + |parts[0]|] == parts[0]
    requires tail == parts[1..] && SplitFrom(u, d, next) == tail
    ensures SplitFrom(u, d, from) == parts
  {
    SplitFromSome(u, d, from, from + |parts[0]|);
    assert parts == [parts[0]] + tail;
  }

  /**
   * When a suffix is the join of two or more free pieces, the search finds the
   * separator right after the first piece, and the text after it is the join of
   * the remaining pieces.
   */
  lemma JoinedStep(u: string, from: nat, parts: seq<string>, d: string)
    requires |d| > 0 && BorderFree(d)
    requires |parts| >= 2 && PartsFree(parts, d)
    requires from <= |u| && u[from..] == Join(parts, d)
    ensures from + |parts[0]| + |d| <= |u|
    ensures IndexOf(u, d, from) == Some(from + |parts[0]|)
    ensures u[from..from + |parts[0]|] == parts[0]
    ensures u[from + |parts[0]| + |d|..] == Join(parts[1..], d)
    ensures PartsFree(parts[1..], d)
  {
    assert !Contains(parts[0], d);
    TailFree(parts, d);
    JoinFirst(parts, d);
    FirstAfterFree(u, from, parts[0], d, Join(parts[1..], d));
    SuffixSplit(u, from, parts[0], d, Join(parts[1..], d));
  }

  /** Joining two or more pieces puts the first one, then `d`, before the join of the others. */
  lemma JoinFirst(parts: seq<string>, d: string)
    requires |parts| >= 2
    ensures Join(parts, d) == parts[0] + d + Join(parts[1..], d)
  { }

  /** The pieces after the first one are free of `d` too. */
  lemma TailFree(parts: seq<string>, d: string)
    requires |parts| >= 1 && PartsFree(parts, d)
    ensures PartsFree(parts[1..], d)
  {
    var tail := parts[1..];
    forall k | 0 <= k < |tail| ensures !Contains(tail[k], d) {
      assert tail[k] == parts[k + 1];
    }
  }

  /** A suffix `u[from..]` that is `a + b + c` starts with `a` and ends with the suffix `c`. */
  lemma SuffixSplit(u: string, from: nat, a: string, b: string, c: string)
    requires from <= |u| && u[from..] == a + b + c
    ensures from + |a| + |b| <= |u|
    ensures u[from..from + |a|] == a && u[from + |a| + |b|..] == c
  {
    var x, y := u[from..from + |a|], u[from + |a| + |b|..];
    assert forall i :: 0 <= i < |a| ==> x[i] == (a + b + c)[i];
    assert forall i :: 0 <= i < |c| ==> y[i] == (a + b + c)[|a| + |b| + i];
  }

  /**
   * For a border-free separator, splitting a join gives back the parts, as long
   * as no part contains the separator.
   */
  lemma SplitJoin(parts: seq<string>, d: string)
    requires |d| > 0 && BorderFree(d)
    requires |parts| >= 1 && PartsFree(parts, d)
    ensures Split(Join(parts, d), d) == parts
  {
    var u := Join(parts, d);
    assert u[0..] == u;
    SplitJoinFrom(u, 0, parts, d);
  }

  /** A string contains no occurrence of a separator whose first character it lacks. */
  lemma AbsentFirstChar(s: string, d: string)
    requires |d| > 0
    requires d[0] !in s
    ensures !Contains(s, d)
  {
    forall j | 0 <= j && j + |d| <= |s|
      ensures !OccursAt(s, d, j)
    {
      assert s[j..j + |d|][0] == s[j];
      assert s[j] in s;
    }
  }
}
