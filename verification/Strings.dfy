/**
  The standard string operations the bot is built on, on sequences of any kind of
  element: bytes for the program, whole characters for what it means.
 */
module Strings {
  import opened Wrappers

  predicate Prefix<T(==)>(p: seq<T>, s: seq<T>) {
    |p| <= |s| && s[..|p|] == p
  }

  predicate OccursAt<T(==)>(p: seq<T>, s: seq<T>, i: nat) {
    i <= |s| && Prefix(p, s[i..])
  }

  predicate Occurs<T(==)>(p: seq<T>, s: seq<T>) {
    exists i: nat :: i <= |s| && OccursAt(p, s, i)
  }

  /** `isspace` in the C locale. */
  predicate IsSpace(c: char) { c == ' ' || '\t' <= c <= '\r' }

  /** `s.find(p)`: the first place where `p` occurs, or `npos`. */
  function Find<T(==)>(s: seq<T>, p: seq<T>): (r: Option<nat>)
    ensures r.Some? ==> OccursAt(p, s, r.value) && r.value + |p| <= |s|
    ensures r.Some? ==> forall i: nat :: i < r.value ==> !OccursAt(p, s, i)
    ensures r.None? <==> !Occurs(p, s)
  {
    if Prefix(p, s) then
      assert s[0..] == s;
      assert OccursAt(p, s, 0);
      Some(0)
    else if s == [] then
      None
    else
      OccursBehind(p, s);
      match Find(s[1..], p)
      case None => None
      case Some(i) => Some(i + 1)
  }

  /** The places of `p` in a text that it does not begin. */
  lemma OccursBehind<T>(p: seq<T>, s: seq<T>)
    requires s != [] && !Prefix(p, s)
    ensures !OccursAt(p, s, 0)
    ensures forall i: nat :: 0 < i <= |s| ==> OccursAt(p, s, i) == OccursAt(p, s[1..], i - 1)
    ensures Occurs(p, s) <==> Occurs(p, s[1..])
  {
    assert s[0..] == s;
    forall i: nat | 0 < i <= |s|
      ensures OccursAt(p, s, i) == OccursAt(p, s[1..], i - 1)
    {
      assert s[i..] == s[1..][i - 1..];
    }
    if i: nat :| i <= |s| && OccursAt(p, s, i) {
      assert OccursAt(p, s[1..], i - 1);
    }
    if i: nat :| i <= |s[1..]| && OccursAt(p, s[1..], i) {
      assert OccursAt(p, s, i + 1);
    }
  }

  /** `s.substr(pos, n)`; `None` is the exception for a position past the end. */
  function Substr<T>(s: seq<T>, pos: int, n: nat): (r: Option<seq<T>>)
    ensures r.Some? <==> 0 <= pos <= |s|
  {
    if 0 <= pos <= |s| then Some(s[pos..if pos + n <= |s| then pos + n else |s|]) else None
  }

  /** Every `p` in `s` replaced by `r`, from left to right, without looking again at what was put in. */
  function ReplaceAll<T(==)>(s: seq<T>, p: seq<T>, r: seq<T>): seq<T>
    requires p != []
  {
    if s == [] then []
    else if Prefix(p, s) then r + ReplaceAll(s[|p|..], p, r)
    else [s[0]] + ReplaceAll(s[1..], p, r)
  }

  /** A stretch in which no occurrence begins is copied. */
  lemma {:induction false} ReplaceCopies<T>(a: seq<T>, s: seq<T>, p: seq<T>, r: seq<T>)
    requires p != []
    requires forall k: nat :: k < |a| ==> !Prefix(p, a[k..] + s)
    ensures ReplaceAll(a + s, p, r) == a + ReplaceAll(s, p, r)
  {
    if a == [] {
      assert a + s == s;
    } else {
      assert a[0..] + s == a + s;
      assert (a + s)[1..] == a[1..] + s;
      forall k: nat | k < |a| - 1
        ensures !Prefix(p, a[1..][k..] + s)
      {
        assert a[1..][k..] == a[k + 1..];
      }
      ReplaceCopies(a[1..], s, p, r);
    }
  }

  /** An occurrence at the front is replaced. */
  lemma ReplaceFront<T>(s: seq<T>, p: seq<T>, r: seq<T>)
    requires p != []
    ensures ReplaceAll(p + s, p, r) == r + ReplaceAll(s, p, r)
  {
    assert (p + s)[|p|..] == s;
  }

  /** A text without an occurrence is copied. */
  lemma ReplaceNothing<T>(t: seq<T>, p: seq<T>, r: seq<T>)
    requires p != [] && !Occurs(p, t)
    ensures ReplaceAll(t, p, r) == t
  {
    forall k: nat | k < |t|
      ensures !Prefix(p, t[k..] + [])
    {
      assert t[k..] + [] == t[k..];
      assert !OccursAt(p, t, k);
    }
    ReplaceCopies(t, [], p, r);
    assert t + [] == t;
  }

  /** A text around an occurrence. */
  lemma CutAt<T>(t: seq<T>, p: seq<T>, i: nat)
    requires OccursAt(p, t, i)
    ensures i + |p| <= |t| && t == t[..i] + (p + t[i + |p|..])
  {
    assert t[i..] == p + t[i + |p|..];
    assert t == t[..i] + t[i..];
  }

  lemma NoneBefore<T>(t: seq<T>, p: seq<T>, a: seq<T>, s: seq<T>)
    requires t == a + s && Find(t, p) == Some(|a|)
    ensures forall k: nat :: k < |a| ==> !Prefix(p, a[k..] + s)
  {
    forall k: nat | k < |a|
      ensures !Prefix(p, a[k..] + s)
    {
      SuffixOfConcat(a, s, k);
      assert !OccursAt(p, t, k);
    }
  }

  lemma SuffixOfConcat<T>(a: seq<T>, s: seq<T>, k: nat)
    requires k <= |a|
    ensures (a + s)[k..] == a[k..] + s
  {
  }

  /** Replacement goes on behind the first occurrence. */
  lemma ReplaceBetween<T>(a: seq<T>, p: seq<T>, rest: seq<T>, r: seq<T>)
    requires p != [] && Find(a + (p + rest), p) == Some(|a|)
    ensures ReplaceAll(a + (p + rest), p, r) == a + (r + ReplaceAll(rest, p, r))
  {
    NoneBefore(a + (p + rest), p, a, p + rest);
    ReplaceCopies(a, p + rest, p, r);
    ReplaceFront(rest, p, r);
  }

  lemma ReplaceAtFind<T>(t: seq<T>, p: seq<T>, r: seq<T>, i: nat)
    requires p != [] && Find(t, p) == Some(i)
    ensures ReplaceAll(t, p, r) == t[..i] + (r + ReplaceAll(t[i + |p|..], p, r))
  {
    CutAt(t, p, i);
    ReplaceBetween(t[..i], p, t[i + |p|..], r);
  }

  /**
    `utils::string_replace`: copies the text between the occurrences, and the new
    value for each. `rest` is the text from `lastPos` on.
   */
  method StringReplace<T(==)>(str: seq<T>, oldVal: seq<T>, newVal: seq<T>) returns (res: seq<T>)
    requires oldVal != []
    ensures res == ReplaceAll(str, oldVal, newVal)
  {
    res := [];
    var lastPos := 0;
    var pos := Find(str, oldVal);
    ghost var rest, done := str, ReplaceAll(str, oldVal, newVal);
    while pos.Some?
      invariant lastPos <= |str| && rest == str[lastPos..] && pos == Find(rest, oldVal)
      invariant done == ReplaceAll(rest, oldVal, newVal)
      invariant res + done == ReplaceAll(str, oldVal, newVal)
      decreases |rest|
    {
      var i := lastPos + pos.value;
      ghost var behind := rest[pos.value + |oldVal|..];
      ghost var more := ReplaceAll(behind, oldVal, newVal);
      ReplaceAtFind(rest, oldVal, newVal, pos.value);
      SubSlices(str, lastPos, i, i + |oldVal|);
      FourParts(res, str[lastPos..i], newVal, more);
      res := res + str[lastPos..i];
      res := res + newVal;
      lastPos := i + |oldVal|;
      rest, done := behind, more;
      pos := Find(str[lastPos..], oldVal);
    }
    ReplaceNothing(rest, oldVal, newVal);
    res := res + str[lastPos..];
  }

  lemma SubSlices<T>(s: seq<T>, from: nat, i: nat, j: nat)
    requires from <= i <= j <= |s|
    ensures s[from..][..i - from] == s[from..i] && s[from..][j - from..] == s[j..]
  {
  }

  lemma FourParts<T>(a: seq<T>, b: seq<T>, c: seq<T>, d: seq<T>)
    ensures a + (b + (c + d)) == a + b + c + d
  {
    ConcatAssociative(a, b, c + d);
    ConcatAssociative(a + b, c, d);
  }

  lemma OccursInTail<T>(p: seq<T>, s: seq<T>, k: nat)
    requires k <= |s| && Occurs(p, s[k..])
    ensures Occurs(p, s)
  {
    var i: nat :| i <= |s[k..]| && OccursAt(p, s[k..], i);
    assert s[k..][i..] == s[k + i..];
    assert OccursAt(p, s, k + i);
  }

  lemma ConcatAssociative<T>(a: seq<T>, b: seq<T>, c: seq<T>)
    ensures a + (b + c) == a + b + c
  {
  }

  lemma HeadAndTail<T>(s: seq<T>)
    requires s != []
    ensures s == [s[0]] + s[1..]
  {
  }

  function Map<T, U>(f: T -> U, s: seq<T>): (r: seq<U>)
    ensures |r| == |s| && forall i :: 0 <= i < |s| ==> r[i] == f(s[i])
  {
    if s == [] then [] else [f(s[0])] + Map(f, s[1..])
  }
}
