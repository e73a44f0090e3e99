/**
 Sequence helpers shared by the model: the `Array.prototype.filter`,
 `findIndex` and `reverse` operations the source applies to its arrays and
 `Set`s, and the "no duplicates" property those collections keep.
 */
module Seqs {

  /** No element occurs twice. */
  predicate NoDups<T(==)>(s: seq<T>) {
    forall i, j :: 0 <= i < j < |s| ==> s[i] != s[j]
  }

  /** `s.filter(y => y !== x)`: every occurrence of `x` removed, the rest kept in order. */
  function Without<T(==)>(s: seq<T>, x: T): (r: seq<T>)
    ensures |r| <= |s|
    ensures x in s ==> |r| < |s|
    ensures forall i :: 0 <= i < |r| ==> r[i] in s && r[i] != x
    ensures forall i :: 0 <= i < |s| && s[i] != x ==> s[i] in r
    ensures NoDups(s) ==> NoDups(r)
  {
    if |s| == 0 then []
    else if s[0] == x then Without(s[1..], x)
    else
      var rest := Without(s[1..], x);
      assert NoDups(s) ==> s[0] !in s[1..];
      [s[0]] + rest
  }

  /** Filtering keeps every other element as often as it occurred and drops
      every copy of `x`. */
  lemma {:induction false} WithoutCounts<T>(s: seq<T>, x: T)
    ensures multiset(Without(s, x)) == multiset(s)[x := 0]
  {
    if |s| > 0 {
      assert s == [s[0]] + s[1..];
      WithoutCounts(s[1..], x);
    }
  }

  /** Filtering distributes over concatenation; with the one-element cases of
      `Without` this pins the order in which the kept elements appear. */
  lemma {:induction false} WithoutAppend<T>(a: seq<T>, b: seq<T>, x: T)
    ensures Without(a + b, x) == Without(a, x) + Without(b, x)
  {
    if |a| == 0 {
      assert a + b == b;
    } else {
      assert (a + b)[1..] == a[1..] + b;
      WithoutAppend(a[1..], b, x);
    }
  }

  /** `s` with every element of `xs` filtered out, the rest in order. */
  function WithoutAll<T(==)>(s: seq<T>, xs: seq<T>): (r: seq<T>)
    ensures forall i :: 0 <= i < |r| ==> r[i] in s && r[i] !in xs
    ensures forall i :: 0 <= i < |s| && s[i] !in xs ==> s[i] in r
  {
    if |s| == 0 then []
    else if s[0] in xs then WithoutAll(s[1..], xs)
    else [s[0]] + WithoutAll(s[1..], xs)
  }

  /** Filtering out nothing keeps the sequence. */
  lemma {:induction false} WithoutNone<T>(s: seq<T>)
    ensures WithoutAll(s, []) == s
  {
    if |s| > 0 {
      WithoutNone(s[1..]);
      assert s == [s[0]] + s[1..];
    }
  }

  /** Filtering one more element out of a filtered sequence is filtering
      the longer list out of the original. */
  lemma {:induction false} WithoutMore<T>(s: seq<T>, xs: seq<T>, x: T)
    ensures Without(WithoutAll(s, xs), x) == WithoutAll(s, xs + [x])
  {
    if |s| > 0 {
      WithoutMore(s[1..], xs, x);
      assert s[0] in xs + [x] <==> s[0] in xs || s[0] == x;
    }
  }

  /** `r` is `s` with one slot holding `x` cut out, the rest in order. */
  ghost predicate RemovesOneSlot<T>(s: seq<T>, x: T, r: seq<T>) {
    exists k :: 0 <= k < |s| && s[k] == x && r == s[..k] + s[k+1..]
  }

  /** Filtering out an absent element changes nothing. */
  lemma {:induction false} WithoutAbsent<T>(s: seq<T>, x: T)
    requires x !in s
    ensures Without(s, x) == s
  {
    if |s| > 0 {
      WithoutAbsent(s[1..], x);
    }
  }

  /** In a duplicate-free sequence, filtering out `s[i]` removes exactly slot `i`. */
  lemma {:induction false} WithoutSingle<T>(s: seq<T>, i: int)
    requires NoDups(s) && 0 <= i < |s|
    ensures Without(s, s[i]) == s[..i] + s[i+1..]
  {
    var x := s[i];
    calc {
      Without(s, x);
      { assert s == s[..i] + s[i..]; }
      Without(s[..i] + s[i..], x);
      { WithoutAppend(s[..i], s[i..], x); }
      Without(s[..i], x) + Without(s[i..], x);
      { NoDupsSplit(s, i); WithoutAbsent(s[..i], x); }
      s[..i] + Without(s[i..], x);
      { assert s[i..][1..] == s[i+1..]; }
      s[..i] + Without(s[i+1..], x);
      { NoDupsSplit(s, i); WithoutAbsent(s[i+1..], x); }
      s[..i] + s[i+1..];
    }
  }

  /** In a duplicate-free sequence, `s[i]` occurs neither before nor after slot `i`. */
  lemma {:induction false} NoDupsSplit<T>(s: seq<T>, i: int)
    requires NoDups(s) && 0 <= i < |s|
    ensures s[i] !in s[..i] && s[i] !in s[i+1..]
  {
    var before, after := s[..i], s[i+1..];
    forall a | 0 <= a < |before|
      ensures before[a] != s[i]
    {
      assert before[a] == s[a];
    }
    forall a | 0 <= a < |after|
      ensures after[a] != s[i]
    {
      assert after[a] == s[i + 1 + a];
    }
  }

  /** `s.findIndex(y => y == x)`: the first index holding `x`, or -1 when there is none. */
  function IndexOf<T(==)>(s: seq<T>, x: T): (i: int)
    ensures -1 <= i < |s|
    ensures i == -1 <==> x !in s
    ensures 0 <= i ==> s[i] == x && x !in s[..i]
  {
    if |s| == 0 then -1
    else if s[0] == x then 0
    else
      var k := IndexOf(s[1..], x);
      if k == -1 then -1
      else
        assert s[..k+1] == [s[0]] + s[1..][..k];
        k + 1
  }

  /** `Array.prototype.reverse`. */
  function Reverse<T>(s: seq<T>): (r: seq<T>)
    ensures |r| == |s|
    ensures forall i :: 0 <= i < |s| ==> r[i] == s[|s| - 1 - i]
  {
    if |s| == 0 then [] else Reverse(s[1..]) + [s[0]]
  }

  /** Reversing keeps a sequence free of duplicates. */
  lemma ReverseNoDups<T>(s: seq<T>)
    requires NoDups(s)
    ensures NoDups(Reverse(s))
  {
    var r := Reverse(s);
    forall i, j | 0 <= i < j < |r|
      ensures r[i] != r[j]
    {
      assert r[i] == s[|s| - 1 - i] && r[j] == s[|s| - 1 - j];
    }
  }
}
