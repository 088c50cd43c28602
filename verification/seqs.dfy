/**
 * Generic sequence vocabulary: order-preserving deletion, counting and a
 * stable sort by an integer key. The database's `findMany`/`deleteMany`
 * with a `where` clause and an `orderBy` are read through these.
 */
module Seqs {
  import opened Text

  /** `a` is `b` with some elements deleted, the rest in their original order. */
  predicate IsSubseq<T(==)>(a: seq<T>, b: seq<T>)
    decreases |b|
  {
    if |a| == 0 then true
    else if |b| == 0 then false
    else if a[|a| - 1] == b[|b| - 1] then IsSubseq(a[..|a| - 1], b[..|b| - 1])
    else IsSubseq(a, b[..|b| - 1])
  }

  /** Deleting one more element at the end keeps a subsequence a subsequence. */
  lemma {:induction false} SubseqExtend<T>(a: seq<T>, b: seq<T>, x: T)
    requires IsSubseq(a, b)
    ensures IsSubseq(a, b + [x])
    decreases |b|, 1
  {
    var b' := b + [x];
    assert b'[..|b'| - 1] == b;
    if |a| > 0 && a[|a| - 1] == x {
      SubseqDropLast(a, b);
    }
  }

  /** Removing the last element of the smaller sequence keeps it a subsequence. */
  lemma {:induction false} SubseqDropLast<T>(a: seq<T>, b: seq<T>)
    requires |a| > 0 && IsSubseq(a, b)
    ensures IsSubseq(a[..|a| - 1], b)
    decreases |b|, 0
  {
    var a' := a[..|a| - 1];
    if |a'| > 0 {
      if a[|a| - 1] == b[|b| - 1] {
        SubseqExtend(a', b[..|b| - 1], b[|b| - 1]);
        assert b[..|b| - 1] + [b[|b| - 1]] == b;
      } else {
        SubseqDropLast(a, b[..|b| - 1]);
        SubseqExtend(a', b[..|b| - 1], b[|b| - 1]);
        assert b[..|b| - 1] + [b[|b| - 1]] == b;
      }
    }
  }

  /** The elements `drop` rejects are removed; the others stay, in order. */
  function Without<T>(xs: seq<T>, drop: T -> bool): (kept: seq<T>)
    ensures IsSubseq(kept, xs)
  {
    if |xs| == 0 then []
    else
      var init := xs[..|xs| - 1];
      var last := xs[|xs| - 1];
      assert xs == init + [last];
      var kept := Without(init, drop);
      if drop(last) then
        SubseqExtend(kept, init, last);
        kept
      else
        assert (kept + [last])[..|kept|] == kept;
        kept + [last]
  }

  /** Deleting keeps every accepted element as often as it occurred and no rejected one. */
  lemma {:induction false} WithoutMultiset<T>(xs: seq<T>, drop: T -> bool)
    ensures forall x :: multiset(Without(xs, drop))[x] == if drop(x) then 0 else multiset(xs)[x]
  {
    if |xs| > 0 {
      var init, last := xs[..|xs| - 1], xs[|xs| - 1];
      WithoutMultiset(init, drop);
      assert xs == init + [last];
    }
  }

  lemma {:induction false} SubseqMember<T>(a: seq<T>, b: seq<T>, k: int)
    requires IsSubseq(a, b) && 0 <= k < |a|
    ensures a[k] in b
    decreases |b|
  {
    if a[|a| - 1] == b[|b| - 1] {
      if k < |a| - 1 {
        SubseqMember(a[..|a| - 1], b[..|b| - 1], k);
      }
    } else {
      SubseqMember(a, b[..|b| - 1], k);
    }
  }

  lemma {:induction false} SubseqLength<T>(a: seq<T>, b: seq<T>)
    requires IsSubseq(a, b)
    ensures |a| <= |b|
    decreases |b|
  {
    if |a| > 0 {
      if a[|a| - 1] == b[|b| - 1] {
        SubseqLength(a[..|a| - 1], b[..|b| - 1]);
      } else {
        SubseqLength(a, b[..|b| - 1]);
      }
    }
  }

  /** Appending one element to the input of `Without` either drops it or appends it. */
  lemma WithoutSnoc<T(!new)>(xs: seq<T>, x: T, drop: T -> bool)
    ensures Without(xs + [x], drop) == if drop(x) then Without(xs, drop) else Without(xs, drop) + [x]
  {
    assert (xs + [x])[..|xs|] == xs;
  }

  /** The number of elements that satisfy `p`. */
  function Count<T>(xs: seq<T>, p: T -> bool): nat {
    if |xs| == 0 then 0
    else Count(xs[..|xs| - 1], p) + (if p(xs[|xs| - 1]) then 1 else 0)
  }

  /** Deleting removes exactly the elements `drop` accepts, and as many as it counts. */
  lemma WithoutCount<T(!new)>(xs: seq<T>, drop: T -> bool)
    ensures |Without(xs, drop)| + Count(xs, drop) == |xs|
  {
  }

  /** One element satisfies `p` and no other does, so `p` counts one. */
  lemma {:induction false} CountOne<T>(xs: seq<T>, p: T -> bool, i: nat)
    requires i < |xs| && p(xs[i])
    requires forall j :: 0 <= j < |xs| && j != i ==> !p(xs[j])
    ensures Count(xs, p) == 1
  {
    var init := xs[..|xs| - 1];
    if i == |xs| - 1 {
      CountZero(init, p);
    } else {
      CountOne(init, p, i);
    }
  }

  /** `p` counts nothing exactly when no element satisfies it. */
  lemma {:induction false} CountZero<T>(xs: seq<T>, p: T -> bool)
    ensures Count(xs, p) == 0 <==> forall k :: 0 <= k < |xs| ==> !p(xs[k])
  {
    if |xs| > 0 {
      var init := xs[..|xs| - 1];
      CountZero(init, p);
      assert forall k :: 0 <= k < |init| ==> init[k] == xs[k];
    }
  }

  function Not<T>(p: T -> bool): T -> bool {
    x => !p(x)
  }

  /** Every element is counted by `p` or by its negation. */
  lemma {:induction false} CountComplement<T>(xs: seq<T>, p: T -> bool)
    ensures Count(xs, p) + Count(xs, Not(p)) == |xs|
  {
    if |xs| > 0 {
      CountComplement(xs[..|xs| - 1], p);
    }
  }

  /** The elements that satisfy `keep`, in their original order (a `findMany` with a `where`). */
  function Where<T(==,!new)>(xs: seq<T>, keep: T -> bool): (found: seq<T>)
    ensures IsSubseq(found, xs)
    ensures forall x :: x in found <==> x in xs && keep(x)
    ensures forall x :: multiset(found)[x] == if keep(x) then multiset(xs)[x] else 0
  {
    var found := Without(xs, Not(keep));
    WithoutMultiset(xs, Not(keep));
    assert forall x :: x in found <==> multiset(found)[x] > 0;
    found
  }

  /** Deleting elements that `keep` rejects does not change what `Where` finds. */
  lemma WhereAfterWithout<T(!new)>(xs: seq<T>, keep: T -> bool, drop: T -> bool)
    requires forall x :: keep(x) ==> !drop(x)
    ensures multiset(Where(Without(xs, drop), keep)) == multiset(Where(xs, keep))
  {
    var a, b := Where(Without(xs, drop), keep), Where(xs, keep);
    WithoutMultiset(xs, drop);
    forall x ensures multiset(a)[x] == multiset(b)[x] {
    }
  }

  /** `Where` finds as many elements as `keep` counts. */
  lemma WhereCount<T(!new)>(xs: seq<T>, keep: T -> bool)
    ensures |Where(xs, keep)| == Count(xs, keep)
  {
    WithoutCount(xs, Not(keep));
    CountComplement(xs, keep);
  }

  lemma {:induction false} SubseqRefl<T>(xs: seq<T>)
    ensures IsSubseq(xs, xs)
  {
    if |xs| > 0 {
      SubseqRefl(xs[..|xs| - 1]);
    }
  }

  /** A prefix is a subsequence. */
  lemma {:induction false} PrefixSubseq<T>(xs: seq<T>, n: nat)
    requires n <= |xs|
    ensures IsSubseq(xs[..n], xs)
  {
    if n == |xs| {
      assert xs[..n] == xs;
      SubseqRefl(xs);
    } else {
      var init := xs[..|xs| - 1];
      PrefixSubseq(init, n);
      assert init[..n] == xs[..n];
      SubseqExtend(xs[..n], init, xs[|xs| - 1]);
      assert init + [xs[|xs| - 1]] == xs;
    }
  }

  /** A subsequence of a subsequence is a subsequence. */
  lemma {:induction false} SubseqTrans<T>(a: seq<T>, b: seq<T>, c: seq<T>)
    requires IsSubseq(a, b) && IsSubseq(b, c)
    ensures IsSubseq(a, c)
    decreases |c|
  {
    if |a| > 0 {
      var c' := c[..|c| - 1];
      var b' := b[..|b| - 1];
      if b[|b| - 1] == c[|c| - 1] {
        if a[|a| - 1] == b[|b| - 1] {
          SubseqTrans(a[..|a| - 1], b', c');
        } else {
          SubseqTrans(a, b', c');
          SubseqExtend(a, c', c[|c| - 1]);
          assert c' + [c[|c| - 1]] == c;
        }
      } else {
        SubseqTrans(a, b, c');
        SubseqExtend(a, c', c[|c| - 1]);
        assert c' + [c[|c| - 1]] == c;
      }
    }
  }

  /** Every element sits at or after its predecessors in `key` order. */
  predicate Ascending<T>(xs: seq<T>, key: T -> int) {
    forall i, j :: 0 <= i < j < |xs| ==> key(xs[i]) <= key(xs[j])
  }

  /** Puts `x` in front of the first element with a strictly larger key. */
  function Insert<T>(x: T, xs: seq<T>, key: T -> int): (r: seq<T>)
    requires Ascending(xs, key)
    ensures Ascending(r, key)
    ensures multiset(r) == multiset(xs) + multiset{x}
  {
    if |xs| == 0 || key(x) <= key(xs[0]) then
      [x] + xs
    else
      var rest := Insert(x, xs[1..], key);
      InsertBehindHead(x, xs, rest, key);
      [xs[0]] + rest
  }

  /** The head of `xs`, whose key is below `x`'s, can go in front of `x` inserted into the tail. */
  lemma InsertBehindHead<T>(x: T, xs: seq<T>, rest: seq<T>, key: T -> int)
    requires |xs| > 0 && Ascending(xs, key) && key(xs[0]) < key(x)
    requires Ascending(rest, key) && multiset(rest) == multiset(xs[1..]) + multiset{x}
    ensures Ascending([xs[0]] + rest, key)
    ensures multiset([xs[0]] + rest) == multiset(xs) + multiset{x}
  {
    assert xs == [xs[0]] + xs[1..];
    forall j | 0 <= j < |rest|
      ensures key(xs[0]) <= key(rest[j])
    {
      assert rest[j] in multiset(rest);
      if rest[j] != x {
        assert rest[j] in multiset(xs[1..]);
        var k :| 0 <= k < |xs[1..]| && xs[1..][k] == rest[j];
        assert xs[k + 1] == rest[j];
      }
    }
    var r := [xs[0]] + rest;
    forall i, j | 0 <= i < j < |r| ensures key(r[i]) <= key(r[j]) {
      if i > 0 {
        assert r[i] == rest[i - 1] && r[j] == rest[j - 1];
      } else {
        assert r[j] == rest[j - 1];
      }
    }
  }

  /** A stable insertion sort by `key`, smallest first. */
  function SortBy<T>(xs: seq<T>, key: T -> int): (r: seq<T>)
    ensures Ascending(r, key)
    ensures multiset(r) == multiset(xs)
    ensures |r| == |xs|
  {
    if |xs| == 0 then []
    else
      assert xs == [xs[0]] + xs[1..];
      var r := Insert(xs[0], SortBy(xs[1..], key), key);
      assert |r| == |multiset(r)|;
      r
  }

  /** A `findMany` with a `where` and an `orderBy`: exactly the accepted elements, in key order. */
  lemma SortedWhere<T(!new)>(xs: seq<T>, keep: T -> bool, key: T -> int)
    ensures var r := SortBy(Where(xs, keep), key);
            && Ascending(r, key)
            && forall x :: multiset(r)[x] == if keep(x) then multiset(xs)[x] else 0
  {
  }

  /** Membership after a deletion. */
  lemma WithoutMembers<T(!new)>(xs: seq<T>, drop: T -> bool, x: T)
    ensures x in Without(xs, drop) <==> x in xs && !drop(x)
  {
    var kept := Without(xs, drop);
    WithoutMultiset(xs, drop);
    assert x in kept <==> multiset(kept)[x] > 0;
    assert x in xs <==> multiset(xs)[x] > 0;
  }

  /** `WithoutMembers` for every element at once. */
  lemma WithoutKeeps<T(!new)>(xs: seq<T>, drop: T -> bool)
    ensures forall x :: x in Without(xs, drop) <==> x in xs && !drop(x)
  {
    forall x {
      WithoutMembers(xs, drop, x);
    }
  }

  /** Deleting nothing leaves the sequence as it was. */
  lemma {:induction false} WithoutNothing<T(!new)>(xs: seq<T>, drop: T -> bool)
    requires forall k :: 0 <= k < |xs| ==> !drop(xs[k])
    ensures Without(xs, drop) == xs
  {
    if |xs| > 0 {
      var init := xs[..|xs| - 1];
      WithoutNothing(init, drop);
      assert init + [xs[|xs| - 1]] == xs;
    }
  }

  /** Putting one element in front of the input of `Without` either drops it or keeps it in front. */
  lemma {:induction false} WithoutCons<T(!new)>(x: T, xs: seq<T>, drop: T -> bool)
    ensures Without([x] + xs, drop) == (if drop(x) then [] else [x]) + Without(xs, drop)
    decreases |xs|
  {
    var pre: seq<T> := if drop(x) then [] else [x];
    if |xs| == 0 {
      assert [x] + xs == [] + [x];
      WithoutSnoc([], x, drop);
    } else {
      var init, last := xs[..|xs| - 1], xs[|xs| - 1];
      var tail: seq<T> := if drop(last) then [] else [last];
      var b := Without(init, drop);
      assert Without([x] + xs, drop) == (pre + b) + tail by {
        SplitLast(x, xs);
        WithoutCons(x, init, drop);
        WithoutSnoc([x] + init, last, drop);
      }
      assert Without(xs, drop) == b + tail by {
        SplitLast(x, xs);
        WithoutSnoc(init, last, drop);
      }
      Assoc(pre, b, tail);
    }
  }

  /** Deleting the one rejected element put in front of a sequence gives the sequence back. */
  lemma WithoutUndoesCons<T(!new)>(x: T, xs: seq<T>, drop: T -> bool)
    requires drop(x) && forall k :: 0 <= k < |xs| ==> !drop(xs[k])
    ensures Without([x] + xs, drop) == xs
  {
    WithoutCons(x, xs, drop);
    WithoutNothing(xs, drop);
    assert [] + xs == xs;
  }

  /** Deleting the one rejected element put at the end of a sequence gives the sequence back. */
  lemma WithoutUndoesSnoc<T(!new)>(xs: seq<T>, x: T, drop: T -> bool)
    requires drop(x) && forall k :: 0 <= k < |xs| ==> !drop(xs[k])
    ensures Without(xs + [x], drop) == xs
  {
    WithoutSnoc(xs, x, drop);
    WithoutNothing(xs, drop);
  }

  lemma Assoc<T>(a: seq<T>, b: seq<T>, c: seq<T>)
    ensures (a + b) + c == a + (b + c)
  {
  }

  lemma SplitLast<T>(x: T, xs: seq<T>)
    requires |xs| > 0
    ensures [x] + xs == ([x] + xs[..|xs| - 1]) + [xs[|xs| - 1]]
    ensures xs == xs[..|xs| - 1] + [xs[|xs| - 1]]
  {
  }

  /** Deleting twice with the same test deletes nothing more. */
  lemma WithoutTwice<T(!new)>(xs: seq<T>, drop: T -> bool)
    ensures Without(Without(xs, drop), drop) == Without(xs, drop)
  {
    var kept := Without(xs, drop);
    WithoutMultiset(xs, drop);
    forall k | 0 <= k < |kept| ensures !drop(kept[k]) {
      assert kept[k] in multiset(kept);
    }
    WithoutNothing(kept, drop);
  }

  /** No two elements share a key. */
  predicate UniqueBy<T>(xs: seq<T>, key: T -> int) {
    forall i, j :: 0 <= i < j < |xs| ==> key(xs[i]) != key(xs[j])
  }

  /** A subsequence of a sequence with distinct keys has distinct keys. */
  lemma {:induction false} SubseqUniqueBy<T>(a: seq<T>, b: seq<T>, key: T -> int)
    requires IsSubseq(a, b) && UniqueBy(b, key)
    ensures UniqueBy(a, key)
    decreases |b|
  {
    if |a| > 0 {
      var a', b' := a[..|a| - 1], b[..|b| - 1];
      assert UniqueBy(b', key);
      if a[|a| - 1] == b[|b| - 1] {
        SubseqUniqueBy(a', b', key);
        forall i | 0 <= i < |a'| ensures key(a'[i]) != key(a[|a| - 1]) {
          SubseqMember(a', b', i);
          var j :| 0 <= j < |b'| && b'[j] == a'[i];
          assert b'[j] == b[j];
        }
        assert forall i :: 0 <= i < |a'| ==> a'[i] == a[i];
      } else {
        SubseqUniqueBy(a, b', key);
      }
    }
  }

  /** The position of the first element satisfying `p` (a `findFirst`). */
  function FirstIndex<T>(xs: seq<T>, p: T -> bool): (i: Option<nat>)
    ensures i.Some? ==> i.value < |xs| && p(xs[i.value]) && forall k :: 0 <= k < i.value ==> !p(xs[k])
    ensures i.None? ==> forall k :: 0 <= k < |xs| ==> !p(xs[k])
  {
    if |xs| == 0 then None
    else if p(xs[0]) then Some(0)
    else match FirstIndex(xs[1..], p)
      case None => None
      case Some(j) => Some(j + 1)
  }

  /** The first index is the one position that satisfies `p` with none before it. */
  lemma FirstIndexIs<T>(xs: seq<T>, p: T -> bool, i: nat)
    requires i < |xs| && p(xs[i]) && forall k :: 0 <= k < i ==> !p(xs[k])
    ensures FirstIndex(xs, p) == Some(i)
  {
    var r := FirstIndex(xs, p);
    assert r.Some?;
  }

  /** With nothing before it, the first match of `xs + [x]` is `x` when `x` matches. */
  lemma FirstIndexAppend<T>(xs: seq<T>, x: T, p: T -> bool)
    requires FirstIndex(xs, p).None? && p(x)
    ensures FirstIndex(xs + [x], p) == Some(|xs|)
  {
    var ys := xs + [x];
    assert forall k :: 0 <= k < |xs| ==> ys[k] == xs[k];
    FirstIndexIs(ys, p, |xs|);
  }

  /** The elements of `xs` without repetition, each at its first appearance. */
  function Distinct<T(==,!new)>(xs: seq<T>): (d: seq<T>)
    ensures forall x :: x in d <==> x in xs
    ensures forall i, j :: 0 <= i < j < |d| ==> d[i] != d[j]
  {
    if |xs| == 0 then []
    else
      var d := Distinct(xs[..|xs| - 1]);
      var last := xs[|xs| - 1];
      assert xs == xs[..|xs| - 1] + [last];
      if last in d then d else d + [last]
  }
}
