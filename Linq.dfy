/**
 The sequence operators of .NET's LINQ that the measurement service composes
 (Where, OrderBy/OrderByDescending on an integer key, Skip, Take, and the
 Count of a GroupBy group), as functions over sequences.
 */
module Linq {

  /** Enumerable.Where: the elements of `s` that satisfy `p`, in their original order. */
  function Where<T(!new)>(s: seq<T>, p: T -> bool): (r: seq<T>)
    ensures |r| <= |s|
    ensures forall i :: 0 <= i < |r| ==> p(r[i])
  {
    if s == [] then []
    else if p(s[0]) then [s[0]] + Where(s[1..], p) else Where(s[1..], p)
  }

  /** Where keeps every occurrence of each element that satisfies `p` and nothing else. */
  lemma {:induction false} WhereContents<T(!new)>(s: seq<T>, p: T -> bool)
    ensures forall x :: multiset(Where(s, p))[x] == if p(x) then multiset(s)[x] else 0
    ensures forall x :: x in Where(s, p) <==> x in s && p(x)
  {
    if s != [] {
      WhereContents(s[1..], p);
      assert s == [s[0]] + s[1..];
    }
  }

  /** A weaker predicate keeps at least what a stronger one keeps: adding a condition only shrinks. */
  lemma {:induction false} WhereMonotone<T(!new)>(s: seq<T>, p: T -> bool, q: T -> bool)
    requires forall x :: p(x) ==> q(x)
    ensures multiset(Where(s, p)) <= multiset(Where(s, q))
    ensures |Where(s, p)| <= |Where(s, q)|
  {
    if s != [] {
      WhereMonotone(s[1..], p, q);
    }
  }

  /** Two predicates that agree on every element of `s` select the same elements. */
  lemma {:induction false} WhereCongruent<T(!new)>(s: seq<T>, p: T -> bool, q: T -> bool)
    requires forall i :: 0 <= i < |s| ==> p(s[i]) == q(s[i])
    ensures Where(s, p) == Where(s, q)
  {
    if s != [] {
      WhereCongruent(s[1..], p, q);
    }
  }

  /** Filtering by a predicate implied by `p` first changes nothing: the second filter keeps the same elements. */
  lemma {:induction false} WhereWhere<T(!new)>(s: seq<T>, p: T -> bool, q: T -> bool)
    requires forall x :: p(x) ==> q(x)
    ensures Where(Where(s, q), p) == Where(s, p)
  {
    if s != [] {
      WhereWhere(s[1..], p, q);
      if q(s[0]) {
        var w := [s[0]] + Where(s[1..], q);
        assert w[0] == s[0] && w[1..] == Where(s[1..], q);
      }
    }
  }

  /** Where distributes over concatenation. */
  lemma {:induction false} WhereAppend<T(!new)>(s: seq<T>, t: seq<T>, p: T -> bool)
    ensures Where(s + t, p) == Where(s, p) + Where(t, p)
  {
    if s == [] {
      assert s + t == t;
    } else {
      WhereAppend(s[1..], t, p);
      assert (s + t)[1..] == s[1..] + t;
    }
  }

  /** Replacing a selected element by an unselected one removes exactly that element from the selection. */
  lemma WhereReplace<T(!new)>(s: seq<T>, i: nat, y: T, p: T -> bool)
    requires i < |s| && p(s[i]) && !p(y)
    ensures multiset(Where(s[i := y], p)) == multiset(Where(s, p)) - multiset{s[i]}
    ensures |Where(s[i := y], p)| == |Where(s, p)| - 1
  {
    var s' := s[i := y];
    var a := Where(s, p);
    var b := Where(s', p);
    WhereContents(s, p);
    WhereContents(s', p);
    assert multiset(s') == multiset(s) - multiset{s[i]} + multiset{y};
    forall x ensures multiset(b)[x] == (multiset(a) - multiset{s[i]})[x] {
      if p(x) {
        assert x != y;
        assert multiset(s')[x] == (multiset(s) - multiset{s[i]})[x];
      }
    }
    assert multiset(b) == multiset(a) - multiset{s[i]};
    assert s[i] in multiset(s);
    assert s[i] in multiset(a);
    assert |multiset(b)| == |multiset(a)| - 1;
  }

  /** The number of elements of `s` that satisfy `p`: `Count(p)`, the size of one GroupBy group. */
  function CountWhere<T(!new)>(s: seq<T>, p: T -> bool): (n: nat)
    ensures n == |Where(s, p)|
  {
    if s == [] then 0
    else (if p(s[0]) then 1 else 0) + CountWhere(s[1..], p)
  }

  /** `a` may precede `b` in an ascending (or, when `desc`, descending) ordering by key. */
  predicate InOrder(a: int, b: int, desc: bool)
  {
    if desc then a >= b else a <= b
  }

  /** `s` is ordered by `key`, ascending or descending; nothing is said of elements with equal keys. */
  ghost predicate SortedBy<T>(s: seq<T>, key: T -> int, desc: bool)
  {
    forall i, j :: 0 <= i < j < |s| ==> InOrder(key(s[i]), key(s[j]), desc)
  }

  /** Inserts `x` into the sorted `s` before the first element it may precede. */
  function Insert<T(!new)>(x: T, s: seq<T>, key: T -> int, desc: bool): (r: seq<T>)
    requires SortedBy(s, key, desc)
    ensures multiset(r) == multiset(s) + multiset{x}
    ensures |r| == |s| + 1
    ensures SortedBy(r, key, desc)
  {
    if s == [] then [x]
    else if InOrder(key(x), key(s[0]), desc) then [x] + s
    else
      var rest := Insert(x, s[1..], key, desc);
      assert s == [s[0]] + s[1..];
      InsertAfterHead(x, s, rest, key, desc);
      [s[0]] + rest
  }

  /** When `x` may not precede the head of sorted `s`, the head may precede everything inserted after it. */
  lemma InsertAfterHead<T(!new)>(x: T, s: seq<T>, rest: seq<T>, key: T -> int, desc: bool)
    requires s != [] && SortedBy(s, key, desc) && !InOrder(key(x), key(s[0]), desc)
    requires multiset(rest) == multiset(s[1..]) + multiset{x}
    ensures forall j :: 0 <= j < |rest| ==> InOrder(key(s[0]), key(rest[j]), desc)
  {
    forall j | 0 <= j < |rest| ensures InOrder(key(s[0]), key(rest[j]), desc) {
      var y := rest[j];
      assert multiset(rest)[y] > 0;
      if y != x {
        assert y in multiset(s[1..]);
        var k :| 0 <= k < |s[1..]| && s[1..][k] == y;
        assert s[k + 1] == y;
      }
    }
  }

  /**
   Enumerable.OrderBy (`desc` false) or OrderByDescending (`desc` true) on an
   integer key: a permutation of `s` ordered by `key`.
   */
  function OrderBy<T(!new)>(s: seq<T>, key: T -> int, desc: bool): (r: seq<T>)
    ensures multiset(r) == multiset(s)
    ensures |r| == |s|
    ensures SortedBy(r, key, desc)
  {
    if s == [] then []
    else
      assert s == [s[0]] + s[1..];
      Insert(s[0], OrderBy(s[1..], key, desc), key, desc)
  }

  /** Enumerable.Skip: drops the first `n` elements (all of them when `n` is at least `|s|`, none when `n <= 0`). */
  function Skip<T>(s: seq<T>, n: int): (r: seq<T>)
    ensures |r| == if n <= 0 then |s| else if n >= |s| then 0 else |s| - n
    ensures forall k :: 0 <= k < |r| ==> r[k] == s[k + |s| - |r|]
  {
    if n <= 0 then s else if n >= |s| then [] else s[n..]
  }

  /** Enumerable.Take: keeps the first `n` elements (none when `n <= 0`). */
  function Take<T>(s: seq<T>, n: int): (r: seq<T>)
    ensures |r| == if n <= 0 then 0 else if n >= |s| then |s| else n
    ensures forall k :: 0 <= k < |r| ==> r[k] == s[k]
  {
    if n <= 0 then [] else if n >= |s| then s else s[..n]
  }

  function Min(a: int, b: int): int { if a <= b then a else b }
  function Max(a: int, b: int): int { if a >= b then a else b }

  /** Skip(off).Take(size): the slice of `s` that starts at `off` and holds at most `size` elements. */
  lemma SkipTake<T>(s: seq<T>, off: int, size: int)
    requires off >= 0 && size >= 1
    ensures |Take(Skip(s, off), size)| == Min(size, Max(0, |s| - off))
    ensures forall k :: 0 <= k < |Take(Skip(s, off), size)| ==>
              off + k < |s| && Take(Skip(s, off), size)[k] == s[off + k]
  {
  }
}
