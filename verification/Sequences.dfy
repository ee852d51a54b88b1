/** Small sequence operations shared by several modules. */
module Sequences {

  function Reverse<T>(s: seq<T>): (r: seq<T>)
    ensures |r| == |s|
    ensures forall i | 0 <= i < |s| :: r[i] == s[|s| - 1 - i]
  {
    seq(|s|, i requires 0 <= i < |s| => s[|s| - 1 - i])
  }

  function Map<A, B>(f: A -> B, s: seq<A>): (r: seq<B>)
    ensures |r| == |s|
    ensures forall i | 0 <= i < |s| :: r[i] == f(s[i])
  {
    seq(|s|, i requires 0 <= i < |s| => f(s[i]))
  }

  lemma AppendAssociates<T>(a: seq<T>, b: seq<T>, c: seq<T>)
    ensures a + b + c == a + (b + c)
  {
  }

  lemma SuffixHead<T>(s: seq<T>, i: nat)
    requires i < |s|
    ensures s[i..] == [s[i]] + s[i + 1..] && s[i..][1..] == s[i + 1..]
  {
  }

  lemma SliceOfSlice<T>(s: seq<T>, from: nat, end: nat, lo: nat, hi: nat)
    requires from <= end <= |s| && lo <= hi <= end - from
    ensures s[from..end][lo..hi] == s[from + lo..from + hi]
  {
    var a, b := s[from..end][lo..hi], s[from + lo..from + hi];
    forall k | 0 <= k < hi - lo ensures a[k] == b[k] {
      assert a[k] == s[from..end][lo + k] == s[from + (lo + k)];
    }
  }

  /** A suffix that is `a + b` is `a` followed by the suffix `b`. */
  lemma SplitSuffix<T>(s: seq<T>, pos: nat, a: seq<T>, b: seq<T>)
    requires pos <= |s| && s[pos..] == a + b
    ensures pos + |a| <= |s| && s[pos..pos + |a|] == a && s[pos + |a|..] == b
  {
    assert s[pos..pos + |a|] == s[pos..][..|a|];
    assert s[pos + |a|..] == s[pos..][|a|..];
  }

  /** The first `n` elements, or all of them. */
  function Take<T>(s: seq<T>, n: nat): (r: seq<T>)
    ensures |r| <= n && r <= s
    ensures |s| <= n ==> r == s
    ensures |s| > n ==> |r| == n
  {
    if |s| <= n then s else s[..n]
  }

  /** Truncating after every append is truncating once at the end. */
  lemma TakeAppend<T>(a: seq<T>, b: seq<T>, n: nat)
    ensures Take(Take(a, n) + b, n) == Take(a + b, n)
  {
  }

  /** The same for an append made in two parts. */
  lemma TakeInTwo<T>(s: seq<T>, a: seq<T>, b: seq<T>, n: nat)
    ensures Take(s + (a + b), n) == Take(Take(s + a, n) + b, n)
  {
    AppendAssociates(s, a, b);
    TakeAppend(s + a, b, n);
  }

  lemma TakeNoMore<T>(s: seq<T>, n: nat)
    requires |s| <= n
    ensures Take(s + [], n) == s
  {
    assert s + [] == s;
  }

  lemma TakeFull<T>(s: seq<T>, b: seq<T>, n: nat)
    requires |s| == n
    ensures Take(s + b, n) == s
  {
  }

  function Flatten<T>(ss: seq<seq<T>>): seq<T> {
    if ss == [] then [] else ss[0] + Flatten(ss[1..])
  }

  lemma FlattenOne<T>(x: seq<T>)
    ensures Flatten([x]) == x
  {
    var none: seq<seq<T>> := [];
    assert [x][1..] == none && x + [] == x;
  }

  lemma {:induction false} FlattenAppend<T>(a: seq<seq<T>>, b: seq<seq<T>>)
    ensures Flatten(a + b) == Flatten(a) + Flatten(b)
  {
    if a == [] {
      assert a + b == b;
    } else {
      assert (a + b)[1..] == a[1..] + b;
      FlattenAppend(a[1..], b);
      AppendAssociates(a[0], Flatten(a[1..]), Flatten(b));
    }
  }

  // ----- sums over the elements -----

  function Total<T>(f: T -> nat, s: seq<T>): nat {
    if s == [] then 0 else Total(f, s[..|s| - 1]) + f(s[|s| - 1])
  }

  lemma {:induction false} TotalAppend<T>(f: T -> nat, a: seq<T>, b: seq<T>)
    ensures Total(f, a + b) == Total(f, a) + Total(f, b)
  {
    if b == [] {
      assert a + b == a;
    } else {
      assert (a + b)[..|a + b| - 1] == a + b[..|b| - 1];
      TotalAppend(f, a, b[..|b| - 1]);
    }
  }

  lemma TotalOne<T>(f: T -> nat, x: T)
    ensures Total(f, [x]) == f(x)
  {
    var none: seq<T> := [];
    assert [x][..0] == none;
  }

  ghost predicate Distinct<T>(s: seq<T>) {
    forall i, j | 0 <= i < j < |s| :: s[i] != s[j]
  }

  lemma {:induction false} TotalWithout<T>(f: T -> nat, s: seq<T>, i: nat)
    requires i < |s|
    ensures Total(f, s) == Total(f, s[..i] + s[i + 1..]) + f(s[i])
  {
    assert s == s[..i] + [s[i]] + s[i + 1..];
    TotalAppend(f, s[..i] + [s[i]], s[i + 1..]);
    TotalAppend(f, s[..i], [s[i]]);
    TotalAppend(f, s[..i], s[i + 1..]);
    TotalOne(f, s[i]);
  }

  lemma HasElement<T>(s: seq<T>)
    requires s != []
    ensures exists x :: x in s
  {
    assert s[0] in s;
  }

  /** The same elements, each once, in whatever order. */
  lemma {:induction false} TotalSame<T>(f: T -> nat, a: seq<T>, b: seq<T>)
    requires Distinct(a) && Distinct(b) && forall x :: x in a <==> x in b
    ensures Total(f, a) == Total(f, b)
  {
    if b != [] {
      HasElement(b);
    }
    if a != [] {
      var n, x := |a| - 1, a[|a| - 1];
      assert x in b;
      var i :| 0 <= i < |b| && b[i] == x;
      var rest := b[..i] + b[i + 1..];
      WithoutOne(a, n, a[..n]);
      WithoutOne(b, i, rest);
      TotalSame(f, a[..n], rest);
      TotalWithout(f, b, i);
    }
  }

  lemma WithoutOne<T>(s: seq<T>, i: nat, rest: seq<T>)
    requires Distinct(s) && i < |s| && rest == s[..i] + s[i + 1..]
    ensures Distinct(rest) && forall x :: x in rest <==> x in s && x != s[i]
  {
    forall x ensures x in rest <==> x in s && x != s[i] {
      if x in s && x != s[i] {
        var k :| 0 <= k < |s| && s[k] == x;
        assert x == if k < i then rest[k] else rest[k - 1];
      }
    }
  }

  /** Elements that contribute nothing can be left out. */
  lemma {:induction false} TotalZero<T>(f: T -> nat, s: seq<T>)
    requires forall x | x in s :: f(x) == 0
    ensures Total(f, s) == 0
  {
    if s != [] {
      TotalZero(f, s[..|s| - 1]);
    }
  }

  // ----- choosing elements by position -----

  ghost predicate Ascends(idx: seq<nat>) {
    forall a, b | 0 <= a < b < |idx| :: idx[a] < idx[b]
  }

  /** The chosen positions, each once, in increasing order. */
  ghost predicate Lists(idx: seq<nat>, chosen: set<nat>) {
    Ascends(idx) && forall i: nat :: i in idx <==> i in chosen
  }

  lemma AscendsLast(idx: seq<nat>, a: nat)
    requires Ascends(idx) && a < |idx|
    ensures idx[a] <= idx[|idx| - 1] && (idx[a] == idx[|idx| - 1] ==> a == |idx| - 1)
  {
  }

  lemma ListsNone(idx: seq<nat>, chosen: set<nat>)
    requires Lists(idx, chosen)
    ensures idx == [] <==> chosen == {}
  {
    if idx != [] {
      assert idx[0] in idx;
    }
  }

  lemma {:induction false} ListsLast(idx: seq<nat>, chosen: set<nat>, last: nat)
    requires Lists(idx, chosen) && last in chosen && forall i | i in chosen :: i <= last
    ensures idx != [] && idx[|idx| - 1] == last && Lists(idx[..|idx| - 1], chosen - {last})
  {
    var n := |idx| - 1;
    var a :| 0 <= a < |idx| && idx[a] == last;
    assert idx[n] in idx;
    AscendsLast(idx, a);
    forall i: nat ensures i in idx[..n] <==> i in chosen - {last} {
      if i in chosen - {last} {
        var b :| 0 <= b < |idx| && idx[b] == i;
        assert idx[..n][b] == i;
      }
    }
  }

  /** There is only one such list. */
  lemma {:induction false} ListsOnce(idx: seq<nat>, jdx: seq<nat>, chosen: set<nat>)
    requires Lists(idx, chosen) && Lists(jdx, chosen)
    ensures idx == jdx
  {
    ListsNone(idx, chosen);
    ListsNone(jdx, chosen);
    if idx != [] {
      var n := |idx| - 1;
      forall i | i in chosen ensures i <= idx[n] {
        var a :| 0 <= a < |idx| && idx[a] == i;
      }
      assert idx[n] in idx;
      ListsLast(idx, chosen, idx[n]);
      ListsLast(jdx, chosen, idx[n]);
      ListsOnce(idx[..n], jdx[..|jdx| - 1], chosen - {idx[n]});
    }
  }

  /** A later position goes to the end. */
  lemma ListsMore(idx: seq<nat>, chosen: set<nat>, last: nat)
    requires Lists(idx, chosen) && forall i | i in chosen :: i < last
    ensures Lists(idx + [last], chosen + {last})
  {
    assert forall a | 0 <= a < |idx| :: idx[a] in idx;
    forall i: nat ensures i in idx + [last] <==> i in chosen + {last} {
    }
  }

  /** The positions from `i` on that fit, in increasing order. */
  ghost predicate PickedFrom(fits: nat -> bool, i: nat, idx: seq<nat>) {
    Ascends(idx) && forall j: nat :: j in idx <==> i <= j && fits(j)
  }

  lemma PickFirst(fits: nat -> bool, i: nat, idx: seq<nat>)
    requires PickedFrom(fits, i + 1, idx)
    ensures PickedFrom(fits, i, if fits(i) then [i] + idx else idx)
  {
    assert forall k | 0 <= k < |idx| :: idx[k] in idx;
    forall j: nat ensures j in (if fits(i) then [i] + idx else idx) <==> i <= j && fits(j) {
      assert j in [i] + idx <==> j == i || j in idx;
    }
  }
}
