/** Stable sorting by a string key and the merge-join of two sorted lists: the scheme that the diff
    engine runs over subkeys and over values alike (`winreg-diff/src/engine.rs`). */
module MergeJoin {
  import opened Sequences
  import opened Text

  // ----- sorting -----

  ghost predicate Sorted<T>(s: seq<T>, key: T -> string) {
    forall i, j | 0 <= i < j < |s| :: !Less(key(s[j]), key(s[i]))
  }

  ghost predicate StrictlySorted<T>(s: seq<T>, key: T -> string) {
    forall i, j | 0 <= i < j < |s| :: Less(key(s[i]), key(s[j]))
  }

  ghost predicate DistinctKeys<T>(s: seq<T>, key: T -> string) {
    forall i, j | 0 <= i < j < |s| :: key(s[i]) != key(s[j])
  }

  /** Puts `x` in front of the first element whose key is not less. */
  function Insert<T>(x: T, s: seq<T>, key: T -> string): (r: seq<T>)
    ensures multiset(r) == multiset(s) + multiset{x}
    ensures |r| == |s| + 1
  {
    if s == [] || !Less(key(s[0]), key(x)) then [x] + s
    else
      assert s == [s[0]] + s[1..];
      [s[0]] + Insert(x, s[1..], key)
  }

  /** `sort_by` on the keys: a stable sort. */
  function Sort<T>(s: seq<T>, key: T -> string): (r: seq<T>)
    ensures multiset(r) == multiset(s)
    ensures |r| == |s|
  {
    if s == [] then []
    else
      assert s == [s[0]] + s[1..];
      Insert(s[0], Sort(s[1..], key), key)
  }

  lemma SameElements<T>(a: seq<T>, b: seq<T>)
    requires multiset(a) == multiset(b)
    ensures forall x :: x in a <==> x in b
  {
    forall x ensures x in a <==> x in b {
      assert x in a <==> x in multiset(a);
      assert x in b <==> x in multiset(b);
    }
  }

  lemma SortElements<T>(s: seq<T>, key: T -> string)
    ensures forall x :: x in Sort(s, key) <==> x in s
  {
    SameElements(Sort(s, key), s);
  }

  lemma {:induction false} InsertSorted<T>(x: T, s: seq<T>, key: T -> string)
    requires Sorted(s, key)
    ensures Sorted(Insert(x, s, key), key)
  {
    if s == [] {
    } else if !Less(key(s[0]), key(x)) {
      forall j | 0 <= j < |s| ensures !Less(key(s[j]), key(x)) {
        if j > 0 {
          NotLessTransitive(key(x), key(s[0]), key(s[j]));
        }
      }
    } else {
      InsertSorted(x, s[1..], key);
      var r := Insert(x, s[1..], key);
      LessAsymmetric(key(s[0]), key(x));
      forall j | 0 <= j < |r| ensures !Less(key(r[j]), key(s[0])) {
        assert r[j] in multiset(r);
        assert r[j] == x || r[j] in s[1..];
      }
    }
  }

  lemma NotLessTransitive(a: string, b: string, c: string)
    requires !Less(b, a) && !Less(c, b)
    ensures !Less(c, a)
  {
    LessTotal(a, b);
    LessTotal(b, c);
    if Less(c, a) {
      if Less(a, b) {
        LessTransitive(c, a, b);
      }
    }
  }

  lemma {:induction false} SortSorts<T>(s: seq<T>, key: T -> string)
    ensures Sorted(Sort(s, key), key)
  {
    if s != [] {
      SortSorts(s[1..], key);
      InsertSorted(s[0], Sort(s[1..], key), key);
    }
  }

  /** Distinct keys sort strictly. */
  lemma SortStrict<T>(s: seq<T>, key: T -> string)
    requires DistinctKeys(s, key)
    ensures StrictlySorted(Sort(s, key), key)
  {
    var r := Sort(s, key);
    SortSorts(s, key);
    DistinctPermutes(s, r, key);
    forall i, j | 0 <= i < j < |r| ensures Less(key(r[i]), key(r[j])) {
      LessTotal(key(r[i]), key(r[j]));
    }
  }

  lemma {:induction false} DistinctPermutes<T>(s: seq<T>, r: seq<T>, key: T -> string)
    requires DistinctKeys(s, key) && multiset(r) == multiset(s)
    ensures DistinctKeys(r, key)
  {
    forall i, j | 0 <= i < j < |r| ensures key(r[i]) != key(r[j]) {
      if key(r[i]) == key(r[j]) {
        SameElements(r, s);
        assert r[i] in s && r[j] in s;
        var a :| 0 <= a < |s| && s[a] == r[i];
        var b :| 0 <= b < |s| && s[b] == r[j];
        assert a == b;
        TwicePresent(r, i, j);
        OncePresent(s, a, key);
      }
    }
  }

  lemma TwicePresent<T>(r: seq<T>, i: nat, j: nat)
    requires i < j < |r| && r[i] == r[j]
    ensures multiset(r)[r[i]] >= 2
  {
    assert r == r[..j] + [r[j]] + r[j + 1..];
    assert r[i] == r[..j][i];
    assert r[i] in multiset(r[..j]);
  }

  lemma {:induction false} OncePresent<T>(s: seq<T>, a: nat, key: T -> string)
    requires a < |s| && DistinctKeys(s, key)
    ensures multiset(s)[s[a]] == 1
  {
    assert s == s[..a] + [s[a]] + s[a + 1..];
    assert s[a] !in s[..a] && s[a] !in s[a + 1..];
    assert multiset(s[..a])[s[a]] == 0 && multiset(s[a + 1..])[s[a]] == 0;
  }

  // ----- sorting a list of handles sorts what they stand for -----

  /** The key of a handle is the key of what it stands for. */
  ghost predicate SameKeys<A, B>(f: A -> B, s: seq<A>, ka: A -> string, kb: B -> string) {
    forall i | 0 <= i < |s| :: kb(f(s[i])) == ka(s[i])
  }

  lemma MapCons<A, B>(f: A -> B, x: A, s: seq<A>)
    ensures Map(f, [x] + s) == [f(x)] + Map(f, s)
  {
  }

  lemma {:induction false} InsertMap<A, B>(f: A -> B, x: A, s: seq<A>, ka: A -> string, kb: B -> string)
    requires kb(f(x)) == ka(x) && SameKeys(f, s, ka, kb)
    ensures Insert(f(x), Map(f, s), kb) == Map(f, Insert(x, s, ka))
  {
    if s != [] {
      assert kb(f(s[0])) == ka(s[0]);
      assert s == [s[0]] + s[1..];
      MapCons(f, s[0], s[1..]);
      MapCons(f, x, s);
      if Less(ka(s[0]), ka(x)) {
        InsertMap(f, x, s[1..], ka, kb);
        MapCons(f, s[0], Insert(x, s[1..], ka));
      }
    }
  }

  lemma {:induction false} SortMap<A, B>(f: A -> B, s: seq<A>, ka: A -> string, kb: B -> string)
    requires SameKeys(f, s, ka, kb)
    ensures Sort(Map(f, s), kb) == Map(f, Sort(s, ka)) && SameKeys(f, Sort(s, ka), ka, kb)
  {
    if s != [] {
      assert kb(f(s[0])) == ka(s[0]);
      assert s == [s[0]] + s[1..];
      MapCons(f, s[0], s[1..]);
      SortMap(f, s[1..], ka, kb);
      InsertMap(f, s[0], Sort(s[1..], ka), ka, kb);
      InsertSameKeys(f, s[0], Sort(s[1..], ka), ka, kb);
    }
  }

  lemma {:induction false} InsertSameKeys<A, B>(f: A -> B, x: A, s: seq<A>, ka: A -> string, kb: B -> string)
    requires kb(f(x)) == ka(x) && SameKeys(f, s, ka, kb)
    ensures SameKeys(f, Insert(x, s, ka), ka, kb)
  {
    if s != [] && Less(ka(s[0]), ka(x)) {
      InsertSameKeys(f, x, s[1..], ka, kb);
    }
  }

  // ----- the sort is determined by being sorted and stable -----

  /** The elements of key `k`, in order. */
  function WithKey<T>(s: seq<T>, key: T -> string, k: string): seq<T> {
    if s == [] then [] else if key(s[0]) == k then [s[0]] + WithKey(s[1..], key, k) else WithKey(s[1..], key, k)
  }

  lemma {:induction false} WithKeyFrom<T>(s: seq<T>, key: T -> string, k: string)
    requires WithKey(s, key, k) != []
    ensures exists i | 0 <= i < |s| :: key(s[i]) == k
  {
    if key(s[0]) != k {
      WithKeyFrom(s[1..], key, k);
      var i :| 0 <= i < |s[1..]| && key(s[1..][i]) == k;
      assert s[i + 1] == s[1..][i];
    }
  }

  lemma WithKeyCons<T>(x: T, s: seq<T>, key: T -> string, k: string)
    ensures WithKey([x] + s, key, k) == if key(x) == k then [x] + WithKey(s, key, k) else WithKey(s, key, k)
  {
    assert ([x] + s)[1..] == s;
  }

  /** Elements of different keys can change places. */
  lemma PassBy<T>(x: T, s: seq<T>, inserted: seq<T>, key: T -> string, k: string)
    requires s != [] && key(s[0]) != key(x) && WithKey(inserted, key, k) == WithKey([x] + s[1..], key, k)
    ensures WithKey([s[0]] + inserted, key, k) == WithKey([x] + s, key, k)
  {
    WithKeyCons(s[0], inserted, key, k);
    WithKeyCons(x, s[1..], key, k);
    WithKeyCons(x, s, key, k);
  }

  lemma {:induction false} InsertKeepsOrder<T>(x: T, s: seq<T>, key: T -> string, k: string)
    ensures WithKey(Insert(x, s, key), key, k) == WithKey([x] + s, key, k)
  {
    if s != [] && Less(key(s[0]), key(x)) {
      LessAsymmetric(key(s[0]), key(x));
      InsertKeepsOrder(x, s[1..], key, k);
      PassBy(x, s, Insert(x, s[1..], key), key, k);
    }
  }

  lemma {:induction false} SortStable<T>(s: seq<T>, key: T -> string, k: string)
    ensures WithKey(Sort(s, key), key, k) == WithKey(s, key, k)
  {
    if s != [] {
      SortStable(s[1..], key, k);
      InsertKeepsOrder(s[0], Sort(s[1..], key), key, k);
      WithKeyCons(s[0], Sort(s[1..], key), key, k);
    }
  }

  lemma WithKeyTail<T>(s: seq<T>, key: T -> string, k: string)
    requires s != []
    ensures key(s[0]) == k ==> WithKey(s, key, k) != [] && WithKey(s[1..], key, k) == WithKey(s, key, k)[1..]
    ensures key(s[0]) != k ==> WithKey(s[1..], key, k) == WithKey(s, key, k)
  {
  }

  lemma HeadIsLeast<T>(a: seq<T>, b: seq<T>, key: T -> string)
    requires a != [] && b != [] && Sorted(b, key)
    requires WithKey(a, key, key(a[0])) == WithKey(b, key, key(a[0]))
    ensures !Less(key(a[0]), key(b[0]))
  {
    WithKeyFrom(b, key, key(a[0]));
    var i :| 0 <= i < |b| && key(b[i]) == key(a[0]);
    if i == 0 && Less(key(a[0]), key(b[0])) {
      LessAsymmetric(key(a[0]), key(b[0]));
    }
  }

  lemma {:induction false} SortedDetermined<T>(a: seq<T>, b: seq<T>, key: T -> string)
    requires Sorted(a, key) && Sorted(b, key)
    requires forall k: string :: WithKey(a, key, k) == WithKey(b, key, k)
    ensures a == b
  {
    if a == [] || b == [] {
      assert a != [] ==> WithKey(a, key, key(a[0])) != [];
      assert b != [] ==> WithKey(b, key, key(b[0])) != [];
    } else {
      HeadIsLeast(a, b, key);
      HeadIsLeast(b, a, key);
      LessTotal(key(a[0]), key(b[0]));
      assert WithKey(a, key, key(a[0]))[0] == WithKey(b, key, key(a[0]))[0];
      forall k: string ensures WithKey(a[1..], key, k) == WithKey(b[1..], key, k) {
        assert WithKey(a, key, k) == WithKey(b, key, k);
        WithKeyTail(a, key, k);
        WithKeyTail(b, key, k);
      }
      SortedDetermined(a[1..], b[1..], key);
      assert a == [a[0]] + a[1..] && b == [b[0]] + b[1..];
    }
  }

  /** Whatever algorithm `sort_by` runs: a sorted arrangement that keeps the order of equal keys is this one. */
  lemma StableSortUnique<T>(s: seq<T>, t: seq<T>, key: T -> string)
    requires Sorted(t, key) && forall k: string :: WithKey(t, key, k) == WithKey(s, key, k)
    ensures t == Sort(s, key)
  {
    SortSorts(s, key);
    forall k: string ensures WithKey(t, key, k) == WithKey(Sort(s, key), key, k) {
      SortStable(s, key, k);
    }
    SortedDetermined(t, Sort(s, key), key);
  }

  // ----- the join -----

  datatype Pairing<T> = Both(left: T, right: T) | OnlyLeft(left: T) | OnlyRight(right: T) {
    function Lefts(): seq<T> {
      if OnlyRight? then [] else [left]
    }

    function Rights(): seq<T> {
      if OnlyLeft? then [] else [right]
    }

    function Flip(): Pairing<T> {
      match this
      case Both(l, r) => Both(r, l)
      case OnlyLeft(l) => OnlyRight(l)
      case OnlyRight(r) => OnlyLeft(r)
    }

    function Key(key: T -> string): string {
      if OnlyRight? then key(right) else key(left)
    }
  }

  function JoinSorted<T>(ls: seq<T>, rs: seq<T>, key: T -> string): seq<Pairing<T>>
    decreases |ls| + |rs|
  {
    if ls == [] && rs == [] then []
    else if rs == [] || (ls != [] && Less(key(ls[0]), key(rs[0]))) then [OnlyLeft(ls[0])] + JoinSorted(ls[1..], rs, key)
    else if ls == [] || key(ls[0]) != key(rs[0]) then [OnlyRight(rs[0])] + JoinSorted(ls, rs[1..], key)
    else [Both(ls[0], rs[0])] + JoinSorted(ls[1..], rs[1..], key)
  }

  function LeftsOf<T>(ps: seq<Pairing<T>>): seq<T> {
    if ps == [] then [] else ps[0].Lefts() + LeftsOf(ps[1..])
  }

  function RightsOf<T>(ps: seq<Pairing<T>>): seq<T> {
    if ps == [] then [] else ps[0].Rights() + RightsOf(ps[1..])
  }

  /** Conservation: each element of either list occurs in exactly one pairing, in order. */
  lemma {:induction false} JoinConserves<T>(ls: seq<T>, rs: seq<T>, key: T -> string)
    ensures LeftsOf(JoinSorted(ls, rs, key)) == ls && RightsOf(JoinSorted(ls, rs, key)) == rs
    decreases |ls| + |rs|
  {
    if ls == [] && rs == [] {
    } else if rs == [] || (ls != [] && Less(key(ls[0]), key(rs[0]))) {
      JoinConserves(ls[1..], rs, key);
    } else if ls == [] || key(ls[0]) != key(rs[0]) {
      JoinConserves(ls, rs[1..], key);
    } else {
      JoinConserves(ls[1..], rs[1..], key);
    }
  }

  function FlipAll<T>(ps: seq<Pairing<T>>): (r: seq<Pairing<T>>)
    ensures |r| == |ps| && forall i | 0 <= i < |ps| :: r[i] == ps[i].Flip()
  {
    seq(|ps|, i requires 0 <= i < |ps| => ps[i].Flip())
  }

  lemma FlipCons<T>(p: Pairing<T>, ps: seq<Pairing<T>>)
    ensures FlipAll([p] + ps) == [p.Flip()] + FlipAll(ps)
  {
  }

  /** Mirror: swapping the lists flips every pairing and keeps the order. */
  lemma {:induction false} JoinMirrors<T>(ls: seq<T>, rs: seq<T>, key: T -> string)
    ensures JoinSorted(rs, ls, key) == FlipAll(JoinSorted(ls, rs, key))
    decreases |ls| + |rs|
  {
    if ls == [] && rs == [] {
    } else if rs == [] || (ls != [] && Less(key(ls[0]), key(rs[0]))) {
      if rs != [] {
        LessAsymmetric(key(ls[0]), key(rs[0]));
      }
      JoinMirrors(ls[1..], rs, key);
      FlipCons(OnlyLeft(ls[0]), JoinSorted(ls[1..], rs, key));
    } else if ls == [] || key(ls[0]) != key(rs[0]) {
      if ls != [] {
        LessTotal(key(ls[0]), key(rs[0]));
      }
      JoinMirrors(ls, rs[1..], key);
      FlipCons(OnlyRight(rs[0]), JoinSorted(ls, rs[1..], key));
    } else {
      JoinMirrors(ls[1..], rs[1..], key);
      FlipCons(Both(ls[0], rs[0]), JoinSorted(ls[1..], rs[1..], key));
    }
  }

  /** A pairing holds elements of the lists; `Both` holds two of one key. */
  ghost predicate FromLists<T>(p: Pairing<T>, ls: seq<T>, rs: seq<T>, key: T -> string) {
    match p
    case Both(l, r) => l in ls && r in rs && key(l) == key(r)
    case OnlyLeft(l) => l in ls
    case OnlyRight(r) => r in rs
  }

  lemma {:induction false} JoinElements<T>(ls: seq<T>, rs: seq<T>, key: T -> string)
    ensures forall p | p in JoinSorted(ls, rs, key) :: FromLists(p, ls, rs, key)
    decreases |ls| + |rs|
  {
    if ls == [] && rs == [] {
    } else if rs == [] || (ls != [] && Less(key(ls[0]), key(rs[0]))) {
      JoinElements(ls[1..], rs, key);
    } else if ls == [] || key(ls[0]) != key(rs[0]) {
      JoinElements(ls, rs[1..], key);
    } else {
      JoinElements(ls[1..], rs[1..], key);
    }
  }

  ghost predicate KeysAbove<T>(s: seq<T>, key: T -> string, k: string) {
    forall x | x in s :: Less(k, key(x))
  }

  ghost predicate PairingsAbove<T>(ps: seq<Pairing<T>>, key: T -> string, k: string) {
    forall p | p in ps :: Less(k, p.Key(key))
  }

  ghost predicate KeysIncrease<T>(ps: seq<Pairing<T>>, key: T -> string) {
    forall i, j | 0 <= i < j < |ps| :: Less(ps[i].Key(key), ps[j].Key(key))
  }

  lemma TailAbove<T>(s: seq<T>, key: T -> string)
    requires StrictlySorted(s, key) && s != []
    ensures StrictlySorted(s[1..], key) && KeysAbove(s[1..], key, key(s[0]))
  {
    forall x | x in s[1..] ensures Less(key(s[0]), key(x)) {
      var i :| 0 <= i < |s[1..]| && s[1..][i] == x;
      assert s[i + 1] == x;
    }
  }

  lemma AllAbove<T>(s: seq<T>, key: T -> string, k: string)
    requires StrictlySorted(s, key) && s != [] && Less(k, key(s[0]))
    ensures KeysAbove(s, key, k)
  {
    TailAbove(s, key);
    forall x | x in s ensures Less(k, key(x)) {
      if x != s[0] {
        assert s == [s[0]] + s[1..];
        LessTransitive(k, key(s[0]), key(x));
      }
    }
  }

  /** Both lists above `k`: so are all pairings. */
  lemma JoinAbove<T>(ls: seq<T>, rs: seq<T>, key: T -> string, k: string)
    requires KeysAbove(ls, key, k) && KeysAbove(rs, key, k)
    ensures PairingsAbove(JoinSorted(ls, rs, key), key, k)
  {
    JoinElements(ls, rs, key);
  }

  /** A one-sided pairing means that the other list lacks the key. */
  ghost predicate OneSidedLacks<T>(p: Pairing<T>, ls: seq<T>, rs: seq<T>, key: T -> string) {
    && (p.OnlyLeft? ==> forall r | r in rs :: key(r) != key(p.left))
    && (p.OnlyRight? ==> forall l | l in ls :: key(l) != key(p.right))
  }

  /** Over lists with distinct keys the pairings come in increasing key order, and a one-sided pairing
      means that the other list lacks the key. */
  lemma {:induction false} JoinOrdered<T>(ls: seq<T>, rs: seq<T>, key: T -> string)
    requires StrictlySorted(ls, key) && StrictlySorted(rs, key)
    ensures KeysIncrease(JoinSorted(ls, rs, key), key)
    ensures forall p | p in JoinSorted(ls, rs, key) :: OneSidedLacks(p, ls, rs, key)
    decreases |ls| + |rs|
  {
    if ls == [] && rs == [] {
    } else if rs == [] || (ls != [] && Less(key(ls[0]), key(rs[0]))) {
      var rest := JoinSorted(ls[1..], rs, key);
      TailAbove(ls, key);
      if rs != [] {
        AllAbove(rs, key, key(ls[0]));
      }
      JoinOrdered(ls[1..], rs, key);
      JoinAbove(ls[1..], rs, key, key(ls[0]));
      HeadFirst(OnlyLeft(ls[0]), rest, key);
      HeadApart(ls, rs, key);
      JoinElements(ls[1..], rs, key);
      forall p | p in rest ensures OneSidedLacks(p, ls, rs, key) {
        assert FromLists(p, ls[1..], rs, key) && OneSidedLacks(p, ls[1..], rs, key);
        assert forall l :: l in ls <==> l == ls[0] || l in ls[1..];
      }
    } else if ls == [] || key(ls[0]) != key(rs[0]) {
      var rest := JoinSorted(ls, rs[1..], key);
      TailAbove(rs, key);
      if ls != [] {
        LessTotal(key(ls[0]), key(rs[0]));
        AllAbove(ls, key, key(rs[0]));
      }
      JoinOrdered(ls, rs[1..], key);
      JoinAbove(ls, rs[1..], key, key(rs[0]));
      HeadFirst(OnlyRight(rs[0]), rest, key);
      HeadApart(rs, ls, key);
      JoinElements(ls, rs[1..], key);
      forall p | p in rest ensures OneSidedLacks(p, ls, rs, key) {
        assert FromLists(p, ls, rs[1..], key) && OneSidedLacks(p, ls, rs[1..], key);
        assert forall r :: r in rs <==> r == rs[0] || r in rs[1..];
      }
    } else {
      var rest := JoinSorted(ls[1..], rs[1..], key);
      TailAbove(ls, key);
      TailAbove(rs, key);
      JoinOrdered(ls[1..], rs[1..], key);
      JoinAbove(ls[1..], rs[1..], key, key(ls[0]));
      HeadFirst(Both(ls[0], rs[0]), rest, key);
      HeadsApart(ls, rs, key);
      JoinElements(ls[1..], rs[1..], key);
      forall p | p in rest ensures OneSidedLacks(p, ls, rs, key) {
        assert FromLists(p, ls[1..], rs[1..], key) && OneSidedLacks(p, ls[1..], rs[1..], key);
        assert forall l :: l in ls <==> l == ls[0] || l in ls[1..];
        assert forall r :: r in rs <==> r == rs[0] || r in rs[1..];
      }
    }
  }

  lemma HeadFirst<T>(p: Pairing<T>, ps: seq<Pairing<T>>, key: T -> string)
    requires KeysIncrease(ps, key) && PairingsAbove(ps, key, p.Key(key))
    ensures KeysIncrease([p] + ps, key)
  {
  }

  /** A head below the other list has a key that neither the rest of its own list nor the other has. */
  lemma HeadApart<T>(xs: seq<T>, ys: seq<T>, key: T -> string)
    requires xs != [] && KeysAbove(xs[1..], key, key(xs[0])) && KeysAbove(ys, key, key(xs[0]))
    ensures forall y | y in ys :: key(y) != key(xs[0])
  {
    forall y | y in ys ensures key(y) != key(xs[0]) {
      LessAsymmetric(key(xs[0]), key(y));
    }
  }

  /** Equal heads: the keys of the tails differ from them. */
  lemma HeadsApart<T>(ls: seq<T>, rs: seq<T>, key: T -> string)
    requires ls != [] && rs != [] && key(ls[0]) == key(rs[0])
    requires KeysAbove(ls[1..], key, key(ls[0])) && KeysAbove(rs[1..], key, key(ls[0]))
    ensures forall x | x in ls[1..] || x in rs[1..] :: key(x) != key(ls[0])
  {
    forall x | x in ls[1..] || x in rs[1..] ensures key(x) != key(ls[0]) {
      LessAsymmetric(key(ls[0]), key(x));
    }
  }

  // ----- the join, seen from two cursors -----

  /** What is still to be joined when the cursors stand at `li` and `ri`. */
  function JoinRest<T>(ls: seq<T>, rs: seq<T>, key: T -> string, li: nat, ri: nat): seq<Pairing<T>>
    requires li <= |ls| && ri <= |rs|
  {
    JoinSorted(ls[li..], rs[ri..], key)
  }

  lemma JoinStart<T>(ls: seq<T>, rs: seq<T>, key: T -> string)
    ensures JoinRest(ls, rs, key, 0, 0) == JoinSorted(ls, rs, key)
  {
    assert ls[0..] == ls && rs[0..] == rs;
  }

  lemma StepLeft<T>(ls: seq<T>, rs: seq<T>, key: T -> string, li: nat, ri: nat)
    requires li < |ls| && ri <= |rs| && (ri < |rs| ==> Less(key(ls[li]), key(rs[ri])))
    ensures JoinRest(ls, rs, key, li, ri) == [OnlyLeft(ls[li])] + JoinRest(ls, rs, key, li + 1, ri)
  {
    SuffixHead(ls, li);
  }

  lemma StepRight<T>(ls: seq<T>, rs: seq<T>, key: T -> string, li: nat, ri: nat)
    requires li <= |ls| && ri < |rs|
    requires li < |ls| ==> key(ls[li]) != key(rs[ri]) && !Less(key(ls[li]), key(rs[ri]))
    ensures JoinRest(ls, rs, key, li, ri) == [OnlyRight(rs[ri])] + JoinRest(ls, rs, key, li, ri + 1)
  {
    SuffixHead(rs, ri);
  }

  lemma StepBoth<T>(ls: seq<T>, rs: seq<T>, key: T -> string, li: nat, ri: nat)
    requires li < |ls| && ri < |rs| && key(ls[li]) == key(rs[ri])
    ensures JoinRest(ls, rs, key, li, ri) == [Both(ls[li], rs[ri])] + JoinRest(ls, rs, key, li + 1, ri + 1)
  {
    SuffixHead(ls, li);
    SuffixHead(rs, ri);
    if Less(key(ls[li]), key(rs[ri])) {
      LessAsymmetric(key(ls[li]), key(rs[ri]));
    }
  }

  lemma JoinDone<T>(ls: seq<T>, rs: seq<T>, key: T -> string)
    ensures JoinRest(ls, rs, key, |ls|, |rs|) == []
  {
  }
}
