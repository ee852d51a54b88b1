/** Breadth-first and depth-first iteration over all keys (`winreg-core/src/iter.rs`). */
module Iterators {
  import opened Wrappers
  import opened Sequences
  import opened KeyGraphs
  import opened VisitOrder

  // ----- the queue discipline yields level order -----

  /** What a queue yields when it holds the rest of one level, then the start of the next. */
  function QueueOrder<K>(rest: seq<Tree<K>>, next: seq<Tree<K>>): seq<Result<K>> {
    Level(rest) + LevelOrder(next + NextLevel(rest))
  }

  /** Serving the head and queueing its children keeps the order of what is still to come. */
  lemma ServeHead<K>(g: KeyGraph<K>, rest: seq<Tree<K>>, next: seq<Tree<K>>)
    requires rest != [] && Unfolds(g, rest[0])
    ensures QueueOrder(rest, next) == [Outcome(rest[0])] + QueueOrder(rest[1..], next + KidsOf(rest[0]))
    ensures SumSizes(rest[1..] + (next + KidsOf(rest[0]))) < SumSizes(rest + next)
    ensures g.subkeys(rest[0].key) == if rest[0].Node? then Ok(KeysOf(KidsOf(rest[0]))) else Err(rest[0].error)
    ensures forall k | k in KidsOf(rest[0]) :: Unfolds(g, k)
  {
    assert Level(rest) == [Outcome(rest[0])] + Level(rest[1..]);
    assert next + NextLevel(rest) == next + KidsOf(rest[0]) + NextLevel(rest[1..]);
    SumSizesAppend(rest[1..], next + KidsOf(rest[0]));
    SumSizesAppend(next, KidsOf(rest[0]));
    SumSizesAppend(rest, next);
  }

  lemma QueueFront<K>(rest: seq<Tree<K>>, next: seq<Tree<K>>)
    requires rest != []
    ensures KeysOf(rest + next) == [rest[0].key] + KeysOf(rest[1..] + next)
    ensures KeysOf(rest[1..] + (next + KidsOf(rest[0]))) == KeysOf(rest[1..] + next) + KeysOf(KidsOf(rest[0]))
    ensures forall t | t in rest[1..] + (next + KidsOf(rest[0])) :: t in rest + next || t in KidsOf(rest[0])
  {
  }

  /** An exhausted level gives way to the next one. */
  lemma LevelTurns<K>(next: seq<Tree<K>>)
    ensures QueueOrder([], next) == LevelOrder(next) == QueueOrder(next, [])
  {
    assert next + NextLevel<K>([]) == next;
    assert [] + NextLevel(next) == NextLevel(next);
    assert Level<K>([]) + LevelOrder(next) == LevelOrder(next);
    if next == [] {
      assert LevelOrder<K>([]) == [];
    }
  }

  // ----- the iterators -----

  class BfsIter<!K(==)> {
    const graph: KeyGraph<K>
    var queue: seq<K>
    ghost var rest: seq<Tree<K>>
    ghost var next: seq<Tree<K>>
    ghost var pending: seq<Result<K>>  // what the iterator will still yield
    ghost var work: nat                // how many keys that covers

    ghost predicate Valid()
      reads this
    {
      && pending == QueueOrder(rest, next)
      && work == SumSizes(rest + next)
      && queue == KeysOf(rest + next)
      && forall t | t in rest + next :: Unfolds(graph, t)
    }

    constructor (g: KeyGraph<K>, root: K, ghost t: Tree<K>)
      requires Unfolds(g, t) && t.key == root
      ensures Valid() && graph == g && pending == LevelOrder([t])
    {
      graph := g;
      queue := [root];
      rest, next := [t], [];
      LevelTurns([t]);
      pending, work := LevelOrder([t]), SumSizes([t] + []);
    }

    method Enqueue(children: seq<K>)
      modifies this`queue
      ensures queue == old(queue) + children
    {
      for i := 0 to |children|
        invariant queue == old(queue) + children[..i]
      {
        queue := queue + [children[i]];
        assert children[..i + 1] == children[..i] + [children[i]];
      }
      assert children[..|children|] == children;
    }

    /** Yields the head of what is pending, or nothing when nothing is. */
    method Next() returns (r: Option<Result<K>>)
      requires Valid()
      modifies this
      ensures Valid()
      ensures r.None? <==> old(pending) == []
      ensures r.None? ==> pending == []
      ensures r.Some? ==> old(pending) == [r.value] + pending && work < old(work)
    {
      if rest == [] {
        LevelTurns(next);
        assert rest + next == next + [];
        rest, next := next, [];
      }
      if queue == [] {
        return None;
      }
      var first := Serve();
      r := Some(first);
    }

    /** Takes the front key off the queue and queues its children. */
    method Serve() returns (r: Result<K>)
      requires Valid() && rest != []
      modifies this
      ensures Valid() && old(pending) == [r] + pending && work < old(work)
    {
      ghost var t := rest[0];
      assert t in rest + next;
      QueueFront(rest, next);
      ServeHead(graph, rest, next);
      var key := queue[0];
      queue := queue[1..];
      rest, next := rest[1..], next + KidsOf(t);
      pending, work := QueueOrder(rest, next), SumSizes(rest + next);
      match graph.subkeys(key) {
        case Ok(children) =>
          Enqueue(children);
          r := Ok(key);
        case Err(e) =>
          r := Err(e);
      }
    }
  }

  class DfsIter<!K(==)> {
    const graph: KeyGraph<K>
    var stack: seq<K>
    ghost var pending: seq<Tree<K>>

    ghost predicate Valid()
      reads this
    {
      && stack == Reverse(KeysOf(pending))
      && forall t | t in pending :: Unfolds(graph, t)
    }

    constructor (g: KeyGraph<K>, root: K, ghost t: Tree<K>)
      requires Unfolds(g, t) && t.key == root
      ensures Valid() && graph == g && pending == [t]
    {
      graph := g;
      stack := [root];
      pending := [t];
    }

    method PushReversed(children: seq<K>)
      modifies this`stack
      ensures stack == old(stack) + Reverse(children)
    {
      for i := |children| downto 0
        invariant stack == old(stack) + Reverse(children[i..])
      {
        stack := stack + [children[i]];
        assert Reverse(children[i..]) == Reverse(children[i + 1..]) + [children[i]];
      }
      assert children[0..] == children;
    }

    /** Yields the head of the pre-order of what is pending, or nothing when nothing is. */
    method Next() returns (r: Option<Result<K>>)
      requires Valid()
      modifies this
      ensures Valid()
      ensures r.None? <==> old(pending) == []
      ensures r.None? ==> pending == []
      ensures r.Some? ==>
              PreOrder(old(pending)) == [r.value] + PreOrder(pending) && SumSizes(pending) < SumSizes(old(pending))
    {
      if stack == [] {
        return None;
      }
      ghost var t, below := pending[0], pending[1..];
      assert t in pending;
      StackTop(pending);
      PopTop(graph, t, below);
      StackOfBoth(KidsOf(t), below);
      var key := stack[|stack| - 1];
      stack := stack[..|stack| - 1];
      pending := KidsOf(t) + below;
      match graph.subkeys(key) {
        case Ok(children) =>
          PushReversed(children);
          r := Some(Ok(key));
        case Err(e) =>
          r := Some(Err(e));
      }
    }
  }

  lemma StackTop<K>(pending: seq<Tree<K>>)
    requires pending != []
    ensures pending == [pending[0]] + pending[1..]
    ensures Reverse(KeysOf(pending)) == Reverse(KeysOf(pending[1..])) + [pending[0].key]
  {
  }

  lemma StackOfBoth<K>(above: seq<Tree<K>>, below: seq<Tree<K>>)
    ensures Reverse(KeysOf(above + below)) == Reverse(KeysOf(below)) + Reverse(KeysOf(above))
    ensures above == [] ==> Reverse(KeysOf(above + below)) == Reverse(KeysOf(below))
  {
  }

  /** Replacing the first tree by its children drops exactly its own outcome from the pre-order. */
  lemma PopTop<K>(g: KeyGraph<K>, t: Tree<K>, below: seq<Tree<K>>)
    requires Unfolds(g, t)
    ensures PreOrder([t] + below) == [Outcome(t)] + PreOrder(KidsOf(t) + below)
    ensures SumSizes(KidsOf(t) + below) < SumSizes([t] + below)
    ensures g.subkeys(t.key) == if t.Node? then Ok(KeysOf(KidsOf(t))) else Err(t.error)
    ensures forall k | k in KidsOf(t) :: Unfolds(g, k)
  {
    assert ([t] + below)[1..] == below;
    PreOrderAppend(KidsOf(t), below);
    SumSizesAppend(KidsOf(t), below);
    assert [Outcome(t)] + PreOrder(KidsOf(t)) + PreOrder(below)
           == [Outcome(t)] + (PreOrder(KidsOf(t)) + PreOrder(below));
  }

  lemma {:induction false} PreOrderAppend<K>(a: seq<Tree<K>>, b: seq<Tree<K>>)
    ensures PreOrder(a + b) == PreOrder(a) + PreOrder(b)
    decreases |a|
  {
    if a == [] {
      assert a + b == b;
    } else {
      assert (a + b)[1..] == a[1..] + b;
      PreOrderAppend(a[1..], b);
    }
  }

  // ----- draining -----

  /** Draining the breadth-first iterator yields level order: every key once, less deep ones first. */
  method DrainBfs<K(==)>(g: KeyGraph<K>, root: K, ghost t: Tree<K>) returns (out: seq<Result<K>>)
    requires Unfolds(g, t) && t.key == root
    ensures out == LevelOrder([t]) && VisitsWide(t, out)
  {
    LevelOrderExact(t);
    var it := new BfsIter<K>(g, root, t);
    out := [];
    while true
      invariant it.Valid() && fresh(it)
      invariant LevelOrder([t]) == out + it.pending
      decreases it.work
    {
      var r := it.Next();
      if r.None? {
        return;
      }
      AppendAssociates(out, [r.value], it.pending);
      out := out + [r.value];
    }
  }

  /** Draining the depth-first iterator yields pre-order: every key once, before everything below it. */
  method DrainDfs<K(==)>(g: KeyGraph<K>, root: K, ghost t: Tree<K>) returns (out: seq<Result<K>>)
    requires Unfolds(g, t) && t.key == root
    ensures out == PreOrder([t]) && VisitsDeep(t, out)
  {
    PreOrderExact(t);
    var it := new DfsIter<K>(g, root, t);
    out := [];
    while true
      invariant it.Valid() && fresh(it)
      invariant PreOrder([t]) == out + PreOrder(it.pending)
      decreases SumSizes(it.pending)
    {
      var r := it.Next();
      if r.None? {
        return;
      }
      AppendAssociates(out, [r.value], PreOrder(it.pending));
      out := out + [r.value];
    }
  }

  // ----- both orders visit the same keys -----

  /** One outcome per key of the trees. */
  ghost function Visits<K>(ts: seq<Tree<K>>): multiset<Result<K>>
    decreases SumSizes(ts)
  {
    if ts == [] then multiset{}
    else multiset{Outcome(ts[0])} + Visits(KidsOf(ts[0])) + Visits(ts[1..])
  }

  lemma {:induction false} VisitsAppend<K>(a: seq<Tree<K>>, b: seq<Tree<K>>)
    ensures Visits(a + b) == Visits(a) + Visits(b)
    decreases |a|
  {
    if a == [] {
      assert a + b == b;
    } else {
      assert (a + b)[1..] == a[1..] + b;
      VisitsAppend(a[1..], b);
    }
  }

  lemma Interchange<T>(a: multiset<T>, b: multiset<T>, c: multiset<T>, d: multiset<T>)
    ensures a + b + (c + d) == (a + c) + (b + d)
  {
  }

  lemma LevelFirst<K>(ts: seq<Tree<K>>)
    requires ts != []
    ensures multiset(Level(ts)) == multiset{Outcome(ts[0])} + multiset(Level(ts[1..]))
  {
    assert Level(ts) == [Outcome(ts[0])] + Level(ts[1..]);
  }

  lemma {:induction false} LevelVisits<K>(ts: seq<Tree<K>>)
    ensures Visits(ts) == multiset(Level(ts)) + Visits(NextLevel(ts))
    decreases |ts|
  {
    if ts != [] {
      var head, kids := Outcome(ts[0]), KidsOf(ts[0]);
      var level, next := multiset(Level(ts[1..])), Visits(NextLevel(ts[1..]));
      assert Visits(ts) == multiset{head} + Visits(kids) + (level + next) by {
        LevelVisits(ts[1..]);
      }
      Interchange(multiset{head}, Visits(kids), level, next);
      LevelFirst(ts);
      VisitsAppend(kids, NextLevel(ts[1..]));
    }
  }

  lemma {:induction false} PreOrderVisits<K>(ts: seq<Tree<K>>)
    ensures multiset(PreOrder(ts)) == Visits(ts)
    decreases SumSizes(ts)
  {
    if ts != [] {
      PreOrderVisits(KidsOf(ts[0]));
      PreOrderVisits(ts[1..]);
    }
  }

  lemma {:induction false} LevelOrderVisits<K>(ts: seq<Tree<K>>)
    ensures multiset(LevelOrder(ts)) == Visits(ts)
    decreases SumSizes(ts)
  {
    if ts != [] {
      NextLevelSize(ts);
      LevelOrderVisits(NextLevel(ts));
      LevelVisits(ts);
    }
  }

  /** The two iterators yield the same keys (and errors), each as often as it occurs in the tree. */
  lemma SameVisits<K>(t: Tree<K>)
    ensures multiset(PreOrder([t])) == multiset(LevelOrder([t])) == Visits([t])
    ensures |PreOrder([t])| == |LevelOrder([t])| == Size(t)
  {
    PreOrderVisits([t]);
    LevelOrderVisits([t]);
    PreOrderLength([t]);
    assert |multiset(PreOrder([t]))| == |PreOrder([t])| && |multiset(LevelOrder([t]))| == |LevelOrder([t])|;
  }

  lemma {:induction false} PreOrderLength<K>(ts: seq<Tree<K>>)
    ensures |PreOrder(ts)| == SumSizes(ts)
    decreases SumSizes(ts)
  {
    if ts != [] {
      PreOrderLength(KidsOf(ts[0]));
      PreOrderLength(ts[1..]);
    }
  }
}
