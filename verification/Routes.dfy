/** What a template expands to, in which order: told by the positions of the keys stepped to, not by the search
    (`winreg-artifacts/src/path_expansion.rs`). */
module Routes {
  import opened Wrappers
  import opened Sequences
  import opened Text
  import opened KeyGraphs
  import opened Glob
  import opened Templates

  /** One step of a route: a `**` is passed without a step, or a key is stepped to. `pos` is the key's place among its
      siblings, for a control set the place of its name among the resolved names; `domain` tells the kind of
      segment. */
  datatype Move<K> = Pass | At(pos: nat, child: K, domain: Option<Wildcard>)

  type Route<K> = seq<Move<K>>

  // ----- which steps a segment allows -----

  ghost predicate HasDoubleStar(p: string) {
    exists a, b :: p == a + ['*', '*'] + b
  }

  ghost predicate Allowed<K>(g: KeyGraph<K>, kids: seq<K>, seg: Segment, sets: seq<string>, m: Move<K>) {
    m.At? &&
    match seg
    case Literal(name) => m.domain == None && FirstAt(g, kids, name, m.pos) && m.child == kids[m.pos]
    case Variable(ControlSetDomain, _) =>
      && m.domain == Some(ControlSetDomain) && m.pos < |sets|
      && exists i: nat :: FirstAt(g, kids, sets[m.pos], i) && m.child == kids[i]
    case Variable(SubkeyDomain, pattern) =>
      && m.domain == Some(SubkeyDomain) && m.pos < |kids| && m.child == kids[m.pos]
      && (HasDoubleStar(pattern) || SegmentMatches(pattern, g.name(m.child)))
    case Variable(UserDomain, _) => false
  }

  /** `**`: any number of levels. */
  ghost predicate Deep(seg: Segment) {
    match seg
    case Literal(_) => false
    case Variable(domain, pattern) => domain == SubkeyDomain && HasDoubleStar(pattern)
  }

  /** The route leads through the whole template: one step for a segment, any number of them for a `**`, which is
      passed at its end. */
  ghost predicate Leads<K>(g: KeyGraph<K>, key: K, segs: seq<Segment>, sets: seq<string>, r: Route<K>)
    decreases |r|
  {
    if segs == [] then r == []
    else
      && r != []
      && if r[0].Pass? then Deep(segs[0]) && Leads(g, key, segs[1..], sets, r[1..])
         else
           && g.subkeys(key).Ok? && Allowed(g, g.subkeys(key).value, segs[0], sets, r[0])
           && Leads(g, r[0].child, if Deep(segs[0]) then segs else segs[1..], sets, r[1..])
  }

  // ----- the order of routes, and what following one emits -----

  predicate Before<K>(m: Move<K>, n: Move<K>) {
    n.At? && (m.Pass? || m.pos < n.pos)
  }

  /** Lexicographically by position, a `**` that takes no further step first. */
  predicate Earlier<K(==)>(r: Route<K>, s: Route<K>) {
    r != [] && s != [] && (Before(r[0], s[0]) || (r[0] == s[0] && Earlier(r[1..], s[1..])))
  }

  ghost predicate InOrder<K>(routes: seq<Route<K>>) {
    forall i, j | 0 <= i < j < |routes| :: Earlier(routes[i], routes[j])
  }

  /** The keys stepped to. */
  function Steps<K>(r: Route<K>): (steps: Route<K>)
    ensures forall m | m in steps :: m.At?
  {
    if r == [] then [] else if r[0].Pass? then Steps(r[1..]) else [r[0]] + Steps(r[1..])
  }

  function StepNames<K>(g: KeyGraph<K>, steps: Route<K>): (names: seq<string>)
    requires forall m | m in steps :: m.At?
    ensures |names| == |steps| && forall i | 0 <= i < |steps| :: names[i] == g.name(steps[i].child)
  {
    seq(|steps|, i requires 0 <= i < |steps| => g.name(steps[i].child))
  }

  /** One binding for every step through a variable segment, in order: its kind and the name of the key. */
  ghost predicate BindingsOf<K>(g: KeyGraph<K>, steps: Route<K>, bindings: seq<Binding>)
    requires forall m | m in steps :: m.At?
  {
    exists idx :: BoundAt(g, steps, idx, bindings)
  }

  ghost predicate BoundAt<K>(g: KeyGraph<K>, steps: Route<K>, idx: seq<nat>, bindings: seq<Binding>)
    requires forall m | m in steps :: m.At?
  {
    && Lists(idx, set i: nat | i < |steps| && steps[i].domain.Some?) && |bindings| == |idx|
    && forall k | 0 <= k < |idx| ::
         assert idx[k] in idx;
         bindings[k] == Binding(steps[idx[k]].domain.value, g.name(steps[idx[k]].child))
  }

  /** Following the route from `root` emits the key it ends at, its path, and what its variable steps chose. */
  ghost predicate Emits<K>(g: KeyGraph<K>, root: K, r: Route<K>, e: Emission<K>) {
    var steps := Steps(r);
    && e.key == (if steps == [] then root else steps[|steps| - 1].child)
    && PathOf(StepNames(g, steps), e.path)
    && BindingsOf(g, steps, e.bindings)
  }

  /** All routes of at most 64 steps, each once, in order. */
  ghost predicate AllRoutes<K(!new)>(g: KeyGraph<K>, root: K, segs: seq<Segment>, sets: seq<string>,
                                     routes: seq<Route<K>>) {
    InOrder(routes) && forall r :: r in routes <==> Leads(g, root, segs, sets, r) && |Steps(r)| <= 64
  }

  /** One emission per route, in the order of the routes. */
  ghost predicate EmittedBy<K>(g: KeyGraph<K>, root: K, routes: seq<Route<K>>, es: seq<Emission<K>>) {
    |es| == |routes| && forall i | 0 <= i < |es| :: Emits(g, root, routes[i], es[i])
  }

  // ----- the choices of a segment, as steps -----

  lemma DoubleStarExact(p: string)
    ensures ContainsDoubleStar(p) <==> HasDoubleStar(p)
  {
    if i :| 0 <= i < |p| - 1 && p[i] == '*' && p[i + 1] == '*' {
      assert p == p[..i] + ['*', '*'] + p[i + 2..];
    }
    if a, b :| p == a + ['*', '*'] + b {
      assert p[|a|] == '*' && p[|a| + 1] == '*';
    }
  }

  lemma DeepExact(seg: Segment)
    ensures IsDescent(seg) <==> Deep(seg)
  {
    if seg.Variable? {
      DoubleStarExact(seg.pattern);
    }
  }

  /** These are the steps that the segment allows, in the order of the choices. */
  ghost predicate StepsTo<K>(ms: Route<K>, chosen: seq<K>, domain: Option<Wildcard>) {
    && |ms| == |chosen| && (forall i | 0 <= i < |ms| :: ms[i].At? && ms[i].child == chosen[i] && ms[i].domain == domain)
    && forall i, j | 0 <= i < j < |ms| :: ms[i].pos < ms[j].pos
  }

  lemma {:induction false} FirstNamedFinds<K>(g: KeyGraph<K>, kids: seq<K>, name: string)
    ensures FirstNamed(g, kids, name)
         == match FindKey(g, kids, name) case None => [] case Some(k) => [k]
  {
    if kids != [] {
      FoldingsAgree(g.name(kids[0]), name);
      FirstNamedFinds(g, kids[1..], name);
    }
  }

  lemma FirstNamedAt<K>(g: KeyGraph<K>, kids: seq<K>, name: string) returns (at: Option<nat>)
    ensures match at
            case None => FirstNamed(g, kids, name) == [] && forall i: nat :: !FirstAt(g, kids, name, i)
            case Some(i) => FirstAt(g, kids, name, i) && FirstNamed(g, kids, name) == [kids[i]]
  {
    at := FindExact(g, kids, name);
    FirstNamedFinds(g, kids, name);
  }

  lemma LiteralSteps<K(!new)>(g: KeyGraph<K>, kids: seq<K>, name: string, sets: seq<string>) returns (ms: Route<K>)
    ensures StepsTo(ms, FirstNamed(g, kids, name), None)
    ensures forall m :: m in ms <==> Allowed(g, kids, Literal(name), sets, m)
  {
    var at := FirstNamedAt(g, kids, name);
    ms := match at case None => [] case Some(i) => [At(i, kids[i], None)];
    forall m ensures m in ms <==> Allowed(g, kids, Literal(name), sets, m) {
      if Allowed(g, kids, Literal(name), sets, m) {
        OneFirst(g, kids, name, at.value, m.pos);
      }
    }
  }

  lemma StepFirst<K>(m: Move<K>, ms: Route<K>, chosen: seq<K>, domain: Option<Wildcard>)
    requires m.At? && m.domain == domain && StepsTo(ms, chosen, domain) && forall n | n in ms :: m.pos < n.pos
    ensures StepsTo([m] + ms, [m.child] + chosen, domain)
  {
  }

  /** A step to the first key of a name from `k` on among the resolved ones. */
  ghost predicate SetFrom<K>(g: KeyGraph<K>, kids: seq<K>, sets: seq<string>, k: nat, m: Move<K>) {
    && m.At? && m.domain == Some(ControlSetDomain) && k <= m.pos < |sets|
    && exists i: nat :: FirstAt(g, kids, sets[m.pos], i) && m.child == kids[i]
  }

  lemma SetHere<K>(g: KeyGraph<K>, kids: seq<K>, sets: seq<string>, k: nat, at: Option<nat>, m: Move<K>)
    requires k < |sets|
    requires match at
             case None => forall i: nat :: !FirstAt(g, kids, sets[k], i)
             case Some(i) => FirstAt(g, kids, sets[k], i)
    ensures SetFrom(g, kids, sets, k, m) <==>
              || SetFrom(g, kids, sets, k + 1, m)
              || (at.Some? && m == At(k, kids[at.value], Some(ControlSetDomain)))
  {
    if SetFrom(g, kids, sets, k, m) && m.pos == k {
      var i: nat :| FirstAt(g, kids, sets[m.pos], i) && m.child == kids[i];
      if at.Some? {
        OneFirst(g, kids, sets[k], at.value, i);
      }
    }
  }

  lemma {:induction false} ControlSetSteps<K(!new)>(g: KeyGraph<K>, kids: seq<K>, sets: seq<string>, k: nat)
    returns (ms: Route<K>)
    requires k <= |sets|
    ensures StepsTo(ms, FirstNamedEach(g, kids, sets[k..]), Some(ControlSetDomain))
    ensures forall m :: m in ms <==> SetFrom(g, kids, sets, k, m)
    decreases |sets| - k
  {
    ms := [];
    if k < |sets| {
      ms := ControlSetSteps(g, kids, sets, k + 1);
      var later := ms;
      var at := FirstNamedAt(g, kids, sets[k]);
      forall m ensures SetFrom(g, kids, sets, k, m) <==>
          || m in later || (at.Some? && m == At(k, kids[at.value], Some(ControlSetDomain)))
      {
        SetHere(g, kids, sets, k, at, m);
      }
      assert sets[k..][1..] == sets[k + 1..];
      if at.Some? {
        var m := At(k, kids[at.value], Some(ControlSetDomain));
        assert forall n | n in later :: SetFrom(g, kids, sets, k + 1, n);
        StepFirst(m, later, FirstNamedEach(g, kids, sets[k + 1..]), Some(ControlSetDomain));
        ms := [m] + later;
      }
    }
  }

  /** A step to a key from place `k` on whose name matches. */
  ghost predicate MatchFrom<K>(g: KeyGraph<K>, kids: seq<K>, pattern: string, k: nat, m: Move<K>) {
    && m.At? && m.domain == Some(SubkeyDomain) && k <= m.pos < |kids| && m.child == kids[m.pos]
    && SegmentMatches(pattern, g.name(m.child))
  }

  lemma MatchHere<K>(g: KeyGraph<K>, kids: seq<K>, pattern: string, k: nat, m: Move<K>)
    requires k < |kids|
    ensures MatchFrom(g, kids, pattern, k, m) <==>
              || MatchFrom(g, kids, pattern, k + 1, m)
              || (SegmentMatches(pattern, g.name(kids[k])) && m == At(k, kids[k], Some(SubkeyDomain)))
  {
  }

  lemma {:induction false} MatchingSteps<K(!new)>(g: KeyGraph<K>, kids: seq<K>, pattern: string, k: nat)
    returns (ms: Route<K>)
    requires k <= |kids|
    ensures StepsTo(ms, Matching(g, kids[k..], pattern), Some(SubkeyDomain))
    ensures forall m :: m in ms <==> MatchFrom(g, kids, pattern, k, m)
    decreases |kids| - k
  {
    ms := [];
    if k < |kids| {
      ms := MatchingSteps(g, kids, pattern, k + 1);
      var later := ms;
      var m := At(k, kids[k], Some(SubkeyDomain));
      forall n ensures MatchFrom(g, kids, pattern, k, n) <==>
          n in later || (SegmentMatches(pattern, g.name(kids[k])) && n == m)
      {
        MatchHere(g, kids, pattern, k, n);
      }
      SuffixHead(kids, k);
      if SegmentMatches(pattern, g.name(kids[k])) {
        assert forall n | n in later :: MatchFrom(g, kids, pattern, k + 1, n);
        StepFirst(m, later, Matching(g, kids[k + 1..], pattern), Some(SubkeyDomain));
        ms := [m] + later;
      }
    }
  }

  lemma EverySteps<K(!new)>(g: KeyGraph<K>, kids: seq<K>, pattern: string, sets: seq<string>) returns (ms: Route<K>)
    requires HasDoubleStar(pattern)
    ensures StepsTo(ms, kids, Some(SubkeyDomain))
    ensures forall m :: m in ms <==> Allowed(g, kids, Variable(SubkeyDomain, pattern), sets, m)
  {
    ms := seq(|kids|, i requires 0 <= i < |kids| => At(i, kids[i], Some(SubkeyDomain)));
    forall m ensures m in ms <==> Allowed(g, kids, Variable(SubkeyDomain, pattern), sets, m) {
      if Allowed(g, kids, Variable(SubkeyDomain, pattern), sets, m) {
        assert ms[m.pos] == m;
      }
    }
  }

  lemma SubkeySteps<K(!new)>(g: KeyGraph<K>, kids: seq<K>, pattern: string, sets: seq<string>) returns (ms: Route<K>)
    requires !HasDoubleStar(pattern)
    ensures StepsTo(ms, Matching(g, kids, pattern), Some(SubkeyDomain))
    ensures forall m :: m in ms <==> Allowed(g, kids, Variable(SubkeyDomain, pattern), sets, m)
  {
    ms := MatchingSteps(g, kids, pattern, 0);
    assert kids[0..] == kids;
    forall m ensures MatchFrom(g, kids, pattern, 0, m) <==> Allowed(g, kids, Variable(SubkeyDomain, pattern), sets, m) {
    }
  }

  lemma SetSteps<K(!new)>(g: KeyGraph<K>, kids: seq<K>, pattern: string, sets: seq<string>) returns (ms: Route<K>)
    ensures StepsTo(ms, FirstNamedEach(g, kids, sets), Some(ControlSetDomain))
    ensures forall m :: m in ms <==> Allowed(g, kids, Variable(ControlSetDomain, pattern), sets, m)
  {
    ms := ControlSetSteps(g, kids, sets, 0);
    assert sets[0..] == sets;
    forall m ensures SetFrom(g, kids, sets, 0, m) <==> Allowed(g, kids, Variable(ControlSetDomain, pattern), sets, m) {
    }
  }

  /** A key's choices for a segment are the steps that the segment allows, each once, at increasing positions. */
  lemma ChoicesLegal<K(!new)>(g: KeyGraph<K>, key: K, seg: Segment, sets: seq<string>) returns (ms: Route<K>)
    ensures |ms| == |Choices(g, key, seg, sets)|
    ensures forall i | 0 <= i < |ms| :: ms[i].At? && ms[i].child == Choices(g, key, seg, sets)[i]
    ensures forall i | 0 <= i < |ms| :: ms[i].domain == Tag(seg)
    ensures forall i, j | 0 <= i < j < |ms| :: ms[i].pos < ms[j].pos
    ensures forall m :: m in ms <==> g.subkeys(key).Ok? && Allowed(g, g.subkeys(key).value, seg, sets, m)
  {
    ms := [];
    if g.subkeys(key).Ok? {
      var kids := g.subkeys(key).value;
      match seg {
        case Literal(name) => ms := LiteralSteps(g, kids, name, sets);
        case Variable(ControlSetDomain, pattern) => ms := SetSteps(g, kids, pattern, sets);
        case Variable(SubkeyDomain, pattern) =>
          DoubleStarExact(pattern);
          if HasDoubleStar(pattern) {
            ms := EverySteps(g, kids, pattern, sets);
          } else {
            ms := SubkeySteps(g, kids, pattern, sets);
          }
        case Variable(UserDomain, _) =>
      }
    }
  }

  // ----- the expansion, route by route -----

  ghost function Following<K>(g: KeyGraph<K>, key: K, r: Route<K>, prefix: string, bindings: seq<Binding>)
    : Emission<K>
  {
    if r == [] then Emission(bindings, prefix, key)
    else if r[0].Pass? then Following(g, key, r[1..], prefix, bindings)
    else
      var m := r[0];
      Following(g, m.child, r[1..], Child(prefix, g.name(m.child)), bindings + Bound(g, m.domain, m.child))
  }

  ghost predicate Follows<K>(g: KeyGraph<K>, key: K, routes: seq<Route<K>>, prefix: string, bindings: seq<Binding>,
                             es: seq<Emission<K>>) {
    |es| == |routes| && forall i | 0 <= i < |es| :: es[i] == Following(g, key, routes[i], prefix, bindings)
  }

  /** A route from depth `depth` on, within the cap. */
  ghost predicate Within<K>(g: KeyGraph<K>, key: K, segs: seq<Segment>, sets: seq<string>, depth: nat, r: Route<K>) {
    Leads(g, key, segs, sets, r) && depth + |Steps(r)| <= MAX_GLOB_DEPTH
  }

  /** The same first step on every route. */
  ghost function AfterFirst<K>(m: Move<K>, rs: seq<Route<K>>): (routes: seq<Route<K>>)
    ensures |routes| == |rs| && forall i | 0 <= i < |rs| :: routes[i] == [m] + rs[i]
  {
    seq(|rs|, i requires 0 <= i < |rs| => [m] + rs[i])
  }

  lemma FirstInOrder<K>(m: Move<K>, rs: seq<Route<K>>)
    requires InOrder(rs)
    ensures InOrder(AfterFirst(m, rs))
  {
    var routes := AfterFirst(m, rs);
    forall i, j | 0 <= i < j < |routes| ensures Earlier(routes[i], routes[j]) {
      assert routes[i][1..] == rs[i] && routes[j][1..] == rs[j];
    }
  }

  lemma FirstHas<K>(m: Move<K>, rs: seq<Route<K>>, r: Route<K>)
    ensures r in AfterFirst(m, rs) <==> r != [] && r[0] == m && r[1..] in rs
  {
    var routes := AfterFirst(m, rs);
    if r in routes {
      var i :| 0 <= i < |routes| && routes[i] == r;
      assert r[1..] == rs[i];
    }
    if r != [] && r[0] == m && r[1..] in rs {
      var i :| 0 <= i < |rs| && rs[i] == r[1..];
      assert r == [m] + r[1..] && routes[i] == r;
    }
  }

  lemma FirstFollows<K>(g: KeyGraph<K>, key: K, m: Move<K>, rs: seq<Route<K>>, prefix: string, bindings: seq<Binding>,
                        es: seq<Emission<K>>)
    requires if m.Pass? then Follows(g, key, rs, prefix, bindings, es)
             else Follows(g, m.child, rs, Child(prefix, g.name(m.child)), bindings + Bound(g, m.domain, m.child), es)
    ensures Follows(g, key, AfterFirst(m, rs), prefix, bindings, es)
  {
    forall i | 0 <= i < |es| ensures es[i] == Following(g, key, AfterFirst(m, rs)[i], prefix, bindings) {
      assert ([m] + rs[i])[1..] == rs[i];
    }
  }

  ghost predicate StartBefore<K>(a: seq<Route<K>>, b: seq<Route<K>>) {
    forall r, s | r in a && s in b :: r != [] && s != [] && Before(r[0], s[0])
  }

  lemma AppendInOrder<K>(a: seq<Route<K>>, b: seq<Route<K>>)
    requires InOrder(a) && InOrder(b) && StartBefore(a, b)
    ensures InOrder(a + b)
  {
    forall i, j | 0 <= i < |a| && 0 <= j < |b| ensures Earlier(a[i], b[j]) {
      assert a[i] in a && b[j] in b;
    }
  }

  lemma AppendFollows<K>(g: KeyGraph<K>, key: K, a: seq<Route<K>>, b: seq<Route<K>>, prefix: string,
                         bindings: seq<Binding>, es: seq<Emission<K>>, fs: seq<Emission<K>>)
    requires Follows(g, key, a, prefix, bindings, es) && Follows(g, key, b, prefix, bindings, fs)
    ensures Follows(g, key, a + b, prefix, bindings, es + fs)
  {
  }

  /** All routes from here on. */
  ghost predicate AllWithin<K(!new)>(routes: seq<Route<K>>, g: KeyGraph<K>, key: K, segs: seq<Segment>,
                                     sets: seq<string>, depth: nat) {
    forall r :: r in routes <==> Within(g, key, segs, sets, depth, r)
  }

  /** A route that starts with one of these steps and leads on from there. */
  ghost predicate Through<K>(g: KeyGraph<K>, ms: Route<K>, segs: seq<Segment>, sets: seq<string>, depth: nat,
                             r: Route<K>) {
    r != [] && r[0].At? && r[0] in ms && Within(g, r[0].child, segs, sets, depth, r[1..])
  }

  ghost predicate AllThrough<K(!new)>(routes: seq<Route<K>>, g: KeyGraph<K>, ms: Route<K>, segs: seq<Segment>,
                                      sets: seq<string>, depth: nat) {
    forall r :: r in routes <==> Through(g, ms, segs, sets, depth, r)
  }

  lemma FirstThrough<K(!new)>(g: KeyGraph<K>, ms: Route<K>, below: seq<Route<K>>, later: seq<Route<K>>,
                              segs: seq<Segment>, sets: seq<string>, depth: nat)
    requires ms != [] && ms[0].At? && AllWithin(below, g, ms[0].child, segs, sets, depth)
    requires AllThrough(later, g, ms[1..], segs, sets, depth)
    ensures AllThrough(AfterFirst(ms[0], below) + later, g, ms, segs, sets, depth)
  {
    assert forall m :: m in ms <==> m == ms[0] || m in ms[1..];
    forall r ensures r in AfterFirst(ms[0], below) + later <==> Through(g, ms, segs, sets, depth, r) {
      FirstHas(ms[0], below, r);
      assert r in AfterFirst(ms[0], below) + later <==> r in AfterFirst(ms[0], below) || r in later;
      assert r in later <==> Through(g, ms[1..], segs, sets, depth, r);
    }
  }

  lemma FirstBefore<K(!new)>(g: KeyGraph<K>, ms: Route<K>, below: seq<Route<K>>, later: seq<Route<K>>,
                             segs: seq<Segment>, sets: seq<string>, depth: nat)
    requires ms != [] && forall i, j | 0 <= i < j < |ms| :: ms[i].At? && ms[j].At? && ms[i].pos < ms[j].pos
    requires AllThrough(later, g, ms[1..], segs, sets, depth)
    ensures StartBefore(AfterFirst(ms[0], below), later)
  {
    forall r, s | r in AfterFirst(ms[0], below) && s in later ensures r != [] && s != [] && Before(r[0], s[0]) {
      FirstHas(ms[0], below, r);
      assert Through(g, ms[1..], segs, sets, depth, s);
    }
  }

  /** The routes whose first step is one of these. */
  lemma {:induction false} EachRoutes<K(!new)>(g: KeyGraph<K>, key: K, ms: Route<K>, kids: seq<K>,
                                               tag: Option<Wildcard>, segs: seq<Segment>, sets: seq<string>,
                                               prefix: string, depth: nat, bindings: seq<Binding>)
    returns (routes: seq<Route<K>>)
    requires StepsTo(ms, kids, tag)
    ensures InOrder(routes) && AllThrough(routes, g, ms, segs, sets, depth)
    ensures Follows(g, key, routes, prefix, bindings, ExpansionEach(g, kids, tag, segs, sets, prefix, depth, bindings))
    decreases Left(depth), |segs|, |kids| + 1
  {
    routes := [];
    if kids != [] {
      var m := ms[0];
      ghost var first := Expansion(g, kids[0], segs, sets, Child(prefix, g.name(kids[0])), depth,
                                   bindings + Bound(g, tag, kids[0]));
      var below := ExpansionRoutes(g, kids[0], segs, sets, Child(prefix, g.name(kids[0])), depth,
                                   bindings + Bound(g, tag, kids[0]));
      var later := EachRoutes(g, key, ms[1..], kids[1..], tag, segs, sets, prefix, depth, bindings);
      FirstInOrder(m, below);
      FirstBefore(g, ms, below, later, segs, sets, depth);
      AppendInOrder(AfterFirst(m, below), later);
      FirstThrough(g, ms, below, later, segs, sets, depth);
      FirstFollows(g, key, m, below, prefix, bindings, first);
      routes := AfterFirst(m, below) + later;
      AppendFollows(g, key, AfterFirst(m, below), later, prefix, bindings, first,
                    ExpansionEach(g, kids[1..], tag, segs, sets, prefix, depth, bindings));
    }
  }

  lemma WithinPass<K>(g: KeyGraph<K>, key: K, segs: seq<Segment>, sets: seq<string>, depth: nat, r: Route<K>)
    requires segs != [] && r != [] && r[0].Pass?
    ensures Within(g, key, segs, sets, depth, r) <==> Deep(segs[0]) && Within(g, key, segs[1..], sets, depth, r[1..])
  {
  }

  lemma WithinStep<K>(g: KeyGraph<K>, key: K, segs: seq<Segment>, sets: seq<string>, depth: nat, r: Route<K>)
    requires segs != [] && r != [] && r[0].At?
    ensures Within(g, key, segs, sets, depth, r) <==>
              && g.subkeys(key).Ok? && Allowed(g, g.subkeys(key).value, segs[0], sets, r[0])
              && Within(g, r[0].child, AfterStep(segs), sets, depth + 1, r[1..])
  {
    DeepExact(segs[0]);
  }

  /** The routes that first pass the segment, if it is a `**`. */
  ghost predicate Passing<K>(g: KeyGraph<K>, key: K, segs: seq<Segment>, sets: seq<string>, depth: nat, r: Route<K>)
    requires segs != []
  {
    IsDescent(segs[0]) && r != [] && r[0].Pass? && Within(g, key, segs[1..], sets, depth, r[1..])
  }

  /** Every route passes the segment or steps to one of its choices. */
  lemma PassOrStep<K(!new)>(g: KeyGraph<K>, key: K, segs: seq<Segment>, sets: seq<string>, depth: nat, ms: Route<K>,
                            r: Route<K>)
    requires segs != []
    requires forall m :: m in ms <==> g.subkeys(key).Ok? && Allowed(g, g.subkeys(key).value, segs[0], sets, m)
    ensures Within(g, key, segs, sets, depth, r) <==>
              Passing(g, key, segs, sets, depth, r) || Through(g, ms, AfterStep(segs), sets, depth + 1, r)
  {
    DeepExact(segs[0]);
    if r != [] {
      if r[0].Pass? {
        WithinPass(g, key, segs, sets, depth, r);
      } else {
        WithinStep(g, key, segs, sets, depth, r);
      }
    }
  }

  lemma PassingRoutes<K(!new)>(g: KeyGraph<K>, key: K, segs: seq<Segment>, sets: seq<string>, prefix: string,
                               depth: nat, bindings: seq<Binding>) returns (routes: seq<Route<K>>)
    requires segs != [] && depth <= MAX_GLOB_DEPTH
    ensures InOrder(routes) && forall r :: r in routes <==> Passing(g, key, segs, sets, depth, r)
    ensures Follows(g, key, routes, prefix, bindings,
                    if IsDescent(segs[0]) then Expansion(g, key, segs[1..], sets, prefix, depth, bindings) else [])
    decreases Left(depth), |segs| - 1, 1
  {
    routes := [];
    if IsDescent(segs[0]) {
      var here := ExpansionRoutes(g, key, segs[1..], sets, prefix, depth, bindings);
      FirstInOrder(Pass, here);
      FirstFollows(g, key, Pass, here, prefix, bindings, Expansion(g, key, segs[1..], sets, prefix, depth, bindings));
      routes := AfterFirst(Pass, here);
      forall r ensures r in routes <==> Passing(g, key, segs, sets, depth, r) {
        FirstHas(Pass, here, r);
      }
    }
  }

  /** The routes through the first segment: those that pass it come first. */
  lemma SegmentRoutes<K(!new)>(g: KeyGraph<K>, key: K, segs: seq<Segment>, sets: seq<string>, depth: nat, ms: Route<K>,
                               here: seq<Route<K>>, each: seq<Route<K>>)
    requires segs != []
    requires forall m :: m in ms <==> g.subkeys(key).Ok? && Allowed(g, g.subkeys(key).value, segs[0], sets, m)
    requires InOrder(here) && forall r :: r in here <==> Passing(g, key, segs, sets, depth, r)
    requires InOrder(each) && AllThrough(each, g, ms, AfterStep(segs), sets, depth + 1)
    ensures InOrder(here + each) && AllWithin(here + each, g, key, segs, sets, depth)
  {
    forall r ensures r in here + each <==> Within(g, key, segs, sets, depth, r) {
      PassOrStep(g, key, segs, sets, depth, ms, r);
      assert r in each <==> Through(g, ms, AfterStep(segs), sets, depth + 1, r);
    }
    forall r, s | r in here && s in each ensures r != [] && s != [] && Before(r[0], s[0]) {
      assert Through(g, ms, AfterStep(segs), sets, depth + 1, s);
    }
    AppendInOrder(here, each);
  }

  /** The expansion has one emission for every route, in the order of the routes. */
  lemma {:induction false} ExpansionRoutes<K(!new)>(g: KeyGraph<K>, key: K, segs: seq<Segment>, sets: seq<string>,
                                                    prefix: string, depth: nat, bindings: seq<Binding>)
    returns (routes: seq<Route<K>>)
    ensures InOrder(routes) && AllWithin(routes, g, key, segs, sets, depth)
    ensures Follows(g, key, routes, prefix, bindings, Expansion(g, key, segs, sets, prefix, depth, bindings))
    decreases Left(depth), |segs|, 0
  {
    if depth > MAX_GLOB_DEPTH {
      routes := [];
    } else if segs == [] {
      routes := [[]];
    } else {
      var ms := ChoicesLegal(g, key, segs[0], sets);
      var here := PassingRoutes(g, key, segs, sets, prefix, depth, bindings);
      var each := EachRoutes(g, key, ms, Choices(g, key, segs[0], sets), Tag(segs[0]), AfterStep(segs), sets, prefix,
                             depth + 1, bindings);
      routes := here + each;
      SegmentRoutes(g, key, segs, sets, depth, ms, here, each);
      AppendFollows(g, key, here, each, prefix, bindings,
                    if IsDescent(segs[0]) then Expansion(g, key, segs[1..], sets, prefix, depth, bindings) else [],
                    ExpansionEach(g, Choices(g, key, segs[0], sets), Tag(segs[0]), AfterStep(segs), sets, prefix,
                                  depth + 1, bindings));
    }
  }

  // ----- what following a route emits -----

  lemma {:induction false} FollowingEnds<K>(g: KeyGraph<K>, key: K, r: Route<K>, prefix: string, bindings: seq<Binding>)
    ensures var steps := Steps(r);
            Following(g, key, r, prefix, bindings).key == if steps == [] then key else steps[|steps| - 1].child
  {
    if r != [] {
      if r[0].Pass? {
        FollowingEnds(g, key, r[1..], prefix, bindings);
      } else {
        FollowingEnds(g, r[0].child, r[1..], Child(prefix, g.name(r[0].child)),
                      bindings + Bound(g, r[0].domain, r[0].child));
      }
    }
  }

  lemma JoinFirst(prefix: string, n: string, rest: seq<string>)
    ensures Join([prefix + [SEP] + n] + rest) == Join([prefix] + ([n] + rest))
  {
    assert ([prefix] + ([n] + rest))[1..] == [n] + rest && ([n] + rest)[1..] == rest
           && ([prefix + [SEP] + n] + rest)[1..] == rest;
    if rest != [] {
      assert prefix + [SEP] + n + [SEP] + Join(rest) == prefix + [SEP] + (n + [SEP] + Join(rest));
    }
  }

  /** The path of a list of names after a prefix. */
  ghost predicate PathFrom(prefix: string, names: seq<string>, path: string) {
    if prefix == [] then PathOf(names, path) else path == Join([prefix] + names)
  }

  lemma PathStep(prefix: string, n: string, rest: seq<string>, path: string)
    requires PathFrom(Child(prefix, n), rest, path)
    ensures PathFrom(prefix, [n] + rest, path)
  {
    if prefix != [] {
      JoinFirst(prefix, n, rest);
    } else if n != [] {
      PathHere([n] + rest, path);
    } else {
      PathPastEmpty(rest, path);
    }
  }

  lemma StepNamesFirst<K>(g: KeyGraph<K>, m: Move<K>, steps: Route<K>)
    requires m.At? && forall n | n in steps :: n.At?
    ensures forall n | n in [m] + steps :: n.At?
    ensures StepNames(g, [m] + steps) == [g.name(m.child)] + StepNames(g, steps)
  {
  }

  lemma {:induction false} FollowingPath<K>(g: KeyGraph<K>, key: K, r: Route<K>, prefix: string, bindings: seq<Binding>)
    ensures PathFrom(prefix, StepNames(g, Steps(r)), Following(g, key, r, prefix, bindings).path)
  {
    if r == [] {
      var none: seq<string> := [];
      assert StepNames(g, Steps(r)) == none;
      if prefix == [] {
        assert prefix == Join(none[0..]);
      }
    } else if r[0].Pass? {
      FollowingPath(g, key, r[1..], prefix, bindings);
    } else {
      var n := g.name(r[0].child);
      FollowingPath(g, r[0].child, r[1..], Child(prefix, n), bindings + Bound(g, r[0].domain, r[0].child));
      StepNamesFirst(g, r[0], Steps(r[1..]));
      PathStep(prefix, n, StepNames(g, Steps(r[1..])), Following(g, key, r, prefix, bindings).path);
    }
  }

  lemma BoundMore<K>(g: KeyGraph<K>, steps: Route<K>, m: Move<K>, idx: seq<nat>, bindings: seq<Binding>)
    returns (jdx: seq<nat>)
    requires m.At? && (forall n | n in steps :: n.At?) && BoundAt(g, steps, idx, bindings)
    ensures forall n | n in steps + [m] :: n.At?
    ensures BoundAt(g, steps + [m], jdx, bindings + Bound(g, m.domain, m.child))
  {
    var chosen := set i: nat | i < |steps| && steps[i].domain.Some?;
    var more := set i: nat | i < |steps + [m]| && (steps + [m])[i].domain.Some?;
    jdx := idx;
    if m.domain.Some? {
      ListsMore(idx, chosen, |steps|);
      assert more == chosen + {|steps|};
      jdx := idx + [|steps|];
    } else {
      assert more == chosen;
    }
    forall k | 0 <= k < |idx| ensures idx[k] < |steps| && steps[idx[k]].domain.Some? {
      assert idx[k] in idx;
    }
  }

  lemma {:induction false} FollowingBinds<K>(g: KeyGraph<K>, key: K, done: Route<K>, idx: seq<nat>, r: Route<K>,
                                             prefix: string, bindings: seq<Binding>) returns (jdx: seq<nat>)
    requires (forall n | n in done :: n.At?) && BoundAt(g, done, idx, bindings)
    ensures forall n | n in done + Steps(r) :: n.At?
    ensures BoundAt(g, done + Steps(r), jdx, Following(g, key, r, prefix, bindings).bindings)
    decreases |r|
  {
    if r == [] {
      jdx := idx;
      assert done + Steps(r) == done;
    } else if r[0].Pass? {
      jdx := FollowingBinds(g, key, done, idx, r[1..], prefix, bindings);
    } else {
      assert done + Steps(r) == done + [r[0]] + Steps(r[1..]);
      var more := BoundMore(g, done, r[0], idx, bindings);
      jdx := FollowingBinds(g, r[0].child, done + [r[0]], more, r[1..], Child(prefix, g.name(r[0].child)),
                            bindings + Bound(g, r[0].domain, r[0].child));
    }
  }

  lemma FollowingEmits<K>(g: KeyGraph<K>, root: K, r: Route<K>)
    ensures Emits(g, root, r, Following(g, root, r, [], []))
  {
    FollowingEnds(g, root, r, [], []);
    FollowingPath(g, root, r, [], []);
    assert BoundAt(g, [], [], []);
    var idx := FollowingBinds(g, root, [], [], r, [], []);
    assert [] + Steps(r) == Steps(r);
  }

  /** The expansion: every route through the template of at most 64 steps emits once, in the order of the routes. */
  lemma ExpansionOrdered<K(!new)>(g: KeyGraph<K>, root: K, segs: seq<Segment>, sets: seq<string>)
    returns (routes: seq<Route<K>>)
    ensures AllRoutes(g, root, segs, sets, routes)
    ensures EmittedBy(g, root, routes, Expansion(g, root, segs, sets, [], 0, []))
  {
    routes := ExpansionRoutes(g, root, segs, sets, [], 0, []);
    forall r ensures r in routes <==> Leads(g, root, segs, sets, r) && |Steps(r)| <= 64 {
      assert r in routes <==> Within(g, root, segs, sets, 0, r);
    }
    forall r ensures Emits(g, root, r, Following(g, root, r, [], [])) {
      FollowingEmits(g, root, r);
    }
  }

  /** Following a route emits one thing. */
  lemma EmitsOnce<K>(g: KeyGraph<K>, root: K, r: Route<K>, e: Emission<K>, f: Emission<K>)
    requires Emits(g, root, r, e) && Emits(g, root, r, f)
    ensures e == f
  {
    var steps := Steps(r);
    var i :| BoundAt(g, steps, i, e.bindings);
    var j :| BoundAt(g, steps, j, f.bindings);
    ListsOnce(i, j, set i: nat | i < |steps| && steps[i].domain.Some?);
  }

  lemma RouteEmitted<K>(g: KeyGraph<K>, root: K, routes: seq<Route<K>>, es: seq<Emission<K>>, r: Route<K>,
                        e: Emission<K>)
    requires EmittedBy(g, root, routes, es) && r in routes && Emits(g, root, r, e)
    ensures e in es
  {
    var i :| 0 <= i < |routes| && routes[i] == r;
    EmitsOnce(g, root, r, e, es[i]);
  }

  lemma EmissionRoute<K>(g: KeyGraph<K>, root: K, routes: seq<Route<K>>, es: seq<Emission<K>>, e: Emission<K>)
    returns (r: Route<K>)
    requires EmittedBy(g, root, routes, es) && e in es
    ensures r in routes && Emits(g, root, r, e)
  {
    var i :| 0 <= i < |es| && es[i] == e;
    r := routes[i];
  }

  /** An emission is in the expansion exactly when some route of at most 64 steps emits it. */
  lemma ExpansionExact<K(!new)>(g: KeyGraph<K>, root: K, segs: seq<Segment>, sets: seq<string>, e: Emission<K>)
    ensures e in Expansion(g, root, segs, sets, [], 0, []) <==>
            exists r :: Leads(g, root, segs, sets, r) && |Steps(r)| <= 64 && Emits(g, root, r, e)
  {
    var routes := ExpansionOrdered(g, root, segs, sets);
    var es := Expansion(g, root, segs, sets, [], 0, []);
    if e in es {
      var r := EmissionRoute(g, root, routes, es, e);
    }
    if r :| Leads(g, root, segs, sets, r) && |Steps(r)| <= 64 && Emits(g, root, r, e) {
      RouteEmitted(g, root, routes, es, r, e);
    }
  }

  // ----- there is one such list of routes -----

  lemma {:induction false} EarlierAsymmetric<K>(r: Route<K>, s: Route<K>)
    requires Earlier(r, s)
    ensures !Earlier(s, r) && r != s
  {
    if r[0] == s[0] && Earlier(r[1..], s[1..]) {
      EarlierAsymmetric(r[1..], s[1..]);
    }
  }

  lemma RestHas<K>(routes: seq<Route<K>>, r: Route<K>)
    requires InOrder(routes) && routes != []
    ensures r in routes[1..] <==> r in routes && r != routes[0]
  {
    if r in routes[1..] {
      var i :| 0 <= i < |routes[1..]| && routes[1..][i] == r;
      assert Earlier(routes[0], routes[i + 1]);
      EarlierAsymmetric(routes[0], r);
    }
  }

  lemma SameFirst<K>(a: seq<Route<K>>, b: seq<Route<K>>)
    requires InOrder(a) && InOrder(b) && a != [] && b != [] && a[0] in b && b[0] in a
    ensures a[0] == b[0]
  {
    if a[0] != b[0] {
      EarlierAsymmetric(a[0], b[0]);
    }
  }

  lemma SameRoutesEmpty<K(!new)>(a: seq<Route<K>>, b: seq<Route<K>>)
    requires forall r :: r in a <==> r in b
    ensures a == [] <==> b == []
  {
    if a != [] {
      assert a[0] in b;
    }
    if b != [] {
      assert b[0] in a;
    }
  }

  /** The routes and their order determine the list. */
  lemma {:induction false} RoutesOnce<K(!new)>(a: seq<Route<K>>, b: seq<Route<K>>)
    requires InOrder(a) && InOrder(b) && forall r :: r in a <==> r in b
    ensures a == b
  {
    SameRoutesEmpty(a, b);
    if a != [] {
      SameFirst(a, b);
      forall r ensures r in a[1..] <==> r in b[1..] {
        RestHas(a, r);
        RestHas(b, r);
      }
      RoutesOnce(a[1..], b[1..]);
    }
  }

  /** What is emitted with a cap: the emissions of the first 4096 routes, or of all of them. */
  ghost predicate FirstRoutes<K(!new)>(g: KeyGraph<K>, root: K, segs: seq<Segment>, sets: seq<string>,
                                       emitted: seq<Emission<K>>) {
    exists routes ::
      && AllRoutes(g, root, segs, sets, routes)
      && |emitted| == (if |routes| < 4096 then |routes| else 4096)
      && EmittedBy(g, root, routes[..|emitted|], emitted)
  }

  lemma CappedRoutes<K(!new)>(g: KeyGraph<K>, root: K, segs: seq<Segment>, sets: seq<string>)
    ensures FirstRoutes(g, root, segs, sets, Take(Expansion(g, root, segs, sets, [], 0, []), MAX_GLOB_MATCHES))
  {
    var routes := ExpansionOrdered(g, root, segs, sets);
    var es := Take(Expansion(g, root, segs, sets, [], 0, []), MAX_GLOB_MATCHES);
    assert EmittedBy(g, root, routes[..|es|], es);
  }
}
