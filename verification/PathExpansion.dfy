/** Template expansion over a key graph (`winreg-artifacts/src/path_expansion.rs`). The graph may have
    cycles; a depth cap and a match cap bound the walk. */
module PathExpansion {
  import opened Wrappers
  import opened Sequences
  import opened Text
  import opened KeyGraphs
  import opened Glob
  import opened Templates
  import opened Routes

  // ----- the capped walk -----

  class Walker<!K(==)> {
    const graph: KeyGraph<K>
    const resolver: Option<seq<string>>
    var matched: nat
    var bindings: seq<Binding>
    var emitted: seq<Emission<K>>

    constructor (g: KeyGraph<K>, resolver: Option<seq<string>>)
      ensures graph == g && this.resolver == resolver
      ensures Valid() && bindings == [] && emitted == []
    {
      graph, this.resolver := g, resolver;
      matched, bindings, emitted := 0, [], [];
    }

    /** The counter counts the emissions and has not passed the cap. */
    ghost predicate Valid()
      reads this
    {
      matched == |emitted| <= MAX_GLOB_MATCHES
    }

    /** The walk appends the expansion and truncates at the cap; the binding stack is as it was. */
    method Walk(key: K, segs: seq<Segment>, prefix: string, depth: nat)
      requires Valid()
      modifies this
      ensures Valid() && bindings == old(bindings)
      ensures emitted == Take(old(emitted) + Expansion(graph, key, segs, ControlSets(resolver), prefix, depth,
                old(bindings)), MAX_GLOB_MATCHES)
      decreases Left(depth), |segs|, 0
    {
      if matched >= MAX_GLOB_MATCHES || depth > MAX_GLOB_DEPTH {
        return;
      }
      if segs == [] {
        matched := matched + 1;
        emitted := emitted + [Emission(bindings, prefix, key)];
        return;
      }
      match segs[0] {
        case Literal(_) => StepLiteral(key, segs, prefix, depth);
        case Variable(ControlSetDomain, _) => StepControlSets(key, segs, prefix, depth);
        case Variable(SubkeyDomain, pattern) =>
          if ContainsDoubleStar(pattern) {
            WalkDescent(key, segs, prefix, depth);
          } else {
            StepMatching(key, segs, prefix, depth);
          }
        case Variable(UserDomain, _) =>
      }
    }

    /** A literal: the child it names. */
    method StepLiteral(key: K, segs: seq<Segment>, prefix: string, depth: nat)
      requires Valid() && segs != [] && segs[0].Literal? && depth <= MAX_GLOB_DEPTH
      modifies this
      ensures Valid() && bindings == old(bindings)
      ensures emitted == Take(old(emitted) + Expansion(graph, key, segs, ControlSets(resolver), prefix, depth,
                old(bindings)), MAX_GLOB_MATCHES)
      decreases Left(depth), |segs| - 1, 1
    {
      var children := graph.subkeys(key);
      if children.Err? {
        NoLevel(graph, key, segs, ControlSets(resolver), prefix, depth, bindings);
        return;
      }
      LiteralLevel(graph, key, segs, ControlSets(resolver), prefix, depth, bindings);
      WalkLiteral(children.value, segs[0].name, segs[1..], prefix, depth + 1);
    }

    /** `CurrentControlSet`: the child of each resolved name. */
    method StepControlSets(key: K, segs: seq<Segment>, prefix: string, depth: nat)
      requires Valid() && segs != [] && depth <= MAX_GLOB_DEPTH
      requires segs[0].Variable? && segs[0].domain == ControlSetDomain
      modifies this
      ensures Valid() && bindings == old(bindings)
      ensures emitted == Take(old(emitted) + Expansion(graph, key, segs, ControlSets(resolver), prefix, depth,
                old(bindings)), MAX_GLOB_MATCHES)
      decreases Left(depth), |segs| - 1, 1
    {
      var children := graph.subkeys(key);
      if children.Err? {
        NoLevel(graph, key, segs, ControlSets(resolver), prefix, depth, bindings);
        return;
      }
      ControlLevel(graph, key, segs, ControlSets(resolver), prefix, depth, bindings);
      WalkControlSets(children.value, segs[1..], prefix, depth + 1);
    }

    /** A single-level wildcard: the children that it matches. */
    method StepMatching(key: K, segs: seq<Segment>, prefix: string, depth: nat)
      requires Valid() && segs != [] && depth <= MAX_GLOB_DEPTH
      requires segs[0].Variable? && segs[0].domain == SubkeyDomain && !IsDescent(segs[0])
      modifies this
      ensures Valid() && bindings == old(bindings)
      ensures emitted == Take(old(emitted) + Expansion(graph, key, segs, ControlSets(resolver), prefix, depth,
                old(bindings)), MAX_GLOB_MATCHES)
      decreases Left(depth), |segs| - 1, 1
    {
      var children := graph.subkeys(key);
      if children.Err? {
        NoLevel(graph, key, segs, ControlSets(resolver), prefix, depth, bindings);
        return;
      }
      MatchingLevel(graph, key, segs, ControlSets(resolver), prefix, depth, bindings);
      WalkMatching(children.value, segs[0].pattern, segs[1..], prefix, depth + 1);
    }

    /** A `**`: the rest of the template here, then every child with the `**` kept. */
    method WalkDescent(key: K, segs: seq<Segment>, prefix: string, depth: nat)
      requires Valid() && segs != [] && IsDescent(segs[0]) && depth <= MAX_GLOB_DEPTH
      modifies this
      ensures Valid() && bindings == old(bindings)
      ensures emitted == Take(old(emitted) + Expansion(graph, key, segs, ControlSets(resolver), prefix, depth,
                old(bindings)), MAX_GLOB_MATCHES)
      decreases Left(depth), |segs| - 1, 1
    {
      ghost var sets, stack, start := ControlSets(resolver), bindings, emitted;
      Walk(key, segs[1..], prefix, depth);
      DescentSplits(graph, key, segs, sets, prefix, depth, stack, start);
      var children := graph.subkeys(key);
      if children.Ok? {
        WalkEach(children.value, segs, prefix, depth + 1);
      }
    }

    /** The loop over the children up to the first that a literal names. */
    method WalkLiteral(kids: seq<K>, name: string, segs: seq<Segment>, prefix: string, depth: nat)
      requires Valid()
      modifies this
      ensures Valid() && bindings == old(bindings)
      ensures emitted == Take(old(emitted) + ExpansionEach(graph, FirstNamed(graph, kids, name), None, segs,
                ControlSets(resolver), prefix, depth, old(bindings)), MAX_GLOB_MATCHES)
      decreases Left(depth), |segs|, 2
    {
      for i := 0 to |kids|
        invariant Valid() && bindings == old(bindings) && emitted == old(emitted)
        invariant FirstNamed(graph, kids, name) == FirstNamed(graph, kids[i..], name)
      {
        if SameName(graph.name(kids[i]), name) {
          Single(graph, kids[i], None, segs, ControlSets(resolver), prefix, depth, bindings);
          assert bindings + [] == bindings;
          Walk(kids[i], segs, Child(prefix, graph.name(kids[i])), depth);
          return;
        }
        assert kids[i..][1..] == kids[i + 1..];
      }
    }

    /** One child: push its binding, walk below it, pop. */
    method WalkBound(child: K, kind: Wildcard, segs: seq<Segment>, prefix: string, depth: nat)
      requires Valid()
      modifies this
      ensures Valid() && bindings == old(bindings)
      ensures emitted == Take(old(emitted) + Expansion(graph, child, segs, ControlSets(resolver),
                Child(prefix, graph.name(child)), depth,
                                                       old(bindings) + Bound(graph, Some(kind), child)),
                                                         MAX_GLOB_MATCHES)
      decreases Left(depth), |segs|, 1
    {
      bindings := bindings + [Binding(kind, graph.name(child))];
      Walk(child, segs, Child(prefix, graph.name(child)), depth);
      bindings := bindings[..|bindings| - 1];
    }

    /** The loop over every child, which a `**` segment runs. */
    method WalkEach(kids: seq<K>, segs: seq<Segment>, prefix: string, depth: nat)
      requires Valid()
      modifies this
      ensures Valid() && bindings == old(bindings)
      ensures emitted == Take(old(emitted) + ExpansionEach(graph, kids, Some(SubkeyDomain), segs,
                ControlSets(resolver), prefix, depth, old(bindings)), MAX_GLOB_MATCHES)
      decreases Left(depth), |segs|, 2
    {
      ghost var sets, stack := ControlSets(resolver), bindings;
      ghost var goal := Take(emitted + ExpansionEach(graph, kids, Some(SubkeyDomain), segs, sets, prefix, depth,
          stack), MAX_GLOB_MATCHES);
      for i := 0 to |kids|
        invariant Valid() && bindings == stack
        invariant goal == Take(emitted + ExpansionEach(graph, kids[i..], Some(SubkeyDomain), segs, sets, prefix,
                    depth, stack), MAX_GLOB_MATCHES)
      {
        if matched >= MAX_GLOB_MATCHES {
          return;
        }
        ghost var before := emitted;
        WalkBound(kids[i], SubkeyDomain, segs, prefix, depth);
        PeelKid(graph, kids, i, Some(SubkeyDomain), segs, sets, prefix, depth, stack, before);
      }
      assert emitted + [] == emitted;
    }

    /** The loop over the children whose names match a single-level pattern. */
    method WalkMatching(kids: seq<K>, pattern: string, segs: seq<Segment>, prefix: string, depth: nat)
      requires Valid()
      modifies this
      ensures Valid() && bindings == old(bindings)
      ensures emitted == Take(old(emitted) + ExpansionEach(graph, Matching(graph, kids, pattern), Some(SubkeyDomain),
                segs, ControlSets(resolver), prefix, depth, old(bindings)), MAX_GLOB_MATCHES)
      decreases Left(depth), |segs|, 2
    {
      ghost var sets, stack := ControlSets(resolver), bindings;
      ghost var goal := Take(emitted + ExpansionEach(graph, Matching(graph, kids, pattern), Some(SubkeyDomain), segs,
          sets, prefix, depth, stack), MAX_GLOB_MATCHES);
      for i := 0 to |kids|
        invariant Valid() && bindings == stack
        invariant goal == Take(emitted + ExpansionEach(graph, Matching(graph, kids[i..], pattern), Some(SubkeyDomain),
                    segs, sets, prefix, depth, stack), MAX_GLOB_MATCHES)
      {
        if matched >= MAX_GLOB_MATCHES {
          return;
        }
        assert kids[i..][1..] == kids[i + 1..];
        var hit := MatchSegment(pattern, graph.name(kids[i]));
        if hit {
          ghost var before, chosen := emitted, Matching(graph, kids[i..], pattern);
          WalkBound(kids[i], SubkeyDomain, segs, prefix, depth);
          PeelKid(graph, chosen, 0, Some(SubkeyDomain), segs, sets, prefix, depth, stack, before);
          assert chosen[1..] == Matching(graph, kids[i + 1..], pattern);
        } else {
          assert Matching(graph, kids[i..], pattern) == Matching(graph, kids[i + 1..], pattern);
        }
      }
      assert emitted + [] == emitted;
    }

    /** The loops over control set names and, for each, over the children up to the first of that name. */
    method WalkControlSets(kids: seq<K>, segs: seq<Segment>, prefix: string, depth: nat)
      requires Valid()
      modifies this
      ensures Valid() && bindings == old(bindings)
      ensures emitted == Take(old(emitted) + ExpansionEach(graph, FirstNamedEach(graph, kids, ControlSets(resolver)),
                Some(ControlSetDomain), segs, ControlSets(resolver), prefix, depth, old(bindings)), MAX_GLOB_MATCHES)
      decreases Left(depth), |segs|, 2
    {
      var sets := ControlSets(resolver);
      ghost var stack := bindings;
      ghost var goal := Take(emitted + ExpansionEach(graph, FirstNamedEach(graph, kids, sets), Some(ControlSetDomain),
          segs, sets, prefix, depth, stack), MAX_GLOB_MATCHES);
      for s := 0 to |sets|
        invariant Valid() && bindings == stack
        invariant goal == Take(emitted + ExpansionEach(graph, FirstNamedEach(graph, kids, sets[s..]),
                    Some(ControlSetDomain), segs, sets, prefix, depth, stack), MAX_GLOB_MATCHES)
      {
        if matched >= MAX_GLOB_MATCHES {
          return;
        }
        ghost var before, chosen := emitted, FirstNamedEach(graph, kids, sets[s..]);
        assert sets[s..][1..] == sets[s + 1..];
        ghost var found := false;
        for i := 0 to |kids|
          invariant Valid() && bindings == stack && emitted == before && !found
          invariant FirstNamed(graph, kids, sets[s]) == FirstNamed(graph, kids[i..], sets[s])
        {
          if SameName(graph.name(kids[i]), sets[s]) {
            WalkBound(kids[i], ControlSetDomain, segs, prefix, depth);
            found := true;
            break;
          }
          assert kids[i..][1..] == kids[i + 1..];
        }
        if found {
          PeelKid(graph, chosen, 0, Some(ControlSetDomain), segs, sets, prefix, depth, stack, before);
          assert chosen[1..] == FirstNamedEach(graph, kids, sets[s + 1..]);
        } else {
          assert chosen == FirstNamedEach(graph, kids, sets[s + 1..]);
        }
      }
      assert emitted + [] == emitted;
    }
  }

  lemma Single<K>(g: KeyGraph<K>, kid: K, tag: Option<Wildcard>, segs: seq<Segment>, sets: seq<string>, prefix: string,
                  depth: nat, bindings: seq<Binding>)
    ensures ExpansionEach(g, [kid], tag, segs, sets, prefix, depth, bindings) ==
            Expansion(g, kid, segs, sets, Child(prefix, g.name(kid)), depth, bindings + Bound(g, tag, kid))
  {
  }

  // Every other segment expands to what its choices give one level down.

  lemma NoLevel<K>(g: KeyGraph<K>, key: K, segs: seq<Segment>, sets: seq<string>, prefix: string, depth: nat,
                   bindings: seq<Binding>)
    requires segs != [] && !IsDescent(segs[0]) && g.subkeys(key).Err?
    ensures Expansion(g, key, segs, sets, prefix, depth, bindings) == []
  {
  }

  lemma LiteralLevel<K>(g: KeyGraph<K>, key: K, segs: seq<Segment>, sets: seq<string>, prefix: string, depth: nat,
                        bindings: seq<Binding>)
    requires segs != [] && segs[0].Literal? && g.subkeys(key).Ok? && depth <= MAX_GLOB_DEPTH
    ensures Expansion(g, key, segs, sets, prefix, depth, bindings) ==
            ExpansionEach(g, FirstNamed(g, g.subkeys(key).value, segs[0].name), None, segs[1..], sets, prefix,
                          depth + 1, bindings)
  {
  }

  lemma ControlLevel<K>(g: KeyGraph<K>, key: K, segs: seq<Segment>, sets: seq<string>, prefix: string, depth: nat,
                        bindings: seq<Binding>)
    requires segs != [] && segs[0].Variable? && segs[0].domain == ControlSetDomain && g.subkeys(key).Ok?
    requires depth <= MAX_GLOB_DEPTH
    ensures Expansion(g, key, segs, sets, prefix, depth, bindings) ==
            ExpansionEach(g, FirstNamedEach(g, g.subkeys(key).value, sets), Some(ControlSetDomain), segs[1..], sets,
                          prefix, depth + 1, bindings)
  {
  }

  lemma MatchingLevel<K>(g: KeyGraph<K>, key: K, segs: seq<Segment>, sets: seq<string>, prefix: string, depth: nat,
                         bindings: seq<Binding>)
    requires segs != [] && !IsDescent(segs[0]) && segs[0].Variable? && segs[0].domain == SubkeyDomain
    requires g.subkeys(key).Ok? && depth <= MAX_GLOB_DEPTH
    ensures Expansion(g, key, segs, sets, prefix, depth, bindings) ==
            ExpansionEach(g, Matching(g, g.subkeys(key).value, segs[0].pattern), Some(SubkeyDomain), segs[1..], sets,
                          prefix, depth + 1, bindings)
  {
  }

  /** A `**` expands to what the rest of the template expands to here, then to what each child gives. */
  lemma DescentSplits<K>(g: KeyGraph<K>, key: K, segs: seq<Segment>, sets: seq<string>, prefix: string, depth: nat,
                         bindings: seq<Binding>, before: seq<Emission<K>>)
    requires segs != [] && IsDescent(segs[0]) && depth <= MAX_GLOB_DEPTH
    ensures var here := Expansion(g, key, segs[1..], sets, prefix, depth, bindings);
            var all := Take(before + Expansion(g, key, segs, sets, prefix, depth, bindings), MAX_GLOB_MATCHES);
            match g.subkeys(key)
            case Err(_) => all == Take(before + here, MAX_GLOB_MATCHES)
            case Ok(kids) => all == Take(Take(before + here, MAX_GLOB_MATCHES)
                                         + ExpansionEach(g, kids, Some(SubkeyDomain), segs, sets, prefix, depth + 1,
                                             bindings), MAX_GLOB_MATCHES)
  {
    var here := Expansion(g, key, segs[1..], sets, prefix, depth, bindings);
    var each := ExpansionEach(g, Choices(g, key, segs[0], sets), Some(SubkeyDomain), segs, sets, prefix, depth + 1,
                              bindings);
    assert Expansion(g, key, segs, sets, prefix, depth, bindings) == here + each;
    if g.subkeys(key).Err? {
      assert here + [] == here;
    }
    AppendAssociates(before, here, each);
    TakeAppend(before + here, each, MAX_GLOB_MATCHES);
  }

  /** Truncating after the first child's emissions and again after the rest is truncating once. */
  lemma PeelKid<K>(g: KeyGraph<K>, kids: seq<K>, i: nat, tag: Option<Wildcard>, segs: seq<Segment>, sets: seq<string>,
                   prefix: string, depth: nat, bindings: seq<Binding>, before: seq<Emission<K>>)
    requires i < |kids|
    ensures var first := Expansion(g, kids[i], segs, sets, Child(prefix, g.name(kids[i])), depth,
                                   bindings + Bound(g, tag, kids[i]));
            Take(before + ExpansionEach(g, kids[i..], tag, segs, sets, prefix, depth, bindings), MAX_GLOB_MATCHES) ==
            Take(Take(before + first, MAX_GLOB_MATCHES)
                 + ExpansionEach(g, kids[i + 1..], tag, segs, sets, prefix, depth, bindings), MAX_GLOB_MATCHES)
  {
    var first := Expansion(g, kids[i], segs, sets, Child(prefix, g.name(kids[i])), depth,
                           bindings + Bound(g, tag, kids[i]));
    var rest := ExpansionEach(g, kids[i + 1..], tag, segs, sets, prefix, depth, bindings);
    assert kids[i..][1..] == kids[i + 1..];
    AppendAssociates(before, first, rest);
    TakeAppend(before + first, rest, MAX_GLOB_MATCHES);
  }

  /** Expansion with the match cap: the routes through the template of at most 64 steps, in lexicographic order of the
      positions stepped to, emit until 4096 have. Without a resolver the only control set is the first. */
  method Expand<K(==,!new)>(g: KeyGraph<K>, root: K, segs: seq<Segment>, resolver: Option<seq<string>>)
    returns (emitted: seq<Emission<K>>)
    ensures FirstRoutes(g, root, segs, if resolver.Some? then resolver.value else ["ControlSet001"], emitted)
    ensures emitted == Take(Expansion(g, root, segs, ControlSets(resolver), [], 0, []), MAX_GLOB_MATCHES)
  {
    var w := new Walker<K>(g, resolver);
    w.Walk(root, segs, [], 0);
    emitted := w.emitted;
    assert [] + Expansion(g, root, segs, ControlSets(resolver), [], 0, [])
           == Expansion(g, root, segs, ControlSets(resolver), [], 0, []);
    CappedRoutes(g, root, segs, ControlSets(resolver));
  }
}
