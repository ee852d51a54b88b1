/** The templates of path expansion and what they expand to, uncapped (`winreg-artifacts/src/path_expansion.rs`). */
module Templates {
  import opened Wrappers
  import opened Text
  import opened KeyGraphs
  import opened Glob

  const MAX_GLOB_DEPTH: nat := 64
  const MAX_GLOB_MATCHES: nat := 4096

  datatype Wildcard = SubkeyDomain | ControlSetDomain | UserDomain

  datatype Binding = Binding(kind: Wildcard, value: string)

  datatype Segment = Literal(name: string) | Variable(domain: Wildcard, pattern: string)

  /** One call of the caller's `emit`. */
  datatype Emission<K> = Emission(bindings: seq<Binding>, path: string, key: K)

  /** `str::contains("**")`. */
  predicate ContainsDoubleStar(p: string) {
    exists i | 0 <= i < |p| - 1 :: p[i] == '*' && p[i + 1] == '*'
  }

  predicate IsDescent(seg: Segment) {
    seg.Variable? && seg.domain == SubkeyDomain && ContainsDoubleStar(seg.pattern)
  }

  /** The domain a step through `seg` is recorded under; literals are not recorded. */
  function Tag(seg: Segment): Option<Wildcard> {
    match seg
    case Literal(_) => None
    case Variable(domain, _) => Some(domain)
  }

  function Bound<K>(g: KeyGraph<K>, tag: Option<Wildcard>, child: K): seq<Binding> {
    match tag
    case None => []
    case Some(kind) => [Binding(kind, g.name(child))]
  }

  /** The names `CurrentControlSet` stands for. */
  function ControlSets(resolver: Option<seq<string>>): seq<string> {
    match resolver
    case Some(sets) => sets
    case None => ["ControlSet001"]
  }

  // ----- which children a segment chooses, in order -----

  function FirstNamed<K>(g: KeyGraph<K>, kids: seq<K>, name: string): seq<K> {
    if kids == [] then []
    else if SameName(g.name(kids[0]), name) then [kids[0]]
    else FirstNamed(g, kids[1..], name)
  }

  function FirstNamedEach<K>(g: KeyGraph<K>, kids: seq<K>, sets: seq<string>): seq<K> {
    if sets == [] then []
    else FirstNamed(g, kids, sets[0]) + FirstNamedEach(g, kids, sets[1..])
  }

  function Matching<K>(g: KeyGraph<K>, kids: seq<K>, pattern: string): seq<K> {
    if kids == [] then []
    else (if SegmentMatches(pattern, g.name(kids[0])) then [kids[0]] else []) + Matching(g, kids[1..], pattern)
  }

  function Choices<K>(g: KeyGraph<K>, key: K, seg: Segment, sets: seq<string>): seq<K> {
    match g.subkeys(key)
    case Err(_) => []
    case Ok(kids) =>
      match seg
      case Literal(name) => FirstNamed(g, kids, name)
      case Variable(ControlSetDomain, _) => FirstNamedEach(g, kids, sets)
      case Variable(SubkeyDomain, pattern) => if ContainsDoubleStar(pattern) then kids else Matching(g, kids, pattern)
      case Variable(UserDomain, _) => []
  }

  /** The segments left once a step through the first one is taken: `**` stays. */
  function AfterStep(segs: seq<Segment>): seq<Segment>
    requires segs != []
  {
    if IsDescent(segs[0]) then segs else segs[1..]
  }

  // ----- the expansion without a match cap -----

  function Left(depth: nat): nat {
    if depth > MAX_GLOB_DEPTH then 0 else MAX_GLOB_DEPTH + 1 - depth
  }

  function Expansion<K>(g: KeyGraph<K>, key: K, segs: seq<Segment>, sets: seq<string>, prefix: string, depth: nat,
                        bindings: seq<Binding>): seq<Emission<K>>
    decreases Left(depth), |segs|, 0
  {
    if depth > MAX_GLOB_DEPTH then []
    else if segs == [] then [Emission(bindings, prefix, key)]
    else
      (if IsDescent(segs[0]) then Expansion(g, key, segs[1..], sets, prefix, depth, bindings) else [])
      + ExpansionEach(g, Choices(g, key, segs[0], sets), Tag(segs[0]), AfterStep(segs), sets, prefix, depth + 1,
                      bindings)
  }

  function ExpansionEach<K>(g: KeyGraph<K>, kids: seq<K>, tag: Option<Wildcard>, segs: seq<Segment>, sets: seq<string>,
                            prefix: string, depth: nat, bindings: seq<Binding>): seq<Emission<K>>
    decreases Left(depth), |segs|, |kids| + 1
  {
    if kids == [] then []
    else
      Expansion(g, kids[0], segs, sets, Child(prefix, g.name(kids[0])), depth, bindings + Bound(g, tag, kids[0]))
      + ExpansionEach(g, kids[1..], tag, segs, sets, prefix, depth, bindings)
  }
}
