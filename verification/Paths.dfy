/** Path reconstruction through parent links (`winreg-core/src/path.rs`) and its inverse, opening. */
module Paths {
  import opened Wrappers
  import opened Sequences
  import opened Text
  import opened KeyGraphs

  const MAX_PARENT_STEPS: nat := 512

  /** Names met walking up from `key`, nearest first: stops at the root, where a link leads to no key,
      or after `steps` links. */
  function Ancestors<K>(g: KeyGraph<K>, key: K, steps: nat): Result<seq<string>>
    decreases steps
  {
    if steps == 0 then Ok([])
    else
      var parent :- g.parent(key);
      match parent
      case None => Ok([])
      case Some(p) =>
        if g.isRoot(p) then Ok([])
        else
          var up :- Ancestors(g, p, steps - 1);
          Ok([g.name(p)] + up)
  }

  function Path<K>(g: KeyGraph<K>, key: K): Result<string> {
    var up :- Ancestors(g, key, MAX_PARENT_STEPS);
    Ok(Join(Reverse([g.name(key)] + up)))
  }

  // ----- what the walk up meets, on any graph -----

  /** The keys that parent links lead to, none of them a hive entry; `up` is nearest first. */
  ghost predicate Climbed<K>(g: KeyGraph<K>, key: K, up: seq<K>) {
    (up != [] ==> IsParent(g, key, up[0])) && forall i | 0 < i < |up| :: IsParent(g, up[i - 1], up[i])
  }

  ghost predicate IsParent<K>(g: KeyGraph<K>, key: K, parent: K) {
    g.parent(key) == Ok(Some(parent)) && !g.isRoot(parent)
  }

  ghost function Top<K>(key: K, up: seq<K>): K { if up == [] then key else up[|up| - 1] }

  /** The walk goes no further: after `most` links, without a parent key, at a hive entry, or at an error. */
  ghost predicate ClimbEnds<K>(g: KeyGraph<K>, key: K, up: seq<K>, most: nat, error: Option<HiveError>) {
    if |up| == most then error == None
    else
      && |up| < most
      && match g.parent(Top(key, up))
         case Err(e) => error == Some(e)
         case Ok(None) => error == None
         case Ok(Some(p)) => g.isRoot(p) && error == None
  }

  lemma ClimbFirst<K>(g: KeyGraph<K>, key: K, parent: K, up: seq<K>, most: nat, error: Option<HiveError>)
    requires IsParent(g, key, parent) && Climbed(g, parent, up) && ClimbEnds(g, parent, up, most, error)
    ensures Climbed(g, key, [parent] + up) && ClimbEnds(g, key, [parent] + up, most + 1, error)
  {
    var all := [parent] + up;
    assert Top(key, all) == Top(parent, up);
    forall i | 0 < i < |all| ensures IsParent(g, all[i - 1], all[i]) {
      if i > 1 {
        assert all[i - 1] == up[i - 2] && all[i] == up[i - 1];
      }
    }
  }

  lemma {:induction false} AncestorsExact<K>(g: KeyGraph<K>, key: K, steps: nat)
    returns (up: seq<K>, error: Option<HiveError>)
    ensures Climbed(g, key, up) && ClimbEnds(g, key, up, steps, error)
    ensures match error
            case Some(e) => Ancestors(g, key, steps) == Err(e)
            case None =>
              && Ancestors(g, key, steps).Ok? && |Ancestors(g, key, steps).value| == |up|
              && forall i | 0 <= i < |up| :: Ancestors(g, key, steps).value[i] == g.name(up[i])
    decreases steps
  {
    up, error := [], None;
    if steps > 0 {
      match g.parent(key) {
        case Err(e) => error := Some(e);
        case Ok(None) =>
        case Ok(Some(p)) =>
          if !g.isRoot(p) {
            var above;
            above, error := AncestorsExact(g, p, steps - 1);
            ClimbFirst(g, key, p, above, steps - 1, error);
            up := [p] + above;
          }
      }
    }
  }

  /** The names of the key and of those above it, highest first. */
  ghost predicate NamesDown<K>(g: KeyGraph<K>, key: K, up: seq<K>, names: seq<string>) {
    && |names| == |up| + 1 && names[|up|] == g.name(key)
    && forall i | 0 <= i < |up| :: names[i] == g.name(up[|up| - 1 - i])
  }

  /** The path has these names: the key's own and those met within 512 links. */
  ghost predicate IsPath<K(!new)>(g: KeyGraph<K>, key: K, r: Result<string>) {
    exists up: seq<K>, error: Option<HiveError> ::
      && Climbed(g, key, up) && ClimbEnds(g, key, up, 512, error)
      && if error.Some? then r == Err(error.value)
         else r.Ok? && exists names :: NamesDown(g, key, up, names) && r.value == Join(names)
  }

  lemma PathExact<K(!new)>(g: KeyGraph<K>, key: K)
    ensures IsPath(g, key, Path(g, key))
  {
    var up, error := AncestorsExact(g, key, 512);
    if error.None? {
      var names := Reverse([g.name(key)] + Ancestors(g, key, 512).value);
      assert NamesDown(g, key, up, names);
    }
  }

  method ReconstructPath<K(!new)>(g: KeyGraph<K>, key: K) returns (r: Result<string>)
    ensures r == Path(g, key) && IsPath(g, key, r)
  {
    PathExact(g, key);
    var parts := [g.name(key)];
    var current := key;
    for i := 0 to MAX_PARENT_STEPS
      invariant match Ancestors(g, key, MAX_PARENT_STEPS)
                case Err(e) => Ancestors(g, current, MAX_PARENT_STEPS - i) == Err(e)
                case Ok(up) =>
                  && Ancestors(g, current, MAX_PARENT_STEPS - i).Ok?
                  && [g.name(key)] + up == parts + Ancestors(g, current, MAX_PARENT_STEPS - i).value
    {
      var parent :- g.parent(current);
      if parent.None? || g.isRoot(parent.value) {
        break;
      }
      parts := parts + [g.name(parent.value)];
      current := parent.value;
    }
    assert parts + [] == parts;
    r := Ok(Join(Reverse(parts)));
  }

  // ----- hives whose parent links agree with their subkey lists -----

  ghost predicate Listed<K>(g: KeyGraph<K>, parent: K, child: K) {
    g.subkeys(parent).Ok? && child in g.subkeys(parent).value
  }

  /** A key whose parent link points back to the key that lists it, that is no hive entry, and whose name is a path
      component. */
  ghost predicate LinkedBack<K>(g: KeyGraph<K>, parent: K, child: K) {
    g.parent(child) == Ok(Some(parent)) && !g.isRoot(child) && SEP !in g.name(child)
  }

  /** `keys` holds the root and every key below it, and each of those is linked back. */
  ghost predicate WellLinked<K(!new)>(g: KeyGraph<K>, root: K, keys: set<K>) {
    && root in keys && g.isRoot(root)
    && forall k, c | k in keys && Listed(g, k, c) :: c in keys && LinkedBack(g, k, c)
  }

  /** `ks` runs from the root down, each key listed among the subkeys of the one before. */
  ghost predicate Reached<K>(g: KeyGraph<K>, root: K, ks: seq<K>) {
    && |ks| > 0 && ks[0] == root
    && forall i | 0 < i < |ks| :: Listed(g, ks[i - 1], ks[i])
  }

  lemma {:induction false} ReachedInside<K(!new)>(g: KeyGraph<K>, root: K, keys: set<K>, ks: seq<K>, i: nat)
    requires WellLinked(g, root, keys) && Reached(g, root, ks) && i < |ks|
    ensures ks[i] in keys
    ensures i > 0 ==> LinkedBack(g, ks[i - 1], ks[i])
  {
    if i > 0 {
      ReachedInside(g, root, keys, ks, i - 1);
      assert Listed(g, ks[i - 1], ks[i]);
    }
  }

  /** The names of `ks[from..to]`. */
  function NamesOf<K>(g: KeyGraph<K>, ks: seq<K>, from: nat, to: nat): (r: seq<string>)
    requires from <= to <= |ks|
    ensures |r| == to - from
    ensures forall i | 0 <= i < to - from :: r[i] == g.name(ks[from + i])
  {
    seq(to - from, i requires 0 <= i < to - from => g.name(ks[from + i]))
  }

  /** The lowest index whose name a walk of `steps` links up from the key at depth `i` meets. */
  function LowestMet(i: nat, steps: nat): nat
    requires 0 < i
  {
    if i - 1 <= steps then 1 else i - steps
  }

  lemma ReverseLast<K>(g: KeyGraph<K>, ks: seq<K>, lo: nat, i: nat)
    requires lo < i <= |ks|
    ensures Reverse(NamesOf(g, ks, lo, i)) == [g.name(ks[i - 1])] + Reverse(NamesOf(g, ks, lo, i - 1))
    ensures Reverse([g.name(ks[i - 1])] + Reverse(NamesOf(g, ks, lo, i - 1))) == NamesOf(g, ks, lo, i)
  {
  }

  /** Walking up from the key at depth `i` meets the keys above it, nearest first. */
  lemma {:induction false} AncestorsOfChain<K(!new)>(g: KeyGraph<K>, root: K, keys: set<K>, ks: seq<K>, i: nat,
                                              steps: nat)
    requires WellLinked(g, root, keys) && Reached(g, root, ks) && 0 < i < |ks|
    ensures Ancestors(g, ks[i], steps) == Ok(Reverse(NamesOf(g, ks, LowestMet(i, steps), i)))
    decreases steps
  {
    ReachedInside(g, root, keys, ks, i);
    if steps == 0 {
      assert Reverse(NamesOf(g, ks, i, i)) == [];
    } else if i == 1 {
      assert Reverse(NamesOf(g, ks, 1, 1)) == [];
    } else {
      ReachedInside(g, root, keys, ks, i - 1);
      AncestorsOfChain(g, root, keys, ks, i - 1, steps - 1);
      ReverseLast(g, ks, LowestMet(i, steps), i);
    }
  }

  /** The reconstructed path holds the last 513 names of the chain, or all of them. */
  lemma PathOfChain<K(!new)>(g: KeyGraph<K>, root: K, keys: set<K>, ks: seq<K>)
    requires WellLinked(g, root, keys) && Reached(g, root, ks) && |ks| >= 2
    ensures Path(g, ks[|ks| - 1]) == Ok(Join(NamesOf(g, ks, LowestMet(|ks| - 1, MAX_PARENT_STEPS), |ks|)))
  {
    var n := |ks|;
    AncestorsOfChain(g, root, keys, ks, n - 1, MAX_PARENT_STEPS);
    ReverseLast(g, ks, LowestMet(n - 1, MAX_PARENT_STEPS), n);
  }

  // ----- opening -----

  /** A key that a lookup of its own name finds: the name is not empty, and no sibling listed before it has that
      name up to case. */
  ghost predicate FoundByName<K>(g: KeyGraph<K>, parent: K, child: K) {
    g.name(child) != [] && FindKey(g, g.subkeys(parent).GetOr([]), g.name(child)) == Some(child)
  }

  ghost predicate Findable<K>(g: KeyGraph<K>, ks: seq<K>) {
    forall i | 0 < i < |ks| :: FoundByName(g, ks[i - 1], ks[i])
  }

  ghost predicate SiblingsDistinct<K>(g: KeyGraph<K>, keys: seq<K>) {
    forall i, j | 0 <= i < j < |keys| :: Upper(g.name(keys[i])) != Upper(g.name(keys[j]))
  }

  lemma {:induction false} FindDistinct<K>(g: KeyGraph<K>, keys: seq<K>, k: K)
    requires k in keys && SiblingsDistinct(g, keys)
    ensures FindKey(g, keys, g.name(k)) == Some(k)
  {
    if keys[0] != k {
      var i :| 0 < i < |keys| && keys[i] == k;
      FindDistinct(g, keys[1..], k);
    }
  }

  /** A key with a name, among siblings whose names differ by more than case. */
  ghost predicate Distinctive<K>(g: KeyGraph<K>, parent: K, child: K) {
    g.name(child) != [] && SiblingsDistinct(g, g.subkeys(parent).GetOr([]))
  }

  lemma DistinctFindable<K>(g: KeyGraph<K>, root: K, ks: seq<K>)
    requires Reached(g, root, ks) && forall i | 0 < i < |ks| :: Distinctive(g, ks[i - 1], ks[i])
    ensures Findable(g, ks)
  {
    forall i | 0 < i < |ks| ensures FoundByName(g, ks[i - 1], ks[i]) {
      assert Listed(g, ks[i - 1], ks[i]) && Distinctive(g, ks[i - 1], ks[i]);
      FindDistinct(g, g.subkeys(ks[i - 1]).value, ks[i]);
    }
  }

  lemma {:induction false} FindListed<K>(g: KeyGraph<K>, keys: seq<K>, name: string)
    requires FindKey(g, keys, name).Some?
    ensures FindKey(g, keys, name).value in keys
  {
    if Upper(g.name(keys[0])) != Upper(name) {
      FindListed(g, keys[1..], name);
    }
  }

  lemma {:induction false} DescendChain<K>(g: KeyGraph<K>, root: K, ks: seq<K>, i: nat)
    requires Reached(g, root, ks) && Findable(g, ks) && i < |ks|
    ensures Descend(g, ks[i], NamesOf(g, ks, i + 1, |ks|)) == Ok(Some(ks[|ks| - 1]))
    decreases |ks| - i
  {
    if i + 1 < |ks| {
      assert Listed(g, ks[i], ks[i + 1]) && FoundByName(g, ks[i], ks[i + 1]);
      DescendChain(g, root, ks, i + 1);
      assert NamesOf(g, ks, i + 1, |ks|)[1..] == NamesOf(g, ks, i + 2, |ks|);
    }
  }

  /** The keys that descending from `ks` by `parts` comes to, one step per component. */
  ghost predicate StepsFound<K>(g: KeyGraph<K>, ks: seq<K>, parts: seq<string>, js: seq<K>) {
    && ks != [] && |js| == |ks| + |parts| && js[..|ks|] == ks
    && forall i | 0 <= i < |parts| :: FindKey(g, g.subkeys(js[|ks| - 1 + i]).GetOr([]), parts[i]) == Some(js[|ks| + i])
  }

  lemma StepFoundFirst<K>(g: KeyGraph<K>, ks: seq<K>, parts: seq<string>, next: K, js: seq<K>)
    requires ks != [] && parts != [] && FindKey(g, g.subkeys(ks[|ks| - 1]).GetOr([]), parts[0]) == Some(next)
    requires StepsFound(g, ks + [next], parts[1..], js)
    ensures StepsFound(g, ks, parts, js)
  {
    assert js[..|ks|] == js[..|ks| + 1][..|ks|] == ks;
    assert js[|ks|] == js[..|ks| + 1][|ks|] == next;
    forall i | 0 <= i < |parts|
      ensures FindKey(g, g.subkeys(js[|ks| - 1 + i]).GetOr([]), parts[i]) == Some(js[|ks| + i])
    {
      if i > 0 {
        assert parts[1..][i - 1] == parts[i];
      } else {
        assert js[|ks| - 1] == js[..|ks|][|ks| - 1];
      }
    }
  }

  /** A key that descending finds is reached by one more step per component. */
  lemma {:induction false} DescendReached<K>(g: KeyGraph<K>, root: K, ks: seq<K>, parts: seq<string>)
    returns (js: seq<K>)
    requires Reached(g, root, ks)
    requires Descend(g, ks[|ks| - 1], parts).Ok? && Descend(g, ks[|ks| - 1], parts).value.Some?
    ensures Reached(g, root, js) && StepsFound(g, ks, parts, js)
    ensures js[|js| - 1] == Descend(g, ks[|ks| - 1], parts).value.value
    decreases |parts|
  {
    if parts == [] {
      js := ks;
    } else {
      var kids := g.subkeys(ks[|ks| - 1]).value;
      FindListed(g, kids, parts[0]);
      var next := FindKey(g, kids, parts[0]).value;
      js := DescendReached(g, root, ks + [next], parts[1..]);
      StepFoundFirst(g, ks, parts, next, js);
    }
  }

  /** A key is reached in one way only. */
  lemma {:induction false} OneChain<K(!new)>(g: KeyGraph<K>, root: K, keys: set<K>, ks: seq<K>, js: seq<K>)
    requires WellLinked(g, root, keys) && Reached(g, root, ks) && Reached(g, root, js)
    requires ks[|ks| - 1] == js[|js| - 1]
    ensures ks == js
    decreases |ks|
  {
    var n, m := |ks|, |js|;
    ReachedInside(g, root, keys, ks, n - 1);
    ReachedInside(g, root, keys, js, m - 1);
    if n > 1 && m > 1 {
      OneChain(g, root, keys, ks[..n - 1], js[..m - 1]);
      assert ks == ks[..n - 1] + [ks[n - 1]] && js == js[..m - 1] + [js[m - 1]];
    }
  }

  /** Empty components are passed over: what is left is shorter exactly if there are any. */
  lemma {:induction false} NonEmptyShorter(parts: seq<string>)
    ensures |NonEmpty(parts)| <= |parts|
    ensures |NonEmpty(parts)| == |parts| <==> [] !in parts
    ensures [] !in parts ==> NonEmpty(parts) == parts
  {
    if parts != [] {
      NonEmptyShorter(parts[1..]);
      assert [] in parts <==> parts[0] == [] || [] in parts[1..];
    }
  }

  lemma ChainSplits<K(!new)>(g: KeyGraph<K>, root: K, keys: set<K>, ks: seq<K>, from: nat)
    requires WellLinked(g, root, keys) && Reached(g, root, ks) && 0 < from < |ks|
    ensures Split(Join(NamesOf(g, ks, from, |ks|))) == NamesOf(g, ks, from, |ks|)
  {
    var names := NamesOf(g, ks, from, |ks|);
    forall i | 0 <= i < |names| ensures SEP !in names[i] {
      ReachedInside(g, root, keys, ks, from + i);
    }
    SplitJoin(names);
  }

  /** The reconstructed path is that of the whole chain exactly when the chain has at most 513 names. */
  lemma PathIsWhole<K(!new)>(g: KeyGraph<K>, root: K, keys: set<K>, ks: seq<K>)
    requires WellLinked(g, root, keys) && Reached(g, root, ks) && |ks| >= 2
    ensures Path(g, ks[|ks| - 1]) == Ok(Join(NamesOf(g, ks, 1, |ks|))) <==> |ks| - 1 <= 513
  {
    PathOfChain(g, root, keys, ks);
    ChainSplits(g, root, keys, ks, 1);
    ChainSplits(g, root, keys, ks, LowestMet(|ks| - 1, MAX_PARENT_STEPS));
  }

  /** What descending by the names of a chain shows about them when it ends where the chain does. */
  lemma DescendedFindable<K(!new)>(g: KeyGraph<K>, root: K, keys: set<K>, ks: seq<K>, from: nat)
    requires WellLinked(g, root, keys) && Reached(g, root, ks) && 0 < from < |ks|
    requires Descend(g, root, NonEmpty(NamesOf(g, ks, from, |ks|))) == Ok(Some(ks[|ks| - 1]))
    ensures from == 1 && Findable(g, ks)
  {
    var names := NamesOf(g, ks, from, |ks|);
    NonEmptyShorter(names);
    var js := DescendReached(g, root, [root], NonEmpty(names));
    OneChain(g, root, keys, ks, js);
    forall i | 0 < i < |ks| ensures FoundByName(g, ks[i - 1], ks[i]) {
      assert names[i - 1] == g.name(ks[i]) && names[i - 1] in names;
      assert FindKey(g, g.subkeys(js[i - 1]).GetOr([]), names[i - 1]) == Some(js[i]);
    }
  }

  /** Opening the last names of a key's chain returns that key exactly when these are all its names and each is
      found by its name. */
  lemma OpensChain<K(!new)>(g: KeyGraph<K>, root: K, keys: set<K>, ks: seq<K>, from: nat)
    requires WellLinked(g, root, keys) && Reached(g, root, ks) && 0 < from < |ks|
    ensures SubkeyPath(g, root, Join(NamesOf(g, ks, from, |ks|))) == Ok(Some(ks[|ks| - 1])) <==>
            from == 1 && Findable(g, ks)
  {
    var names := NamesOf(g, ks, from, |ks|);
    ChainSplits(g, root, keys, ks, from);
    NonEmptyShorter(names);
    if from == 1 && Findable(g, ks) {
      forall n | n in names ensures n != [] {
        var i :| 0 <= i < |names| && names[i] == n;
        assert FoundByName(g, ks[i], ks[i + 1]);
      }
      DescendChain(g, root, ks, 0);
    } else if NonEmpty(names) != [] && Descend(g, root, NonEmpty(names)) == Ok(Some(ks[|ks| - 1])) {
      DescendedFindable(g, root, keys, ks, from);
    }
  }

  /** Opening a key's reconstructed path returns that key exactly when the key lies at most 513 levels below the
      root and each key on the way is found by its name: not empty, and not that of a sibling listed before it. Deeper
      down the walk up gives out before it reaches the top. */
  lemma OpenInvertsPath<K(!new)>(g: KeyGraph<K>, root: K, keys: set<K>, ks: seq<K>)
    requires WellLinked(g, root, keys) && Reached(g, root, ks) && |ks| >= 2
    ensures var last := ks[|ks| - 1];
            && Path(g, last).Ok?
            && (SubkeyPath(g, root, Path(g, last).value) == Ok(Some(last)) <==>
                |ks| - 1 <= 513 && Findable(g, ks))
  {
    PathOfChain(g, root, keys, ks);
    OpensChain(g, root, keys, ks, LowestMet(|ks| - 1, MAX_PARENT_STEPS));
  }
}
