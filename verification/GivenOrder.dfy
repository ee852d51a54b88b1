/** What the tree builder collects, by position in what it was given (`KeyTree::from_paths` in
    `winreg-testutil/src/lib.rs`). */
module GivenOrder {
  import opened Sequences
  import opened Text
  import opened KeyTrees

  // ----- values -----

  /** `vals` are the values given for `p`, in the order in which they are given; `idx` is where. */
  ghost predicate ValuesGiven(values: seq<TestValue>, p: string, idx: seq<nat>, vals: seq<TreeValue>) {
    && Lists(idx, set i: nat | i < |values| && values[i].keyPath == p) && |vals| == |idx|
    && forall k | 0 <= k < |idx| ::
         && idx[k] < |values| && vals[k].name == values[idx[k]].name
         && vals[k].dataType == values[idx[k]].dataType && vals[k].data == values[idx[k]].data
  }

  lemma {:induction false} ValuesAtGiven(values: seq<TestValue>, p: string) returns (idx: seq<nat>)
    ensures ValuesGiven(values, p, idx, ValuesAt(values, p))
  {
    if values == [] {
      idx := [];
    } else {
      var n := |values| - 1;
      var before := ValuesAtGiven(values[..n], p);
      var here := set i: nat | i < n && values[..n][i].keyPath == p;
      assert here == set i: nat | i < n && values[i].keyPath == p;
      if values[n].keyPath == p {
        ListsMore(before, here, n);
        assert here + {n} == set i: nat | i < |values| && values[i].keyPath == p;
        idx := before + [n];
      } else {
        assert here == set i: nat | i < |values| && values[i].keyPath == p;
        idx := before;
      }
    }
  }

  // ----- children -----

  /** `q` is the path of a child of `p` with the name `n`. */
  predicate IsChildOf(q: string, p: string, n: string) {
    '\\' !in n && q == if p == [] then n else p + ['\\'] + n
  }

  ghost predicate LiesUnder(q: string, p: string) {
    exists n :: IsChildOf(q, p, n)
  }

  ghost function PlacesUnder(all: seq<string>, p: string): set<nat> {
    set i: nat | i < |all| && LiesUnder(all[i], p)
  }

  lemma PlacesMore(all: seq<string>, p: string)
    requires all != []
    ensures var n: nat := |all| - 1;
            PlacesUnder(all, p) == PlacesUnder(all[..n], p) + if LiesUnder(all[n], p) then {n} else {}
  {
    var n: nat := |all| - 1;
    forall i: nat ensures i in PlacesUnder(all[..n], p) <==> i < n && i in PlacesUnder(all, p) {
      assert i < n ==> all[..n][i] == all[i];
    }
  }

  /** `names` are the names of the paths in `all` that lie directly below `p`, in the order of `all`. */
  ghost predicate NamesGiven(all: seq<string>, p: string, idx: seq<nat>, names: seq<string>) {
    && Lists(idx, PlacesUnder(all, p)) && |names| == |idx|
    && forall k | 0 <= k < |idx| :: idx[k] < |all| && IsChildOf(all[idx[k]], p, names[k])
  }

  lemma UnderIf(q: string, p: string, n: string)
    requires p != [] && IsChildOf(q, p, n)
    ensures LastSep(q) >= 0 && ParentPath(q) == p && NameOf(q) == n
  {
    SplitAtLastSep(q, p, n);
  }

  lemma UnderOnly(q: string, p: string)
    requires p != [] && LastSep(q) >= 0 && ParentPath(q) == p
    ensures IsChildOf(q, p, NameOf(q))
  {
    SplitAtLastSep(q, p, NameOf(q));
  }

  lemma UnderExact(q: string, p: string)
    requires p != []
    ensures LastSep(q) >= 0 && ParentPath(q) == p ==> IsChildOf(q, p, NameOf(q))
    ensures LastSep(q) >= 0 && ParentPath(q) == p <==> LiesUnder(q, p)
  {
    if LastSep(q) >= 0 && ParentPath(q) == p {
      UnderOnly(q, p);
    }
    if LiesUnder(q, p) {
      var n :| IsChildOf(q, p, n);
      UnderIf(q, p, n);
    }
  }

  lemma TopExact(q: string)
    ensures LastSep(q) < 0 ==> IsChildOf(q, [], q)
    ensures LastSep(q) < 0 <==> LiesUnder(q, [])
  {
    if SEP !in q {
      LastSepOf([], q);
      assert IsChildOf(q, [], q);
    }
    NameHasNoSep(q);
    assert q[0..] == q;
  }

  lemma UnderStep(all: seq<string>, p: string)
    requires all != [] && p != []
    ensures var n := |all| - 1;
            Under(all, p) == if LiesUnder(all[n], p) then Under(all[..n], p) + [NameOf(all[n])] else Under(all[..n], p)
    ensures LiesUnder(all[|all| - 1], p) ==> IsChildOf(all[|all| - 1], p, NameOf(all[|all| - 1]))
  {
    UnderExact(all[|all| - 1], p);
  }

  lemma TopStep(all: seq<string>)
    requires all != []
    ensures var n := |all| - 1;
            TopLevel(all) == if LiesUnder(all[n], []) then TopLevel(all[..n]) + [all[n]] else TopLevel(all[..n])
    ensures LiesUnder(all[|all| - 1], []) ==> IsChildOf(all[|all| - 1], [], all[|all| - 1])
  {
    TopExact(all[|all| - 1]);
  }

  lemma {:induction false} UnderGiven(all: seq<string>, p: string) returns (idx: seq<nat>)
    requires p != []
    ensures NamesGiven(all, p, idx, Under(all, p))
  {
    if all == [] {
      idx := [];
    } else {
      var n := |all| - 1;
      var before := UnderGiven(all[..n], p);
      UnderStep(all, p);
      idx := OneMore(all, p, before, Under(all[..n], p), NameOf(all[n]));
    }
  }

  lemma {:induction false} TopGiven(all: seq<string>) returns (idx: seq<nat>)
    ensures NamesGiven(all, [], idx, TopLevel(all))
  {
    if all == [] {
      idx := [];
    } else {
      var n := |all| - 1;
      var before := TopGiven(all[..n]);
      TopStep(all);
      idx := OneMore(all, [], before, TopLevel(all[..n]), all[n]);
    }
  }

  lemma NamesMore(all: seq<string>, rel: (string, string) -> bool, idx: seq<nat>, names: seq<string>, name: string)
    requires all != [] && |names| == |idx| && rel(all[|all| - 1], name)
    requires forall k | 0 <= k < |idx| :: idx[k] < |all| - 1 && rel(all[..|all| - 1][idx[k]], names[k])
    ensures var more: seq<nat> := idx + [|all| - 1];
            forall k | 0 <= k < |more| :: more[k] < |all| && rel(all[more[k]], (names + [name])[k])
  {
    forall k | 0 <= k < |idx| ensures rel(all[idx[k]], names[k]) {
      assert all[..|all| - 1][idx[k]] == all[idx[k]];
    }
  }

  lemma NamesKept(all: seq<string>, rel: (string, string) -> bool, idx: seq<nat>, names: seq<string>)
    requires all != [] && |names| == |idx|
    requires forall k | 0 <= k < |idx| :: idx[k] < |all| - 1 && rel(all[..|all| - 1][idx[k]], names[k])
    ensures forall k | 0 <= k < |idx| :: idx[k] < |all| && rel(all[idx[k]], names[k])
  {
    forall k | 0 <= k < |idx| ensures rel(all[idx[k]], names[k]) {
      assert all[..|all| - 1][idx[k]] == all[idx[k]];
    }
  }

  /** The last path is added where it lies below `p`. */
  lemma OneMore(all: seq<string>, p: string, before: seq<nat>, names: seq<string>, name: string)
    returns (idx: seq<nat>)
    requires all != [] && NamesGiven(all[..|all| - 1], p, before, names)
    requires LiesUnder(all[|all| - 1], p) ==> IsChildOf(all[|all| - 1], p, name)
    ensures NamesGiven(all, p, idx, if LiesUnder(all[|all| - 1], p) then names + [name] else names)
  {
    var n := |all| - 1;
    var rel := (q: string, m: string) => IsChildOf(q, p, m);
    PlacesMore(all, p);
    idx := before;
    if LiesUnder(all[n], p) {
      ListsMore(before, PlacesUnder(all[..n], p), n);
      NamesMore(all, rel, before, names, name);
      idx := before + [n];
    } else {
      NamesKept(all, rel, before, names);
    }
  }

  /** The child names at a path are those of the collected paths directly below it, in the order of collection. */
  lemma ChildNamesGiven(keys: seq<string>, values: seq<TestValue>, p: string) returns (idx: seq<nat>)
    ensures NamesGiven(AllPaths(keys, values), p, idx, ChildNames(keys, values, p))
  {
    if p == [] {
      idx := TopGiven(AllPaths(keys, values));
    } else {
      idx := UnderGiven(AllPaths(keys, values), p);
    }
  }

  // ----- the order of collection -----

  /** Where a path is mentioned: as the first `parts` components of the given path number `path`. */
  datatype Mention = Mention(path: nat, parts: nat) {
    predicate Before(m: Mention) {
      path < m.path || (path == m.path && parts < m.parts)
    }

    ghost predicate Of(given: seq<string>, p: string) {
      path < |given| && 0 < parts <= |Split(given[path])| && p == Join(Split(given[path])[..parts])
    }

    /** No earlier mention is of the same path. */
    ghost predicate FirstOf(given: seq<string>, p: string) {
      Of(given, p) && forall m: Mention | m.Before(this) :: !m.Of(given, p)
    }
  }

  /** `all` holds what is mentioned before `end`, in the order of first mention. */
  ghost predicate Collected(given: seq<string>, all: seq<string>, firsts: seq<Mention>, end: Mention) {
    && |firsts| == |all|
    && (forall i | 0 <= i < |all| :: firsts[i].FirstOf(given, all[i]) && firsts[i].Before(end))
    && (forall i, j | 0 <= i < j < |all| :: firsts[i].Before(firsts[j]))
    && (forall m: Mention, p | m.Before(end) && m.Of(given, p) :: p in all)
  }

  lemma NextPrefix(given: seq<string>, all: seq<string>, firsts: seq<Mention>, a: nat, k: nat)
    returns (more: seq<Mention>)
    requires a < |given| && 0 < k <= |Split(given[a])| && Collected(given, all, firsts, Mention(a, k))
    ensures Collected(given, AddNew(all, Join(Split(given[a])[..k])), more, Mention(a, k + 1))
  {
    var here, p := Mention(a, k), Join(Split(given[a])[..k]);
    more := if p in all then firsts else firsts + [here];
    assert here.Of(given, p);
    forall m: Mention, q | m.Before(Mention(a, k + 1)) && m.Of(given, q) ensures q in AddNew(all, p) {
      if !m.Before(here) {
        assert m == here && q == p;
      }
    }
  }

  lemma {:induction false} PrefixesCollected(given: seq<string>, all: seq<string>, firsts: seq<Mention>, a: nat, k: nat)
    returns (more: seq<Mention>)
    requires a < |given| && k <= |Split(given[a])| && Collected(given, all, firsts, Mention(a, 1))
    ensures Collected(given, AddPrefixes(all, Split(given[a]), k), more, Mention(a, k + 1))
  {
    if k == 0 {
      more := firsts;
    } else {
      more := PrefixesCollected(given, all, firsts, a, k - 1);
      more := NextPrefix(given, AddPrefixes(all, Split(given[a]), k - 1), more, a, k);
    }
  }

  lemma PathDone(given: seq<string>, all: seq<string>, firsts: seq<Mention>, a: nat)
    requires a < |given| && Collected(given, all, firsts, Mention(a, |Split(given[a])| + 1))
    ensures Collected(given, all, firsts, Mention(a + 1, 1))
  {
    forall m: Mention, p | m.Before(Mention(a + 1, 1)) && m.Of(given, p) ensures p in all {
      assert m.Before(Mention(a, |Split(given[a])| + 1));
    }
  }

  lemma {:induction false} PathsCollected(given: seq<string>, all: seq<string>, firsts: seq<Mention>, a: nat,
                                          paths: seq<string>)
    returns (more: seq<Mention>)
    requires a + |paths| <= |given| && (forall i | 0 <= i < |paths| :: paths[i] == given[a + i])
    requires Collected(given, all, firsts, Mention(a, 1))
    ensures Collected(given, AddPaths(all, paths), more, Mention(a + |paths|, 1))
  {
    if paths == [] {
      more := firsts;
    } else {
      var n := |paths| - 1;
      more := PathsCollected(given, all, firsts, a, paths[..n]);
      more := PathCollected(given, AddPaths(all, paths[..n]), more, a + n);
    }
  }

  lemma PathCollected(given: seq<string>, all: seq<string>, firsts: seq<Mention>, a: nat) returns (more: seq<Mention>)
    requires a < |given| && Collected(given, all, firsts, Mention(a, 1))
    ensures Collected(given, AddPrefixes(all, Split(given[a]), |Split(given[a])|), more, Mention(a + 1, 1))
  {
    more := PrefixesCollected(given, all, firsts, a, |Split(given[a])|);
    PathDone(given, AddPrefixes(all, Split(given[a]), |Split(given[a])|), more, a);
  }

  /** The paths as they are given: those of the keys, then those of the values. */
  ghost predicate IsGiven(given: seq<string>, keys: seq<string>, values: seq<TestValue>) {
    && |given| == |keys| + |values| && (forall i | 0 <= i < |keys| :: given[i] == keys[i])
    && forall i | 0 <= i < |values| :: given[|keys| + i] == values[i].keyPath
  }

  lemma GivenPaths(keys: seq<string>, values: seq<TestValue>) returns (given: seq<string>)
    ensures IsGiven(given, keys, values)
    ensures forall i | 0 <= i < |keys| :: keys[i] == given[0 + i]
    ensures |KeyPaths(values)| == |values| && forall i | 0 <= i < |values| :: KeyPaths(values)[i] == given[|keys| + i]
  {
    given := keys + KeyPaths(values);
  }

  lemma NothingCollected(given: seq<string>)
    ensures Collected(given, [], [], Mention(0, 1))
  {
  }

  lemma BothCollected(given: seq<string>, keys: seq<string>, rest: seq<string>) returns (firsts: seq<Mention>)
    requires |given| == |keys| + |rest| && (forall i | 0 <= i < |keys| :: keys[i] == given[0 + i])
    requires forall i | 0 <= i < |rest| :: rest[i] == given[|keys| + i]
    ensures Collected(given, AddPaths(AddPaths([], keys), rest), firsts, Mention(|given|, 1))
  {
    NothingCollected(given);
    firsts := PathsCollected(given, [], [], 0, keys);
    firsts := PathsCollected(given, AddPaths([], keys), firsts, |keys|, rest);
  }

  /** Every path is collected that is mentioned, in the order of first mention. */
  lemma AllPathsInOrder(keys: seq<string>, values: seq<TestValue>) returns (given: seq<string>, firsts: seq<Mention>)
    ensures IsGiven(given, keys, values)
    ensures Collected(given, AllPaths(keys, values), firsts, Mention(|given|, 1))
  {
    given := GivenPaths(keys, values);
    firsts := BothCollected(given, keys, KeyPaths(values));
  }
}
