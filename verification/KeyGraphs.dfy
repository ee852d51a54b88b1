/** Keys as navigation sees them, whatever the backend (`Key<'h, R: CellReader>` in
    `winreg-core/src/key.rs`): a graph that may contain cycles, with reads that may fail. */
module KeyGraphs {
  import opened Wrappers
  import opened Bytes
  import opened Sequences
  import opened Text
  import opened Cells

  /** A value as its readers see it: reading the data may fail even when the value itself was read. */
  datatype ValueData = ValueData(name: string, dataType: ValueType, raw: Result<Buf>)

  /** `parent` is the key that the parent link leads to, if it leads to a key at all. */
  datatype KeyGraph<!K(==)> = KeyGraph(
    name: K -> string,
    isRoot: K -> bool,
    parent: K -> Result<Option<K>>,
    subkeys: K -> Result<seq<K>>,
    values: K -> Result<seq<ValueData>>)

  // ----- lookup by name and by path -----

  /** The first key whose name equals `name` up to ASCII case. */
  function FindKey<K>(g: KeyGraph<K>, keys: seq<K>, name: string): Option<K> {
    if keys == [] then None
    else if Upper(g.name(keys[0])) == Upper(name) then Some(keys[0])
    else FindKey(g, keys[1..], name)
  }

  /** `keys[i]` is the first key of that name, up to case. */
  ghost predicate FirstAt<K>(g: KeyGraph<K>, keys: seq<K>, name: string, i: nat) {
    i < |keys| && EqualFold(g.name(keys[i]), name) && forall j | 0 <= j < i :: !EqualFold(g.name(keys[j]), name)
  }

  lemma OneFirst<K>(g: KeyGraph<K>, keys: seq<K>, name: string, i: nat, j: nat)
    requires FirstAt(g, keys, name, i) && FirstAt(g, keys, name, j)
    ensures i == j
  {
  }

  lemma FirstLater<K>(g: KeyGraph<K>, keys: seq<K>, name: string, i: nat)
    requires keys != [] && !EqualFold(g.name(keys[0]), name)
    ensures FirstAt(g, keys[1..], name, i) <==> FirstAt(g, keys, name, i + 1)
  {
    if FirstAt(g, keys[1..], name, i) {
      forall j | 0 <= j < i + 1 ensures !EqualFold(g.name(keys[j]), name) {
        assert j > 0 ==> keys[j] == keys[1..][j - 1];
      }
    }
    if FirstAt(g, keys, name, i + 1) {
      forall j | 0 <= j < i ensures !EqualFold(g.name(keys[1..][j]), name) {
        assert keys[1..][j] == keys[j + 1];
      }
    }
  }

  /** The lookup finds the first key of a name, if there is one. */
  lemma {:induction false} FindExact<K>(g: KeyGraph<K>, keys: seq<K>, name: string) returns (at: Option<nat>)
    ensures match at
            case None => FindKey(g, keys, name) == None && forall i: nat :: !FirstAt(g, keys, name, i)
            case Some(i) => FirstAt(g, keys, name, i) && FindKey(g, keys, name) == Some(keys[i])
  {
    at := None;
    if keys != [] {
      FoldedEqual(g.name(keys[0]), name);
      if EqualFold(g.name(keys[0]), name) {
        at := Some(0);
      } else {
        var later := FindExact(g, keys[1..], name);
        if later.Some? {
          at := Some(later.value + 1);
          FirstLater(g, keys, name, later.value);
        } else {
          forall i: nat ensures !FirstAt(g, keys, name, i) {
            if i > 0 {
              FirstLater(g, keys, name, i - 1);
            }
          }
        }
      }
    }
  }

  /** A key of the first of these names, or none if no key has the name. */
  ghost predicate IsLookup<K>(g: KeyGraph<K>, keys: seq<K>, name: string, found: Option<K>) {
    match found
    case None => forall k | k in keys :: !EqualFold(g.name(k), name)
    case Some(k) => exists i: nat :: FirstAt(g, keys, name, i) && keys[i] == k
  }

  lemma {:induction false} NamedFirst<K>(g: KeyGraph<K>, keys: seq<K>, name: string, i: nat)
    requires i < |keys| && EqualFold(g.name(keys[i]), name)
    ensures exists j: nat :: FirstAt(g, keys, name, j)
  {
    if !FirstAt(g, keys, name, i) {
      var j :| 0 <= j < i && EqualFold(g.name(keys[j]), name);
      NamedFirst(g, keys, name, j);
    }
  }

  lemma FoundIsLookup<K>(g: KeyGraph<K>, keys: seq<K>, name: string)
    ensures IsLookup(g, keys, name, FindKey(g, keys, name))
  {
    var at := FindExact(g, keys, name);
    forall i | 0 <= i < |keys| && EqualFold(g.name(keys[i]), name) ensures at.Some? {
      NamedFirst(g, keys, name, i);
    }
  }

  function Subkey<K>(g: KeyGraph<K>, key: K, name: string): Result<Option<K>> {
    var kids :- g.subkeys(key);
    Ok(FindKey(g, kids, name))
  }

  method LookUp<K>(g: KeyGraph<K>, key: K, name: string) returns (r: Result<Option<K>>)
    ensures r == Subkey(g, key, name)
    ensures r.Ok? ==> g.subkeys(key).Ok? && IsLookup(g, g.subkeys(key).value, name, r.value)
    ensures r.Err? ==> g.subkeys(key) == Err(r.error)
  {
    var kids :- g.subkeys(key);
    FoundIsLookup(g, kids, name);
    for i := 0 to |kids|
      invariant FindKey(g, kids, name) == FindKey(g, kids[i..], name)
    {
      if Upper(g.name(kids[i])) == Upper(name) {
        return Ok(Some(kids[i]));
      }
      assert kids[i..][1..] == kids[i + 1..];
    }
    r := Ok(None);
  }

  function NonEmpty(parts: seq<string>): (r: seq<string>)
    ensures forall p | p in r :: p in parts && p != []
  {
    if parts == [] then []
    else (if parts[0] == [] then [] else [parts[0]]) + NonEmpty(parts[1..])
  }

  /** The key reached by following `parts` down from `key`. */
  function Descend<K>(g: KeyGraph<K>, key: K, parts: seq<string>): Result<Option<K>>
    decreases |parts|
  {
    if parts == [] then Ok(Some(key))
    else
      var next :- Subkey(g, key, parts[0]);
      match next
      case None => Ok(None)
      case Some(child) => Descend(g, child, parts[1..])
  }

  /** `Key::subkey_path`, which `Hive::open_key` calls on the root; empty components are skipped. */
  function SubkeyPath<K>(g: KeyGraph<K>, key: K, path: string): Result<Option<K>> {
    var parts := NonEmpty(Split(path));
    if parts == [] then Ok(None) else Descend(g, key, parts)
  }

  // ----- what following a path does -----

  ghost predicate NamesAt(parts: seq<string>, idx: seq<nat>, names: seq<string>) {
    |names| == |idx| && forall k | 0 <= k < |idx| :: idx[k] < |parts| && names[k] == parts[idx[k]]
  }

  /** The components of a path that are not empty, in order. */
  ghost predicate PathNames(path: string, names: seq<string>) {
    exists parts, idx ::
      && parts != [] && path == Join(parts) && (forall p | p in parts :: SEP !in p)
      && Lists(idx, set i: nat | i < |parts| && parts[i] != []) && NamesAt(parts, idx, names)
  }

  /** Each key is the first one of its name among the subkeys of the one before. */
  ghost predicate Walked<K>(g: KeyGraph<K>, ks: seq<K>, names: seq<string>) {
    && |ks| == |names| + 1
    && forall i | 0 <= i < |names| ::
         g.subkeys(ks[i]).Ok? && IsLookup(g, g.subkeys(ks[i]).value, names[i], Some(ks[i + 1]))
  }

  /** The walk comes to the last name, or to a key without a subkey of the next name or without readable subkeys. */
  ghost predicate Arrives<K(!new)>(g: KeyGraph<K>, key: K, names: seq<string>, r: Result<Option<K>>) {
    exists ks: seq<K> :: ArrivesBy(g, key, names, r, ks)
  }

  ghost predicate ArrivesBy<K>(g: KeyGraph<K>, key: K, names: seq<string>, r: Result<Option<K>>, ks: seq<K>) {
    && ks != [] && ks[0] == key && |ks| <= |names| + 1 && Walked(g, ks, names[..|ks| - 1])
    && Stops(g, ks[|ks| - 1], names[|ks| - 1..], r)
  }

  ghost predicate Stops<K>(g: KeyGraph<K>, last: K, rest: seq<string>, r: Result<Option<K>>) {
    if rest == [] then r == Ok(Some(last))
    else if g.subkeys(last).Err? then r == Err(g.subkeys(last).error)
    else r == Ok(None) && IsLookup(g, g.subkeys(last).value, rest[0], None)
  }

  lemma NamesFirst(parts: seq<string>, i: nat, idx: seq<nat>, names: seq<string>)
    requires i < |parts| && NamesAt(parts, idx, names)
    ensures NamesAt(parts, [i] + idx, [parts[i]] + names)
    ensures [] + names == names
  {
  }

  lemma {:induction false} NonEmptyPicked(parts: seq<string>, fits: nat -> bool, i: nat) returns (idx: seq<nat>)
    requires i <= |parts| && forall j: nat :: fits(j) <==> j < |parts| && parts[j] != []
    ensures PickedFrom(fits, i, idx) && NamesAt(parts, idx, NonEmpty(parts[i..]))
    decreases |parts| - i
  {
    idx := [];
    if i < |parts| {
      SuffixHead(parts, i);
      var later := NonEmptyPicked(parts, fits, i + 1);
      PickFirst(fits, i, later);
      NamesFirst(parts, i, later, NonEmpty(parts[i + 1..]));
      idx := if parts[i] != [] then [i] + later else later;
    }
  }

  lemma NamesOfPath(path: string)
    ensures PathNames(path, NonEmpty(Split(path)))
  {
    var parts := Split(path);
    JoinSplit(path);
    var fits := (j: nat) => j < |parts| && parts[j] != [];
    var idx := NonEmptyPicked(parts, fits, 0);
    assert parts[0..] == parts;
    assert Lists(idx, set i: nat | i < |parts| && parts[i] != []);
  }

  lemma WalkFirst<K>(g: KeyGraph<K>, key: K, name: string, ks: seq<K>, names: seq<string>)
    requires ks != [] && g.subkeys(key).Ok? && IsLookup(g, g.subkeys(key).value, name, Some(ks[0]))
    requires Walked(g, ks, names)
    ensures Walked(g, [key] + ks, [name] + names)
  {
    forall i | 0 <= i < |[name] + names|
      ensures g.subkeys(([key] + ks)[i]).Ok?
           && IsLookup(g, g.subkeys(([key] + ks)[i]).value, ([name] + names)[i], Some(([key] + ks)[i + 1]))
    {
      if i > 0 {
        assert ([key] + ks)[i] == ks[i - 1] && ([name] + names)[i] == names[i - 1] && ([key] + ks)[i + 1] == ks[i];
      }
    }
  }

  lemma ArrivesHere<K(!new)>(g: KeyGraph<K>, key: K, names: seq<string>, r: Result<Option<K>>)
    requires Stops(g, key, names, r)
    ensures Arrives(g, key, names, r)
  {
    assert names[0..] == names && Walked(g, [key], names[..0]);
    assert ArrivesBy(g, key, names, r, [key]);
  }

  lemma ArrivesLaterBy<K>(g: KeyGraph<K>, key: K, names: seq<string>, rest: seq<string>, child: K,
                          r: Result<Option<K>>, ks: seq<K>)
    requires names != [] && rest == names[1..] && ArrivesBy(g, child, rest, r, ks)
    requires g.subkeys(key).Ok? && IsLookup(g, g.subkeys(key).value, names[0], Some(child))
    ensures ArrivesBy(g, key, names, r, [key] + ks)
  {
    WalkFirst(g, key, names[0], ks, rest[..|ks| - 1]);
    assert names[..|ks|] == [names[0]] + rest[..|ks| - 1] && names[|ks|..] == rest[|ks| - 1..];
  }

  lemma ArrivesLater<K(!new)>(g: KeyGraph<K>, key: K, names: seq<string>, child: K, r: Result<Option<K>>)
    requires names != [] && g.subkeys(key).Ok? && IsLookup(g, g.subkeys(key).value, names[0], Some(child))
    requires Arrives(g, child, names[1..], r)
    ensures Arrives(g, key, names, r)
  {
    var ks: seq<K> :| ArrivesBy(g, child, names[1..], r, ks);
    ArrivesLaterBy(g, key, names, names[1..], child, r, ks);
  }

  lemma {:induction false} DescendArrives<K(!new)>(g: KeyGraph<K>, key: K, names: seq<string>)
    ensures Arrives(g, key, names, Descend(g, key, names))
    decreases |names|
  {
    if names == [] || g.subkeys(key).Err? {
      ArrivesHere(g, key, names, Descend(g, key, names));
    } else {
      FoundIsLookup(g, g.subkeys(key).value, names[0]);
      var next := FindKey(g, g.subkeys(key).value, names[0]);
      if next.None? {
        ArrivesHere(g, key, names, Ok(None));
      } else {
        DescendArrives(g, next.value, names[1..]);
        ArrivesLater(g, key, names, next.value, Descend(g, key, names));
      }
    }
  }

  method FollowPath<K(!new)>(g: KeyGraph<K>, key: K, path: string) returns (r: Result<Option<K>>)
    ensures r == SubkeyPath(g, key, path)
    ensures exists names :: PathNames(path, names) && if names == [] then r == Ok(None) else Arrives(g, key, names, r)
  {
    NamesOfPath(path);
    DescendArrives(g, key, NonEmpty(Split(path)));
    var parts := NonEmpty(Split(path));
    if parts == [] {
      return Ok(None);
    }
    var first :- LookUp(g, key, parts[0]);
    if first.None? {
      return Ok(None);
    }
    var current := first.value;
    for i := 1 to |parts|
      invariant Descend(g, key, parts) == Descend(g, current, parts[i..])
    {
      var next :- LookUp(g, current, parts[i]);
      if next.None? {
        return Ok(None);
      }
      assert parts[i..][1..] == parts[i + 1..];
      current := next.value;
    }
    r := Ok(Some(current));
  }

  // ----- finite trees -----

  /** What a key unfolds to when following subkeys ends. A key whose subkey list cannot be read is
      `Broken`: nothing below it is visible. */
  datatype Tree<K> =
    | Node(key: K, name: string, values: Result<seq<ValueData>>, kids: seq<Tree<K>>)
    | Broken(key: K, name: string, values: Result<seq<ValueData>>, error: HiveError)

  ghost predicate Unfolds<K>(g: KeyGraph<K>, t: Tree<K>) {
    && t.name == g.name(t.key)
    && t.values == g.values(t.key)
    && match t
       case Broken(_, _, _, e) => g.subkeys(t.key) == Err(e)
       case Node(_, _, _, kids) =>
         && g.subkeys(t.key) == Ok(KeysOf(kids))
         && forall i | 0 <= i < |kids| :: Unfolds(g, kids[i])
  }

  function KeysOf<K>(ts: seq<Tree<K>>): (r: seq<K>)
    ensures |r| == |ts|
  {
    seq(|ts|, i requires 0 <= i < |ts| => ts[i].key)
  }

  // ----- sizes, for recursion over trees and lists of trees -----

  function Size<K>(t: Tree<K>): (n: nat)
    ensures n > 0
  {
    match t
    case Broken(_, _, _, _) => 1
    case Node(_, _, _, kids) => 1 + SumSizes(kids)
  }

  function SumSizes<K>(ts: seq<Tree<K>>): nat {
    if ts == [] then 0 else Size(ts[0]) + SumSizes(ts[1..])
  }

  lemma {:induction false} SumSizesAppend<K>(a: seq<Tree<K>>, b: seq<Tree<K>>)
    ensures SumSizes(a + b) == SumSizes(a) + SumSizes(b)
  {
    if a == [] {
      assert a + b == b;
    } else {
      assert (a + b)[1..] == a[1..] + b;
      SumSizesAppend(a[1..], b);
    }
  }
}
