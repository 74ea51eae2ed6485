/** The configuration tree the loaders produce and combine: a mapping from key segments
    to scalars or nested trees, addressed by dotted paths. Only the primitives the
    loaders use are modelled: descending a path, `<<` (recursive-overwrite merge),
    `_set2` with and without `:build`, and wrapping under a namespace. */
module ConfigTree {
  import opened Results
  import Text

  type Key = string

  /** A path of key segments, as `"a.b.c"` is split into `["a", "b", "c"]`. */
  type Path = seq<Key>

  /** A value held under a key: a scalar, or a nested tree. */
  datatype Value = Nil | Bool(b: bool) | Num(n: int) | Str(s: string) | Sub(tree: Tree)

  /** One node of configuration. Insertion order, which Ruby keeps for printing, plays
      no part in merging or lookup and is not represented. */
  datatype Tree = Tree(entries: map<Key, Value>)

  const Empty: Tree := Tree(map[])

  /** Ruby truthiness: everything except `nil` and `false`. */
  predicate Truthy(v: Value)
  {
    match v
    case Nil => false
    case Bool(b) => b
    case _ => true
  }

  // ---------------------------------------------------------------------------
  // Dotted paths
  // ---------------------------------------------------------------------------

  /** The segments of a dotted path. */
  function SplitDots(s: string): (r: Path)
    ensures |r| > 0
  {
    Text.Fields(s, '.')
  }

  /** `pieces.join('.')`. */
  function JoinDots(ps: Path): string
  {
    Text.Join(ps, '.')
  }

  /** A path written out with dots reads back as the same path, provided that it has a
      segment and no segment contains a dot. */
  lemma DotPathRoundTrip(ps: Path)
    requires |ps| > 0 && Text.AllFree(ps, '.')
    ensures SplitDots(JoinDots(ps)) == ps
  {
    Text.FieldsJoin(ps, '.');
  }

  /** A two-segment dotted key, neither segment holding a dot, reads as those segments. */
  lemma SplitDotsPair(a: string, b: string)
    requires Text.Free(a, '.') && Text.Free(b, '.')
    ensures SplitDots(a + "." + b) == [a, b]
  {
    Text.FieldsPair(a, b, '.');
    assert a + ['.'] + b == a + "." + b;
  }

  // ---------------------------------------------------------------------------
  // Lookup
  // ---------------------------------------------------------------------------

  /** The value reached by descending `p` from `v`: every segment but the last must find
      a subtree. */
  function At(v: Value, p: Path): Option<Value>
    decreases p
  {
    if p == [] then Some(v)
    else if v.Sub? && p[0] in v.tree.entries then At(v.tree.entries[p[0]], p[1..])
    else None
  }

  /** `p` leaves `v` through a key that is not there, every earlier step having found a
      subtree: nothing in `v` stands at `p`, at a prefix of it, or below it. */
  predicate Absent(v: Value, p: Path)
    decreases p
  {
    p != [] && v.Sub? && (p[0] !in v.tree.entries || Absent(v.tree.entries[p[0]], p[1..]))
  }

  /** The scalar stored at `p`, if there is one. */
  function Leaf(v: Value, p: Path): Option<Value>
  {
    match At(v, p)
    case Some(x) => if x.Sub? then None else Some(x)
    case None => None
  }

  lemma {:induction false} AbsentHasNothing(v: Value, p: Path)
    requires Absent(v, p)
    ensures At(v, p) == None && Leaf(v, p) == None
    decreases p
  {
    if p[0] in v.tree.entries {
      AbsentHasNothing(v.tree.entries[p[0]], p[1..]);
    }
  }

  /** Descending `p + q` is descending `p`, then `q`. */
  lemma {:induction false} AtAppend(v: Value, p: Path, q: Path)
    ensures At(v, p + q) == match At(v, p) case Some(w) => At(w, q) case None => None
    decreases p
  {
    if p != [] {
      assert (p + q)[0] == p[0] && (p + q)[1..] == p[1..] + q;
      if v.Sub? && p[0] in v.tree.entries {
        AtAppend(v.tree.entries[p[0]], p[1..], q);
      }
    } else {
      assert p + q == q;
    }
  }

  // ---------------------------------------------------------------------------
  // Merge: `a << b`
  // ---------------------------------------------------------------------------

  /** The value under a key after `<<`: two subtrees merge recursively, otherwise the
      incoming value replaces the old one. */
  function MergeValue(a: Value, b: Value): Value
  {
    if a.Sub? && b.Sub? then Sub(Merge(a.tree, b.tree)) else b
  }

  /** `a << b`: every key of `b` is written onto `a`; keys of `a` that `b` does not
      mention survive. */
  function Merge(a: Tree, b: Tree): (r: Tree)
    ensures r.entries.Keys == a.entries.Keys + b.entries.Keys
  {
    Tree(map k | k in a.entries.Keys + b.entries.Keys ::
      if k in b.entries then
        if k in a.entries then MergeValue(a.entries[k], b.entries[k]) else b.entries[k]
      else a.entries[k])
  }

  /** What a merge leaves at a path: the incoming side decides unless it is absent
      there, in which case the old side's scalar shows through. */
  lemma {:induction false} MergeLeaf(a: Value, b: Value, p: Path)
    ensures Leaf(MergeValue(a, b), p) == if Absent(b, p) then Leaf(a, p) else Leaf(b, p)
    decreases p
  {
    if p == [] {
    } else if !b.Sub? {
    } else if !a.Sub? {
      if Absent(b, p) { AbsentHasNothing(b, p); }
    } else {
      var k := p[0];
      var m := Merge(a.tree, b.tree);
      if k in b.tree.entries && k in a.tree.entries {
        assert m.entries[k] == MergeValue(a.tree.entries[k], b.tree.entries[k]);
        MergeLeaf(a.tree.entries[k], b.tree.entries[k], p[1..]);
      } else if k in b.tree.entries {
        assert m.entries[k] == b.tree.entries[k];
        if Absent(b, p) { AbsentHasNothing(b.tree.entries[k], p[1..]); }
      } else if k in a.tree.entries {
        assert m.entries[k] == a.tree.entries[k];
      }
    }
  }

  /** A merge is absent at a path whenever both sides are. */
  lemma {:induction false} MergeAbsent(a: Value, b: Value, p: Path)
    requires Absent(a, p) && Absent(b, p)
    ensures Absent(MergeValue(a, b), p)
    decreases p
  {
    var k := p[0];
    var m := Merge(a.tree, b.tree);
    if k in b.tree.entries && k in a.tree.entries {
      assert m.entries[k] == MergeValue(a.tree.entries[k], b.tree.entries[k]);
      MergeAbsent(a.tree.entries[k], b.tree.entries[k], p[1..]);
    } else if k in b.tree.entries {
      assert m.entries[k] == b.tree.entries[k];
    } else if k in a.tree.entries {
      assert m.entries[k] == a.tree.entries[k];
    }
  }

  /** Merging an empty tree in either direction changes nothing. */
  lemma MergeEmpty(t: Tree)
    ensures Merge(t, Empty) == t && Merge(Empty, t) == t
  {
  }

  // ---------------------------------------------------------------------------
  // Setting a path: `_set2(path, v, :build => …)`
  // ---------------------------------------------------------------------------

  /** The subtree under `k` that a built path descends into: the existing one, or a fresh
      empty node when `k` is missing or holds a scalar. */
  function ChildFor(t: Tree, k: Key): Tree
  {
    if k in t.entries && t.entries[k].Sub? then t.entries[k].tree else Empty
  }

  /** Sets `v` at `p` with `:build => true`: intermediate nodes that are missing, or that
      hold a scalar, become subtrees. */
  function Put(t: Tree, p: Path, v: Value): (r: Tree)
    requires p != []
    ensures r.entries.Keys == t.entries.Keys + {p[0]}
    decreases p
  {
    if |p| == 1 then Tree(t.entries[p[0] := v])
    else Tree(t.entries[p[0] := Sub(Put(ChildFor(t, p[0]), p[1..], v))])
  }

  /** After `Put`, the path holds exactly the value that was set. */
  lemma {:induction false} PutAt(t: Tree, p: Path, v: Value)
    requires p != []
    ensures At(Sub(Put(t, p, v)), p) == Some(v)
    decreases p
  {
    if |p| > 1 {
      PutAt(ChildFor(t, p[0]), p[1..], v);
    }
  }

  /** Two paths part ways: at some position both still have, their segments differ. */
  predicate Diverge(p: Path, q: Path)
  {
    exists i :: 0 <= i < |p| && i < |q| && p[i] != q[i]
  }

  /** `Put` at one path leaves every path that parts ways with it as it was. */
  lemma {:induction false} PutElsewhere(t: Tree, p: Path, v: Value, q: Path)
    requires p != [] && Diverge(p, q)
    ensures At(Sub(Put(t, p, v)), q) == At(Sub(t), q)
    decreases p
  {
    if p[0] == q[0] {
      var i :| 0 <= i < |p| && i < |q| && p[i] != q[i];
      assert i > 0 && |p| > 1 && |q| > 1;
      assert p[1..][i - 1] != q[1..][i - 1];
      var c := ChildFor(t, p[0]);
      PutElsewhere(c, p[1..], v, q[1..]);
      if !(p[0] in t.entries && t.entries[p[0]].Sub?) {
        // the built node is fresh: nothing below it but the new path
        assert q[1..][0] !in c.entries;
        if p[0] in t.entries {
          assert At(Sub(t), q) == At(t.entries[p[0]], q[1..]);
        }
      }
    }
  }

  /** Sets `v` at `p` without `:build`: every intermediate node must already be a subtree;
      otherwise nothing is set. */
  function PutExisting(t: Tree, p: Path, v: Value): Option<Tree>
    requires p != []
    decreases p
  {
    if |p| == 1 then Some(Tree(t.entries[p[0] := v]))
    else if p[0] in t.entries && t.entries[p[0]].Sub? then
      match PutExisting(t.entries[p[0]].tree, p[1..], v)
      case Some(c) => Some(Tree(t.entries[p[0] := Sub(c)]))
      case None => None
    else None
  }

  /** Without `:build`, setting succeeds exactly when the parent of the path is already a
      subtree, and then it agrees with the building `Put`. */
  lemma {:induction false} PutExistingIff(t: Tree, p: Path, v: Value)
    requires p != []
    ensures PutExisting(t, p, v).Some? <==> At(Sub(t), p[..|p| - 1]).Some? && At(Sub(t), p[..|p| - 1]).value.Sub?
    ensures PutExisting(t, p, v).Some? ==> PutExisting(t, p, v).value == Put(t, p, v)
    decreases p
  {
    if |p| > 1 {
      assert p[..|p| - 1][0] == p[0] && p[..|p| - 1][1..] == p[1..][..|p| - 2];
      if p[0] in t.entries && t.entries[p[0]].Sub? {
        PutExistingIff(t.entries[p[0]].tree, p[1..], v);
      }
    }
  }

  /** Merging in a fresh tree that holds, at `p`, the scalar already stored there changes
      nothing. */
  lemma {:induction false} MergeSameLeaf(t: Tree, p: Path, x: Value)
    requires p != [] && At(Sub(t), p) == Some(x) && !x.Sub?
    ensures Merge(t, Put(Empty, p, x)) == t
    decreases p
  {
    var k := p[0];
    var n := Put(Empty, p, x);
    var m := Merge(t, n);
    assert n.entries.Keys == {k};
    if |p| == 1 {
      assert m.entries[k] == MergeValue(t.entries[k], x) == t.entries[k];
    } else {
      var c := t.entries[k];
      assert c.Sub? && ChildFor(Empty, k) == Empty;
      MergeSameLeaf(c.tree, p[1..], x);
      assert m.entries[k] == MergeValue(c, Sub(Put(Empty, p[1..], x))) == c;
    }
    assert m.entries == t.entries;
  }

  // ---------------------------------------------------------------------------
  // Namespaces: `_walk!("-a.b", :build => true)`
  // ---------------------------------------------------------------------------

  /** A fresh root that holds `t` at `p`, every node along the way built. */
  function Wrap(t: Tree, p: Path): Tree
    requires p != []
  {
    Put(Empty, p, Sub(t))
  }

  /** Descending the namespace in the wrapped tree gives back exactly the tree that was
      wrapped, and beneath it every path reads as it did; the root holds nothing but the
      namespace's first segment. */
  lemma WrapThenDescend(t: Tree, p: Path, q: Path)
    requires p != []
    ensures At(Sub(Wrap(t, p)), p) == Some(Sub(t))
    ensures At(Sub(Wrap(t, p)), p + q) == At(Sub(t), q)
    ensures Wrap(t, p).entries.Keys == {p[0]}
  {
    PutAt(Empty, p, Sub(t));
    AtAppend(Sub(Wrap(t, p)), p, q);
  }

  /** Wraps under a `:namespace` option, when one is given: `o._walk!("-" + ns, :build => true)`. */
  function Namespaced(t: Tree, ns: Option<string>): Tree
  {
    match ns
    case Some(s) => Wrap(t, SplitDots(s))
    case None => t
  }
}
