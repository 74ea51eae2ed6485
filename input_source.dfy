/** `Require#require_input` and `RequireInstanceMethod#_require_input`: a value read from
    one line of input (or the default, when the line is blank), optionally transformed,
    and stored at a dotted path in a fresh tree; the instance form merges that tree into
    an existing node. Printing the prompt and reading the line are not modelled: the
    line read is a parameter. */
module InputSource {
  import opened Results
  import opened ConfigTree
  import Text

  /** `gets` returned `nil` (end of input), so `strip` raised; or the path could not be
      set without `:build`. */
  datatype InputError = EndOfInput | NoPath

  /** The options `require_input` reads. `default` is `Nil` when not given; `build` is
      `None` when the key is absent, otherwise whether the value given is truthy. */
  datatype InputOptions = InputOptions(default: Value, build: Option<bool>)

  /** `opts.has_key?(:build) ? opts[:build] : true`. */
  predicate Building(opts: InputOptions)
  {
    match opts.build
    case None => true
    case Some(b) => b
  }

  /** The value stored: the stripped line, or the default when it strips to nothing, then
      passed through the block when one is given. */
  function ChooseValue(line: string, default: Value, transform: Option<Value -> Value>): Value
  {
    var s := Text.Strip(line);
    var v := if s == [] then default else Str(s);
    match transform
    case Some(f) => f(v)
    case None => v
  }

  /** A line of nothing but whitespace and NULs selects the default, and any other line
      is taken as its non-empty stripped text; a block sees that choice and its result is
      what is stored. */
  lemma {:induction false} ChooseValueIff(line: string, default: Value)
    ensures (forall k :: 0 <= k < |line| ==> Text.IsTrailingBlank(line[k])) ==> ChooseValue(line, default, None) == default
    ensures !(forall k :: 0 <= k < |line| ==> Text.IsTrailingBlank(line[k])) ==>
              Text.Strip(line) != [] && ChooseValue(line, default, None) == Str(Text.Strip(line))
    ensures forall f :: ChooseValue(line, default, Some(f)) == f(ChooseValue(line, default, None))
  {
    Text.StripEmptyIff(line);
  }

  /** `require_input`: the fresh tree holding the chosen value at `path`. */
  function RequireInput(path: string, opts: InputOptions, line: Option<string>, transform: Option<Value -> Value>): (r: Result<Tree, InputError>)
    ensures r.Failure? ==> (line == None && r.error == EndOfInput) || (!Building(opts) && r.error == NoPath)
    ensures r.Success? ==> r.value.entries.Keys == {SplitDots(path)[0]}
  {
    match line
    case None => Failure(EndOfInput)
    case Some(l) =>
      var p := SplitDots(path);
      var v := ChooseValue(l, opts.default, transform);
      if Building(opts) then Success(Put(Empty, p, v))
      else
        PutExistingIff(Empty, p, v);
        match PutExisting(Empty, p, v)
        case Some(t) => Success(t)
        case None => Failure(NoPath)
  }

  /** When a line is read and the path can be set (building, or a key without a dot), the
      result holds the chosen value at the path and nothing beside its first segment. */
  lemma InputStored(path: string, opts: InputOptions, l: string, transform: Option<Value -> Value>)
    requires Building(opts) || Text.Free(path, '.')
    ensures RequireInput(path, opts, Some(l), transform).Success?
    ensures At(Sub(RequireInput(path, opts, Some(l), transform).value), SplitDots(path))
            == Some(ChooseValue(l, opts.default, transform))
  {
    var p := SplitDots(path);
    var v := ChooseValue(l, opts.default, transform);
    PutAt(Empty, p, v);
    if !Building(opts) {
      Text.FieldsSingleIff(path, '.');
      assert p[..|p| - 1] == [];
      PutExistingIff(Empty, p, v);
    }
  }

  /** Without `:build`, the fresh tree can take only a key without a dot: setting a dotted
      key fails on the missing intermediate node. */
  lemma NoBuildNeedsOneSegment(path: string, opts: InputOptions, l: string, transform: Option<Value -> Value>)
    requires !Building(opts)
    ensures RequireInput(path, opts, Some(l), transform).Success? <==> Text.Free(path, '.')
  {
    var p := SplitDots(path);
    var v := ChooseValue(l, opts.default, transform);
    Text.FieldsSingleIff(path, '.');
    PutExistingIff(Empty, p, v);
    if |p| > 1 {
      assert p[..|p| - 1][0] == p[0];
      assert At(Sub(Empty), p[..|p| - 1]) == None;
    } else {
      assert p[..|p| - 1] == [];
    }
  }

  /** With building on, the fresh tree for `"my.name"` holds the value under `my`. */
  lemma MyNameStored(opts: InputOptions, l: string)
    requires Building(opts)
    ensures RequireInput("my.name", opts, Some(l), None)
            == Success(Tree(map["my" := Sub(Tree(map["name" := ChooseValue(l, opts.default, None)]))]))
  {
    SplitDotsPair("my", "name");
    assert "my" + "." + "name" == "my.name";
  }

  /** `require_input("what's your name?", "my.name", default: "foo")` answered with an
      empty line stores `"foo"` at `my.name`. */
  lemma BlankInputDocExample()
    ensures RequireInput("my.name", InputOptions(Str("foo"), None), Some("\n"), None)
            == Success(Tree(map["my" := Sub(Tree(map["name" := Str("foo")]))]))
  {
    assert Text.Strip("\n") == [];
    MyNameStored(InputOptions(Str("foo"), None), "\n");
  }

  /** The same call answered with `bar` stores `"bar"`, the default ignored. */
  lemma GivenInputDocExample()
    ensures RequireInput("my.name", InputOptions(Str("foo"), None), Some("bar\n"), None)
            == Success(Tree(map["my" := Sub(Tree(map["name" := Str("bar")]))]))
  {
    Text.StripLine("bar");
    assert "bar" + "\n" == "bar\n";
    MyNameStored(InputOptions(Str("foo"), None), "bar\n");
  }

  // ---------------------------------------------------------------------------
  // _require_input
  // ---------------------------------------------------------------------------

  /** `_get(key)`: the value at the dotted key, `nil` when nothing is there. */
  function Lookup(t: Tree, key: string): Value
  {
    match At(Sub(t), SplitDots(key))
    case Some(v) => v
    case None => Nil
  }

  /** The options `_require_input` passes on: `opts[:default] ||= _get(key)` and
      `opts[:build] ||= false`. */
  function InstanceOptions(t: Tree, key: string, opts: InputOptions): (r: InputOptions)
    ensures Building(r) <==> opts.build == Some(true)
    ensures Truthy(opts.default) ==> r.default == opts.default
    ensures !Truthy(opts.default) && At(Sub(t), SplitDots(key)).Some? ==> r.default == At(Sub(t), SplitDots(key)).value
  {
    InputOptions(if Truthy(opts.default) then opts.default else Lookup(t, key), Some(opts.build == Some(true)))
  }

  /** What `_require_input` leaves in the node: the node with the fresh tree merged into
      it, or the failure that stopped the call. */
  function InstanceResult(t: Tree, key: string, opts: InputOptions, line: Option<string>, transform: Option<Value -> Value>): Result<Tree, InputError>
  {
    match RequireInput(key, InstanceOptions(t, key, opts), line, transform)
    case Success(n) => Success(Merge(t, n))
    case Failure(e) => Failure(e)
  }

  /** Without a default of its own and without a block, a blank line re-stores the value
      the node already holds at the key, so the node is left exactly as it was. */
  lemma BlankInputKeepsNode(t: Tree, key: string, opts: InputOptions, line: string)
    requires forall k :: 0 <= k < |line| ==> Text.IsTrailingBlank(line[k])
    requires !Truthy(opts.default)
    requires opts.build == Some(true) || Text.Free(key, '.')
    requires Leaf(Sub(t), SplitDots(key)).Some?
    ensures InstanceResult(t, key, opts, Some(line), None) == Success(t)
  {
    var p := SplitDots(key);
    var x := Leaf(Sub(t), p).value;
    var o := InstanceOptions(t, key, opts);
    assert o.default == x;
    ChooseValueIff(line, o.default);
    InputStored(key, o, line, None);
    if !Building(o) {
      Text.FieldsSingleIff(key, '.');
      assert p[..|p| - 1] == [];
      PutExistingIff(Empty, p, x);
    }
    MergeSameLeaf(t, p, x);
  }

  /** Without `:build => true`, a dotted key cannot be set on the fresh tree, whatever the
      node holds, so `_require_input` fails. */
  lemma InstanceDottedKeyFails(t: Tree, key: string, opts: InputOptions, l: string, transform: Option<Value -> Value>)
    requires opts.build != Some(true) && !Text.Free(key, '.')
    ensures InstanceResult(t, key, opts, Some(l), transform) == Failure(NoPath)
  {
    NoBuildNeedsOneSegment(key, InstanceOptions(t, key, opts), l, transform);
  }

  /** The node built by `_.my.age = 1`. */
  const AgeNode: Tree := Tree(map["my" := Sub(Tree(map["age" := Num(1)]))])

  lemma MyAgePath()
    ensures SplitDots("my.age") == ["my", "age"] && !Text.Free("my.age", '.')
  {
    Text.FieldsPair("my", "age", '.');
    assert "my" + ['.'] + "age" == "my.age";
    assert "my.age"[2] == '.';
  }

  /** `o._require_input("how old are you?", "my.age")` on that node: without `:build` the
      dotted key cannot be set on the fresh tree, so the call fails and `my.age` keeps
      `1`. */
  lemma InstanceDocExample(l: string, transform: Option<Value -> Value>)
    ensures InstanceResult(AgeNode, "my.age", InputOptions(Nil, None), Some(l), transform) == Failure(NoPath)
  {
    MyAgePath();
    InstanceDottedKeyFails(AgeNode, "my.age", InputOptions(Nil, None), l, transform);
  }

  /** With `:build => true`, a blank line re-stores the current `1` as the default and
      the node is unchanged. */
  lemma InstanceBuildDocExample()
    ensures InstanceResult(AgeNode, "my.age", InputOptions(Nil, Some(true)), Some(""), None) == Success(AgeNode)
  {
    MyAgePath();
    assert At(Sub(AgeNode), ["my"]) == Some(AgeNode.entries["my"]);
    assert Leaf(Sub(AgeNode), ["my", "age"]) == Some(Num(1));
    BlankInputKeepsNode(AgeNode, "my.age", InputOptions(Nil, Some(true)), "");
  }

  /** A configuration node that `_require_input` updates in place. */
  class Optimism {
    var tree: Tree

    constructor(t: Tree)
      ensures tree == t
    {
      tree := t;
    }

    /** `_require_input(msg, key, opts, &blk)`: fills in the options from the node, reads
        the value, and merges the fresh tree into the node with `<<`. When the call fails
        the node is unchanged. */
    method RequireInputInto(key: string, opts: InputOptions, line: Option<string>, transform: Option<Value -> Value>)
      returns (raised: Option<InputError>)
      modifies this
      ensures match InstanceResult(old(tree), key, opts, line, transform)
              case Success(t) => raised == None && tree == t
              case Failure(e) => raised == Some(e) && tree == old(tree)
    {
      var o := InstanceOptions(tree, key, opts);
      var given := RequireInput(key, o, line, transform);
      match given {
        case Failure(e) =>
          return Some(e);
        case Success(n) =>
          tree := Merge(tree, n);
          raised := None;
      }
    }
  }
}
