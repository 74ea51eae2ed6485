/** `Require#require_file` and `Require#find_file`: resolve each requested name to a
    file, load the files that exist, and fold their trees into one under the `:mixin`
    policy, optionally wrapped under a `:namespace`. */
module FileSource {
  import opened Results
  import opened ConfigTree
  import Text

  /** What the resolver and loader see of the machine at call time. */
  datatype FileSystem = FileSystem(
    expandPath: string -> string,       // `File.expand_path`: `~` and relative names made absolute
    absolutePath: string -> string,     // `File.absolute_path`: made absolute and normalised, `~` kept
    isFile: string -> bool,             // `File.exists?`
    search: string -> Option<string>,   // `Hike::Trail#find` over `$:` with the extension ".rb"
    load: string -> Tree)               // `Optimism(File.read(path))`

  // ---------------------------------------------------------------------------
  // find_file
  // ---------------------------------------------------------------------------

  /** The three forms of name `find_file` tells apart. */
  datatype NameForm = HomeOrRelative | Absolute | Logical

  /** `s[i..]` starts with `~`, `./` or `../`. */
  predicate MarkerAt(s: string, i: nat)
  {
    i < |s| &&
    (s[i] == '~' ||
     (s[i] == '.' && i + 1 < |s| &&
      (s[i + 1] == '/' || (s[i + 1] == '.' && i + 2 < |s| && s[i + 2] == '/'))))
  }

  /** Position `i` begins a line: Ruby's `^` matches there. */
  predicate LineStart(s: string, i: nat)
  {
    i == 0 || (i <= |s| && s[i - 1] == '\n')
  }

  /** `name =~ %r!^~|^\.\.?/!`. Ruby's `^` anchors at the start of every line, not only
      at the start of the name. */
  predicate HomeOrRelativeName(s: string)
  {
    exists i :: 0 <= i < |s| && LineStart(s, i) && MarkerAt(s, i)
  }

  function Classify(name: string, fs: FileSystem): NameForm
  {
    if HomeOrRelativeName(name) then HomeOrRelative
    else if fs.absolutePath(name) == name then Absolute
    else Logical
  }

  /** For a one-line name the test is the plain prefix test: the name starts with `~`,
      `./` or `../`. */
  lemma {:induction false} OneLineNameForm(name: string)
    requires Text.Free(name, '\n')
    ensures HomeOrRelativeName(name) <==> MarkerAt(name, 0)
  {
    if HomeOrRelativeName(name) {
      var i :| 0 <= i < |name| && LineStart(name, i) && MarkerAt(name, i);
      assert i == 0;
    } else {
      assert !(0 < |name| && LineStart(name, 0) && MarkerAt(name, 0));
    }
  }

  /** A later line of a name can make it a home or relative name: `"rc\n./x"` is one. */
  lemma LaterLineCounts()
    ensures HomeOrRelativeName("rc\n./x") && !MarkerAt("rc\n./x", 0)
  {
    assert LineStart("rc\n./x", 3) && MarkerAt("rc\n./x", 3);
  }

  /** Resolves a requested name to a path, or to nothing: home and relative names are
      expanded and must exist, absolute names must exist as given, and any other name is
      looked up along the search path. A missing file is an absence, never an error. */
  function FindFile(name: string, fs: FileSystem): (r: Option<string>)
    ensures Classify(name, fs) == HomeOrRelative ==>
      r == (if fs.isFile(fs.expandPath(name)) then Some(fs.expandPath(name)) else None)
    ensures Classify(name, fs) == Absolute ==> r == (if fs.isFile(name) then Some(name) else None)
    ensures Classify(name, fs) == Logical ==> r == fs.search(name)
    ensures r.Some? && Classify(name, fs) != Logical ==> fs.isFile(r.value)
  {
    match Classify(name, fs)
    case HomeOrRelative =>
      var file := fs.expandPath(name);
      if fs.isFile(file) then Some(file) else None
    case Absolute =>
      if fs.isFile(name) then Some(name) else None
    case Logical =>
      fs.search(name)
  }

  // ---------------------------------------------------------------------------
  // The merge policies
  // ---------------------------------------------------------------------------

  /** `:replace`, `:ignore`, or any other symbol, which matches no branch of the `case`. */
  datatype Mixin = Replace | Ignore | OtherMixin(name: string)

  /** Later sources win: `o << new` for each loaded tree in turn. */
  function FoldReplace(ts: seq<Tree>): Tree
  {
    if ts == [] then Empty else Merge(FoldReplace(ts[..|ts| - 1]), ts[|ts| - 1])
  }

  /** Earlier sources win: `new << o; o = new` for each loaded tree in turn. */
  function FoldIgnore(ts: seq<Tree>): Tree
  {
    if ts == [] then Empty else Merge(ts[|ts| - 1], FoldIgnore(ts[..|ts| - 1]))
  }

  /** What the loop accumulates: an unknown policy merges nothing. */
  function Combine(m: Mixin, ts: seq<Tree>): Tree
  {
    match m
    case Replace => FoldReplace(ts)
    case Ignore => FoldIgnore(ts)
    case OtherMixin(_) => Empty
  }

  /** With `:replace`, the scalar at a path is the one from the last source that says
      anything at that path; sources absent there do not disturb it. */
  lemma {:induction false} ReplaceLastWins(ts: seq<Tree>, p: Path, i: nat)
    requires i < |ts| && !Absent(Sub(ts[i]), p)
    requires forall j :: i < j < |ts| ==> Absent(Sub(ts[j]), p)
    ensures Leaf(Sub(FoldReplace(ts)), p) == Leaf(Sub(ts[i]), p)
  {
    var n := |ts| - 1;
    MergeLeaf(Sub(FoldReplace(ts[..n])), Sub(ts[n]), p);
    if i < n {
      ReplaceLastWins(ts[..n], p, i);
    }
  }

  /** With `:replace`, a path no source reaches is absent from the result. */
  lemma {:induction false} ReplaceNoneDefined(ts: seq<Tree>, p: Path)
    requires p != [] && forall j :: 0 <= j < |ts| ==> Absent(Sub(ts[j]), p)
    ensures Absent(Sub(FoldReplace(ts)), p) && Leaf(Sub(FoldReplace(ts)), p) == None
  {
    if ts != [] {
      var n := |ts| - 1;
      ReplaceNoneDefined(ts[..n], p);
      MergeAbsent(Sub(FoldReplace(ts[..n])), Sub(ts[n]), p);
    }
    AbsentHasNothing(Sub(FoldReplace(ts)), p);
  }

  /** With `:ignore`, a path no source reaches is absent from the result. */
  lemma {:induction false} IgnoreNoneDefined(ts: seq<Tree>, p: Path)
    requires p != [] && forall j :: 0 <= j < |ts| ==> Absent(Sub(ts[j]), p)
    ensures Absent(Sub(FoldIgnore(ts)), p) && Leaf(Sub(FoldIgnore(ts)), p) == None
  {
    if ts != [] {
      var n := |ts| - 1;
      IgnoreNoneDefined(ts[..n], p);
      MergeAbsent(Sub(ts[n]), Sub(FoldIgnore(ts[..n])), p);
    }
    AbsentHasNothing(Sub(FoldIgnore(ts)), p);
  }

  /** With `:ignore`, the first source to hold a scalar at a path, all earlier sources
      being absent there, keeps it: later sources only fill in what is not yet present. */
  lemma {:induction false} IgnoreFirstWins(ts: seq<Tree>, p: Path, i: nat, x: Value)
    requires i < |ts| && Leaf(Sub(ts[i]), p) == Some(x)
    requires forall j :: 0 <= j < i ==> Absent(Sub(ts[j]), p)
    ensures Leaf(Sub(FoldIgnore(ts)), p) == Some(x)
  {
    var n := |ts| - 1;
    var before := FoldIgnore(ts[..n]);
    assert p != [];
    MergeLeaf(Sub(ts[n]), Sub(before), p);
    if i == n {
      IgnoreNoneDefined(ts[..n], p);
    } else {
      IgnoreFirstWins(ts[..n], p, i, x);
      if Absent(Sub(before), p) {
        AbsentHasNothing(Sub(before), p);
      }
    }
  }

  /** The two example sources a = {x: 1, y: 2} and b = {x: 3, z: 4}, loaded with
      `:replace`, give {x: 3, y: 2, z: 4}. */
  lemma ReplaceExample()
    ensures
      var a := Tree(map["x" := Num(1), "y" := Num(2)]);
      var b := Tree(map["x" := Num(3), "z" := Num(4)]);
      FoldReplace([a, b]) == Tree(map["x" := Num(3), "y" := Num(2), "z" := Num(4)])
  {
    var a := Tree(map["x" := Num(1), "y" := Num(2)]);
    var b := Tree(map["x" := Num(3), "z" := Num(4)]);
    assert [a, b][..1] == [a] && [a][..0] == [];
    assert FoldReplace([a]) == a by { MergeEmpty(a); }
    var m := Merge(a, b);
    assert m.entries.Keys == {"x", "y", "z"};
    assert m.entries["x"] == Num(3) && m.entries["y"] == Num(2) && m.entries["z"] == Num(4);
    assert m.entries == map["x" := Num(3), "y" := Num(2), "z" := Num(4)];
  }

  /** The same two sources loaded with `:ignore` give {x: 1, y: 2, z: 4}. */
  lemma IgnoreExample()
    ensures
      var a := Tree(map["x" := Num(1), "y" := Num(2)]);
      var b := Tree(map["x" := Num(3), "z" := Num(4)]);
      FoldIgnore([a, b]) == Tree(map["x" := Num(1), "y" := Num(2), "z" := Num(4)])
  {
    var a := Tree(map["x" := Num(1), "y" := Num(2)]);
    var b := Tree(map["x" := Num(3), "z" := Num(4)]);
    assert [a, b][..1] == [a] && [a][..0] == [];
    assert FoldIgnore([a]) == a by { MergeEmpty(a); }
    var m := Merge(b, a);
    assert m.entries.Keys == {"x", "y", "z"};
    assert m.entries["x"] == Num(1) && m.entries["y"] == Num(2) && m.entries["z"] == Num(4);
    assert m.entries == map["x" := Num(1), "y" := Num(2), "z" := Num(4)];
  }

  /** The `a` nodes of the documented `:ignore` example: b.rb's merged under a.rb's. */
  lemma IgnoreDocInner()
    ensures Merge(Tree(map["b" := Num(2), "d" := Str("bar")]), Tree(map["b" := Num(1), "c" := Str("foo")]))
            == Tree(map["b" := Num(1), "c" := Str("foo"), "d" := Str("bar")])
  {
    var inner := Merge(Tree(map["b" := Num(2), "d" := Str("bar")]), Tree(map["b" := Num(1), "c" := Str("foo")]));
    assert inner.entries.Keys == {"b", "c", "d"};
    assert inner.entries["b"] == Num(1) && inner.entries["c"] == Str("foo") && inner.entries["d"] == Str("bar");
    assert inner.entries == map["b" := Num(1), "c" := Str("foo"), "d" := Str("bar")];
  }

  /** The documented `:mixin => :ignore` example: a.rb sets a.b = 1 and a.c = "foo",
      b.rb sets a.b = 2 and a.d = "bar"; the result has a.b = 1, a.c = "foo", a.d = "bar". */
  lemma IgnoreDocExample()
    ensures
      var a := Tree(map["a" := Sub(Tree(map["b" := Num(1), "c" := Str("foo")]))]);
      var b := Tree(map["a" := Sub(Tree(map["b" := Num(2), "d" := Str("bar")]))]);
      FoldIgnore([a, b]) ==
        Tree(map["a" := Sub(Tree(map["b" := Num(1), "c" := Str("foo"), "d" := Str("bar")]))])
  {
    var inner1 := Tree(map["b" := Num(1), "c" := Str("foo")]);
    var inner2 := Tree(map["b" := Num(2), "d" := Str("bar")]);
    var a := Tree(map["a" := Sub(inner1)]);
    var b := Tree(map["a" := Sub(inner2)]);
    assert [a, b][..1] == [a] && [a][..0] == [];
    assert FoldIgnore([a]) == a by { MergeEmpty(a); }
    IgnoreDocInner();
    var m := Merge(b, a);
    assert m.entries.Keys == {"a"};
    assert m.entries["a"] == MergeValue(Sub(inner2), Sub(inner1));
    assert m.entries == map["a" := Sub(Merge(inner2, inner1))];
  }

  // ---------------------------------------------------------------------------
  // require_file
  // ---------------------------------------------------------------------------

  /** The options `require_file` reads. `mixin` is `None` when not given (then `||=`
      makes it `:replace`); `namespace` is `None` when not given. */
  datatype FileOptions = FileOptions(mixin: Option<Mixin>, raiseMissingFile: bool, namespace: Option<string>)

  /** `MissingFile`, raised for an unresolved name when `:raise_missing_file` is set. */
  datatype FileError = MissingFile

  function MixinOf(opts: FileOptions): Mixin
  {
    match opts.mixin
    case Some(m) => m
    case None => Replace
  }

  predicate Resolves(name: string, fs: FileSystem) { FindFile(name, fs).Some? }

  predicate AnyMissing(names: seq<string>, fs: FileSystem)
  {
    exists i :: 0 <= i < |names| && !Resolves(names[i], fs)
  }

  /** The trees of the names that resolve, in the order the names were requested;
      unresolved names contribute nothing. */
  function Loaded(names: seq<string>, fs: FileSystem): (ts: seq<Tree>)
    ensures |ts| <= |names|
  {
    if names == [] then []
    else
      var init := Loaded(names[..|names| - 1], fs);
      match FindFile(names[|names| - 1], fs)
      case Some(path) => init + [fs.load(path)]
      case None => init
  }

  /** What `require_file` returns: `MissingFile` if it is to be raised for some name;
      otherwise the resolved sources folded under the policy, then wrapped. */
  function RequireFileResult(names: seq<string>, opts: FileOptions, fs: FileSystem): Result<Tree, FileError>
  {
    if opts.raiseMissingFile && AnyMissing(names, fs) then Failure(MissingFile)
    else Success(Namespaced(Combine(MixinOf(opts), Loaded(names, fs)), opts.namespace))
  }

  /** An unresolved name, when missing files are not raised, leaves the result as it
      would be without that name. */
  lemma SkipUnresolved(names: seq<string>, name: string, opts: FileOptions, fs: FileSystem)
    requires !Resolves(name, fs) && !opts.raiseMissingFile
    ensures RequireFileResult(names + [name], opts, fs) == RequireFileResult(names, opts, fs)
  {
    assert (names + [name])[..|names|] == names;
  }

  /** With `:raise_missing_file`, one unresolved name anywhere makes the call fail. */
  lemma RaiseOnUnresolved(names: seq<string>, i: nat, opts: FileOptions, fs: FileSystem)
    requires i < |names| && !Resolves(names[i], fs) && opts.raiseMissingFile
    ensures RequireFileResult(names, opts, fs) == Failure(MissingFile)
  {
  }

  /** With `:namespace`, the namespace path of the result holds exactly the merged tree. */
  lemma NamespaceHoldsMerged(names: seq<string>, opts: FileOptions, fs: FileSystem)
    requires opts.namespace.Some? && !(opts.raiseMissingFile && AnyMissing(names, fs))
    ensures RequireFileResult(names, opts, fs).Success?
    ensures At(Sub(RequireFileResult(names, opts, fs).value), SplitDots(opts.namespace.value))
         == Some(Sub(Combine(MixinOf(opts), Loaded(names, fs))))
  {
    WrapThenDescend(Combine(MixinOf(opts), Loaded(names, fs)), SplitDots(opts.namespace.value), []);
  }

  /** The documented namespace example: a source setting c.d = 1 and e.f = 2, loaded
      with `:namespace => 'a.b'`, gives a.b.c.d = 1. */
  lemma NamespaceDocExample()
    ensures
      var src := Tree(map["c" := Sub(Tree(map["d" := Num(1)])), "e" := Sub(Tree(map["f" := Num(2)]))]);
      Leaf(Sub(Namespaced(src, Some("a.b"))), ["a", "b", "c", "d"]) == Some(Num(1))
  {
    var src := Tree(map["c" := Sub(Tree(map["d" := Num(1)])), "e" := Sub(Tree(map["f" := Num(2)]))]);
    SplitDotsPair("a", "b");
    assert "a" + "." + "b" == "a.b";
    WrapThenDescend(src, ["a", "b"], ["c", "d"]);
    assert ["a", "b"] + ["c", "d"] == ["a", "b", "c", "d"];
    assert At(Sub(src), ["c", "d"]) == Some(Num(1));
  }

  /** Loads each requested file in order and folds it into the accumulator. */
  method RequireFile(names: seq<string>, opts: FileOptions, fs: FileSystem) returns (r: Result<Tree, FileError>)
    ensures r == RequireFileResult(names, opts, fs)
  {
    var mixin := MixinOf(opts);
    var o := Empty;
    var i := 0;
    while i < |names|
      invariant 0 <= i <= |names|
      invariant !(opts.raiseMissingFile && AnyMissing(names[..i], fs))
      invariant o == Combine(mixin, Loaded(names[..i], fs))
    {
      assert names[..i + 1][..i] == names[..i];
      var path := FindFile(names[i], fs);
      if path.None? {
        if opts.raiseMissingFile {
          return Failure(MissingFile);
        }
      } else {
        var t := fs.load(path.value);
        match mixin
        case Replace => o := Merge(o, t);
        case Ignore => o := Merge(t, o);
        case OtherMixin(_) =>
      }
      i := i + 1;
    }
    assert names[..i] == names;
    if opts.namespace.Some? {
      o := Wrap(o, SplitDots(opts.namespace.value));
    }
    r := Success(o);
  }
}
