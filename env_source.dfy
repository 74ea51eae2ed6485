/** `Require#require_env`: collect environment variables named by literal strings or
    picked out by patterns into a table of (path key, variable name), then store each
    variable's value, optionally transformed by the block, at the dotted path derived
    from its key. */
module EnvSource {
  import opened Results
  import opened ConfigTree
  import Text

  // ---------------------------------------------------------------------------
  // The environment and the specs
  // ---------------------------------------------------------------------------

  datatype EnvVar = EnvVar(name: string, value: string)

  /** The process environment, in the order `ENV.each` enumerates it. */
  type Environment = seq<EnvVar>

  /** `ENV[name]`: the variable's value, or `nil` when it is not set. */
  function EnvValue(env: Environment, name: string): (r: Value)
    ensures r == Nil <==> forall i :: 0 <= i < |env| ==> env[i].name != name
    ensures r != Nil ==> exists i :: 0 <= i < |env| && env[i].name == name && r == Str(env[i].value)
  {
    if env == [] then Nil
    else if env[0].name == name then Str(env[0].value)
    else
      var r := EnvValue(env[1..], name);
      assert forall i :: 1 <= i < |env| ==> env[i] == env[1..][i - 1];
      r
  }

  /** What matching a pattern against one variable name gives: no match, or a match
      together with its first capture group `$1`, which is `nil` when the pattern has no
      group. */
  datatype MatchResult = NoMatch | Matched(group1: Option<string>)

  /** One positional argument of `require_env`: a String, a Regexp (given by how it
      matches names), or an object of any other class. */
  datatype EnvSpec =
    | Literal(name: string)
    | Pattern(matches: string -> MatchResult)
    | Unsupported(shown: string)

  /** The exceptions `require_env` raises: `ArgumentError` for an unsupported spec, and
      the `NoMethodError` of calling `downcase` or `split` on a `nil` key, which a pattern
      without a capture group leaves in the table. */
  datatype EnvError = ArgumentError(shown: string) | NilKey

  // ---------------------------------------------------------------------------
  // The `envs` table
  // ---------------------------------------------------------------------------

  /** One pair of the `envs` hash: the path key (`nil` when the pattern captured nothing)
      and the name of the variable to read. */
  datatype Entry = Entry(key: Option<string>, env: string)

  /** `envs[k] = e` on an insertion-ordered hash: an existing key keeps its place and
      takes the new name; a new key goes last. */
  function Assign(h: seq<Entry>, k: Option<string>, e: string): (r: seq<Entry>)
  {
    if h == [] then [Entry(k, e)]
    else if h[0].key == k then [Entry(k, e)] + h[1..]
    else [h[0]] + Assign(h[1..], k, e)
  }

  /** `envs[k]`: the name stored under key `k`. */
  function Get(h: seq<Entry>, k: Option<string>): Option<string>
  {
    if h == [] then None
    else if h[0].key == k then Some(h[0].env)
    else Get(h[1..], k)
  }

  predicate KeysDistinct(h: seq<Entry>)
  {
    forall i, j :: 0 <= i < j < |h| ==> h[i].key != h[j].key
  }

  /** The keys of the pairs, in order. */
  function Keys(h: seq<Entry>): (r: seq<Option<string>>)
    ensures |r| == |h| && forall i :: 0 <= i < |h| ==> r[i] == h[i].key
  {
    seq(|h|, i requires 0 <= i < |h| => h[i].key)
  }

  /** Assignment reads back, and leaves every other key as it was. */
  lemma {:induction false} AssignGet(h: seq<Entry>, k: Option<string>, e: string)
    ensures Get(Assign(h, k, e), k) == Some(e)
    ensures forall k' :: k' != k ==> Get(Assign(h, k, e), k') == Get(h, k')
  {
    if h != [] && h[0].key != k {
      AssignGet(h[1..], k, e);
      assert Assign(h, k, e)[1..] == Assign(h[1..], k, e);
    }
  }

  lemma KeysAppend(a: seq<Entry>, b: seq<Entry>)
    ensures Keys(a + b) == Keys(a) + Keys(b)
  {
  }

  /** Assignment adds exactly its key and keeps every other key. */
  lemma {:induction false} AssignKeys(h: seq<Entry>, k: Option<string>, e: string)
    ensures forall x :: x in Keys(Assign(h, k, e)) <==> x in Keys(h) || x == k
  {
    var r := Assign(h, k, e);
    if h == [] {
      assert Keys(r) == [k];
    } else if h[0].key == k {
      assert Keys(r) == Keys(h);
    } else {
      AssignKeys(h[1..], k, e);
      var t := Assign(h[1..], k, e);
      assert r == [h[0]] + t;
      KeysAppend([h[0]], t);
      KeysAppend([h[0]], h[1..]);
      assert h == [h[0]] + h[1..];
    }
  }

  /** Assignment keeps the keys of a table distinct. */
  lemma {:induction false} AssignDistinct(h: seq<Entry>, k: Option<string>, e: string)
    requires KeysDistinct(h)
    ensures KeysDistinct(Assign(h, k, e))
  {
    if h != [] && h[0].key != k {
      var t := Assign(h[1..], k, e);
      var r := Assign(h, k, e);
      AssignDistinct(h[1..], k, e);
      AssignKeys(h[1..], k, e);
      assert r == [h[0]] + t;
      assert h[0].key !in Keys(h[1..]) by {
        assert forall x :: 0 <= x < |h| - 1 ==> Keys(h[1..])[x] == h[x + 1].key;
      }
      forall j | 0 < j < |r| ensures r[0].key != r[j].key {
        assert r[j].key == Keys(t)[j - 1];
      }
    }
  }

  /** The pairs a pattern contributes: one per matching variable, in enumeration order,
      keyed by the first capture group. */
  function PatternWrites(m: string -> MatchResult, env: Environment): seq<Entry>
  {
    if env == [] then []
    else
      var init := PatternWrites(m, env[..|env| - 1]);
      var v := env[|env| - 1];
      match m(v.name)
      case Matched(g) => init + [Entry(g, v.name)]
      case NoMatch => init
  }

  /** The pairs one spec contributes: a String maps to itself. */
  function SpecWrites(spec: EnvSpec, env: Environment): seq<Entry>
  {
    match spec
    case Literal(s) => [Entry(Some(s), s)]
    case Pattern(m) => PatternWrites(m, env)
    case Unsupported(_) => []
  }

  /** Every assignment the first loop makes, in order. */
  function Writes(specs: seq<EnvSpec>, env: Environment): seq<Entry>
  {
    if specs == [] then []
    else Writes(specs[..|specs| - 1], env) + SpecWrites(specs[|specs| - 1], env)
  }

  /** The `envs` hash after a sequence of assignments. */
  function Table(ws: seq<Entry>): seq<Entry>
  {
    if ws == [] then [] else
      var last := ws[|ws| - 1];
      Assign(Table(ws[..|ws| - 1]), last.key, last.env)
  }

  /** Reference reading of a key: the name of the last assignment to it. */
  function LastWrite(ws: seq<Entry>, k: Option<string>): Option<string>
  {
    if ws == [] then None
    else if ws[|ws| - 1].key == k then Some(ws[|ws| - 1].env)
    else LastWrite(ws[..|ws| - 1], k)
  }

  /** The table holds one pair per key ever assigned, and under each key the name from the
      last assignment: when several variables yield one key, the later one in the
      enumeration wins. */
  lemma {:induction false} TableIsLastWrite(ws: seq<Entry>)
    ensures KeysDistinct(Table(ws))
    ensures forall k :: k in Keys(Table(ws)) <==> k in Keys(ws)
    ensures forall k :: Get(Table(ws), k) == LastWrite(ws, k)
  {
    if ws != [] {
      var n := |ws| - 1;
      TableIsLastWrite(ws[..n]);
      AssignGet(Table(ws[..n]), ws[n].key, ws[n].env);
      AssignKeys(Table(ws[..n]), ws[n].key, ws[n].env);
      AssignDistinct(Table(ws[..n]), ws[n].key, ws[n].env);
      assert Keys(ws) == Keys(ws[..n]) + [ws[n].key];
    }
  }

  /** The first spec of an unsupported class, if any. */
  function FirstUnsupported(specs: seq<EnvSpec>): Option<string>
  {
    if specs == [] then None
    else if specs[0].Unsupported? then Some(specs[0].shown)
    else FirstUnsupported(specs[1..])
  }

  // ---------------------------------------------------------------------------
  // Key derivation and storing
  // ---------------------------------------------------------------------------

  /** The `:split` option: the default `/\Z/`, or a one-character string. */
  datatype Splitter = AtEnd | OnChar(sep: char)

  /** The options `require_env` reads; `split` is `None` when not given. The `:default`
      option is looked up as `:defualt`, so it never reaches the tree and is not here. */
  datatype EnvOptions = EnvOptions(caseSensitive: bool, split: Option<Splitter>, namespace: Option<string>)

  function Pieces(key: string, s: Splitter): seq<string>
  {
    match s
    case AtEnd => Text.SplitAtEnd(key)
    case OnChar(c) => Text.SplitOn(key, c)
  }

  /** The key as folded: downcased unless `:case_sensive`. */
  function Folded(key: string, opts: EnvOptions): string
  {
    if opts.caseSensitive then key else Text.Downcase(key)
  }

  /** The path a key is stored under: folded, split on the splitter, joined with dots,
      and read back as a dotted path. */
  function KeyPath(key: string, opts: EnvOptions): Path
  {
    var splitter := match opts.split case Some(s) => s case None => AtEnd;
    SplitDots(JoinDots(Pieces(Folded(key, opts), splitter)))
  }

  /** When the pieces of a folded key carry no dot, they are exactly the segments of the
      path it is stored under. */
  lemma KeyPathIsPieces(key: string, opts: EnvOptions, s: Splitter)
    requires opts.split == Some(s) || (opts.split == None && s == AtEnd)
    requires |Pieces(Folded(key, opts), s)| > 0 && Text.AllFree(Pieces(Folded(key, opts), s), '.')
    ensures KeyPath(key, opts) == Pieces(Folded(key, opts), s)
  {
    DotPathRoundTrip(Pieces(Folded(key, opts), s));
  }

  /** With the default splitter a one-segment key stays one segment: `b_c` is stored
      under `b_c`, downcased unless case-sensitive. */
  lemma DefaultSplitKeepsKey(key: string, opts: EnvOptions)
    requires opts.split == None && key != [] && key[|key| - 1] != '\n' && Text.Free(key, '.')
    ensures KeyPath(key, opts) == [Folded(key, opts)]
  {
    var f := Folded(key, opts);
    assert f != [] && f[|f| - 1] != '\n' && Text.Free(f, '.') by {
      Text.DowncaseLowers(key);
    }
    Text.SplitAtEndCuts(f);
    KeyPathIsPieces(key, opts, AtEnd);
  }

  /** The value stored for a variable: the block's result on `ENV[name]` when a block is
      given, `ENV[name]` itself otherwise. */
  function StoredValue(env: Environment, name: string, transform: Option<Value -> Value>): Value
  {
    match transform
    case Some(f) => f(EnvValue(env, name))
    case None => EnvValue(env, name)
  }

  /** One pass of the second loop: the pair's value stored at its key's path with
      `:build => true`; a `nil` key raises. */
  function StoreEntry(t: Tree, e: Entry, opts: EnvOptions, env: Environment, transform: Option<Value -> Value>): (r: Result<Tree, EnvError>)
    ensures r.Failure? <==> e.key == None
    ensures r.Failure? ==> r.error == NilKey
  {
    match e.key
    case None => Failure(NilKey)
    case Some(k) => Success(Put(t, KeyPath(k, opts), StoredValue(env, e.env, transform)))
  }

  /** The second loop: each pair of the table stored in turn. */
  function StoreAll(es: seq<Entry>, opts: EnvOptions, env: Environment, transform: Option<Value -> Value>): Result<Tree, EnvError>
  {
    if es == [] then Success(Empty)
    else
      match StoreAll(es[..|es| - 1], opts, env, transform)
      case Failure(e) => Failure(e)
      case Success(t) => StoreEntry(t, es[|es| - 1], opts, env, transform)
  }

  /** Storing fails exactly when some pair has a `nil` key. */
  lemma {:induction false} StoreAllFailsIffNil(es: seq<Entry>, opts: EnvOptions, env: Environment, transform: Option<Value -> Value>)
    ensures StoreAll(es, opts, env, transform).Failure? <==> None in Keys(es)
    ensures StoreAll(es, opts, env, transform).Failure? ==> StoreAll(es, opts, env, transform).error == NilKey
  {
    if es != [] {
      var n := |es| - 1;
      var init := es[..n];
      StoreAllFailsIffNil(init, opts, env, transform);
      var ks := Keys(es);
      assert ks == Keys(init) + [es[n].key];
      assert None in ks <==> None in Keys(init) || es[n].key == None;
      var prev := StoreAll(init, opts, env, transform);
      if prev.Success? {
        assert StoreAll(es, opts, env, transform) == StoreEntry(prev.value, es[n], opts, env, transform);
      }
    }
  }

  /** A pair whose path no later pair's path touches keeps its value in the tree. */
  lemma {:induction false} StoredAtPath(es: seq<Entry>, i: nat, k: string, opts: EnvOptions, env: Environment, transform: Option<Value -> Value>)
    requires i < |es| && es[i].key == Some(k)
    requires StoreAll(es, opts, env, transform).Success?
    requires forall j :: i < j < |es| && es[j].key.Some? ==> Diverge(KeyPath(es[j].key.value, opts), KeyPath(k, opts))
    ensures At(Sub(StoreAll(es, opts, env, transform).value), KeyPath(k, opts)) == Some(StoredValue(env, es[i].env, transform))
  {
    var n := |es| - 1;
    var t := StoreAll(es[..n], opts, env, transform).value;
    assert StoreAll(es, opts, env, transform).value == Put(t, KeyPath(es[n].key.value, opts), StoredValue(env, es[n].env, transform));
    if i == n {
      PutAt(t, KeyPath(k, opts), StoredValue(env, es[n].env, transform));
    } else {
      StoredAtPath(es[..n], i, k, opts, env, transform);
      PutElsewhere(t, KeyPath(es[n].key.value, opts), StoredValue(env, es[n].env, transform), KeyPath(k, opts));
    }
  }

  // ---------------------------------------------------------------------------
  // require_env
  // ---------------------------------------------------------------------------

  /** What `require_env` returns. */
  function RequireEnvResult(specs: seq<EnvSpec>, opts: EnvOptions, env: Environment, transform: Option<Value -> Value>): Result<Tree, EnvError>
  {
    match FirstUnsupported(specs)
    case Some(shown) => Failure(ArgumentError(shown))
    case None =>
      match StoreAll(Table(Writes(specs, env)), opts, env, transform)
      case Failure(e) => Failure(e)
      case Success(t) => Success(Namespaced(t, opts.namespace))
  }

  /** A spec that is neither a String nor a Regexp makes the call raise `ArgumentError`. */
  lemma UnsupportedSpecRaises(specs: seq<EnvSpec>, opts: EnvOptions, env: Environment, transform: Option<Value -> Value>, i: nat)
    requires i < |specs| && specs[i].Unsupported?
    ensures RequireEnvResult(specs, opts, env, transform).Failure?
    ensures RequireEnvResult(specs, opts, env, transform).error.ArgumentError?
  {
    FirstUnsupportedFound(specs, i);
  }

  /** The scan for an unsupported spec finds one whenever there is one. */
  lemma {:induction false} FirstUnsupportedFound(specs: seq<EnvSpec>, i: nat)
    requires i < |specs| && specs[i].Unsupported?
    ensures FirstUnsupported(specs).Some?
  {
    if i > 0 && !specs[0].Unsupported? {
      assert specs[1..][i - 1] == specs[i];
      FirstUnsupportedFound(specs[1..], i - 1);
    }
  }

  /** A pattern that matches a name without capturing puts a `nil` key in the writes. */
  lemma {:induction false} WritesHaveNilKey(specs: seq<EnvSpec>, env: Environment, i: nat, j: nat)
    requires i < |specs| && specs[i].Pattern? && j < |env|
    requires specs[i].matches(env[j].name) == Matched(None)
    ensures None in Keys(Writes(specs, env))
  {
    var n := |specs| - 1;
    KeysAppend(Writes(specs[..n], env), SpecWrites(specs[n], env));
    if i < n {
      assert specs[..n][i] == specs[i];
      WritesHaveNilKey(specs[..n], env, i, j);
    } else {
      PatternHasNilKey(specs[i].matches, env, j);
    }
  }

  lemma {:induction false} PatternHasNilKey(m: string -> MatchResult, env: Environment, j: nat)
    requires j < |env| && m(env[j].name) == Matched(None)
    ensures None in Keys(PatternWrites(m, env))
  {
    var n := |env| - 1;
    var init := PatternWrites(m, env[..n]);
    if j == n {
      KeysAppend(init, [Entry(None, env[n].name)]);
      assert Keys(PatternWrites(m, env))[|init|] == None;
    } else {
      assert env[..n][j] == env[j];
      PatternHasNilKey(m, env[..n], j);
      match m(env[n].name) {
        case Matched(g) => KeysAppend(init, [Entry(g, env[n].name)]);
        case NoMatch =>
      }
    }
  }

  /** A pattern with no capture group that matches some variable makes the call raise,
      unless an unsupported spec raised first: the match never silently stands for the
      whole name. */
  lemma NoCaptureRaises(specs: seq<EnvSpec>, opts: EnvOptions, env: Environment, transform: Option<Value -> Value>, i: nat, j: nat)
    requires i < |specs| && specs[i].Pattern? && j < |env|
    requires specs[i].matches(env[j].name) == Matched(None)
    ensures RequireEnvResult(specs, opts, env, transform).Failure?
  {
    WritesHaveNilKey(specs, env, i, j);
    TableIsLastWrite(Writes(specs, env));
    StoreAllFailsIffNil(Table(Writes(specs, env)), opts, env, transform);
  }

  /** A single String spec with a plain key (no dot, no final newline) and the default
      splitter gives a tree holding just that variable's value, under the key as folded. */
  lemma LiteralSpecStores(name: string, opts: EnvOptions, env: Environment, transform: Option<Value -> Value>)
    requires opts.split == None && opts.namespace == None
    requires name != [] && name[|name| - 1] != '\n' && Text.Free(name, '.')
    ensures RequireEnvResult([Literal(name)], opts, env, transform)
            == Success(Tree(map[Folded(name, opts) := StoredValue(env, name, transform)]))
  {
    var ws := [Entry(Some(name), name)];
    var v := StoredValue(env, name, transform);
    assert FirstUnsupported([Literal(name)]) == None;
    assert Writes([Literal(name)], env) == ws;
    assert ws[..0] == [];
    assert Table(ws) == ws;
    DefaultSplitKeepsKey(name, opts);
    assert StoreAll(ws, opts, env, transform) == Success(Put(Empty, [Folded(name, opts)], v));
  }

  // ---------------------------------------------------------------------------
  // The documented examples
  // ---------------------------------------------------------------------------

  /** `ENV["A"] = "1"`, `ENV["OPTIMISM_A"] = "a"`, `ENV["OPTIMISM_B_C"] = "b"`. */
  const DocEnv: Environment := [EnvVar("A", "1"), EnvVar("OPTIMISM_A", "a"), EnvVar("OPTIMISM_B_C", "b")]

  /** `/OPTIMISM_(.*)/` on names that start with its literal part: the rest of the name
      is the capture. */
  function OptimismPrefix(name: string): MatchResult
  {
    if |name| >= 9 && name[..9] == "OPTIMISM_" then Matched(Some(name[9..])) else NoMatch
  }

  /** `require_env("A")` gives `{a: "1"}`: the key is downcased by default. */
  lemma LiteralDocExample()
    ensures RequireEnvResult([Literal("A")], EnvOptions(false, None, None), DocEnv, None)
            == Success(Tree(map["a" := Str("1")]))
  {
    LiteralSpecStores("A", EnvOptions(false, None, None), DocEnv, None);
    assert Text.Downcase("A") == "a";
  }

  /** `require_env("A", :case_sensive => true)` gives `{A: "1"}`. */
  lemma CaseSensitiveDocExample()
    ensures RequireEnvResult([Literal("A")], EnvOptions(true, None, None), DocEnv, None)
            == Success(Tree(map["A" := Str("1")]))
  {
    LiteralSpecStores("A", EnvOptions(true, None, None), DocEnv, None);
  }

  /** The table `/OPTIMISM_(.*)/` collects from the example environment. */
  lemma PrefixTable()
    ensures Table(Writes([Pattern(OptimismPrefix)], DocEnv)) == DocTable
  {
    assert DocEnv[..2][..1] == [DocEnv[0]] && DocEnv[..1][..0] == [];
    assert OptimismPrefix("A") == NoMatch;
    assert "OPTIMISM_A"[..9] == "OPTIMISM_" && "OPTIMISM_B_C"[..9] == "OPTIMISM_";
    var ws := DocTable;
    assert PatternWrites(OptimismPrefix, DocEnv[..1]) == [];
    assert PatternWrites(OptimismPrefix, DocEnv[..2]) == ws[..1];
    assert PatternWrites(OptimismPrefix, DocEnv) == ws;
    assert Writes([Pattern(OptimismPrefix)], DocEnv) == ws;
    assert ws[..1][..0] == [];
    assert Table(ws[..1]) == [ws[0]];
    assert Assign([ws[0]], ws[1].key, ws[1].env) == [ws[0]] + Assign([], ws[1].key, ws[1].env);
  }

  const DocTable: seq<Entry> := [Entry(Some("A"), "OPTIMISM_A"), Entry(Some("B_C"), "OPTIMISM_B_C")]

  /** The values of the two variables the example pattern picks. */
  lemma DocEnvValues()
    ensures EnvValue(DocEnv, "OPTIMISM_A") == Str("a") && EnvValue(DocEnv, "OPTIMISM_B_C") == Str("b")
  {
    assert DocEnv[1..][1..] == [DocEnv[2]];
  }

  /** Storing a two-pair table: the first pair's value, then the second's. */
  lemma StoreTwo(a: Entry, b: Entry, ka: string, kb: string, opts: EnvOptions, env: Environment, transform: Option<Value -> Value>)
    requires a.key == Some(ka) && b.key == Some(kb)
    ensures StoreAll([a, b], opts, env, transform)
            == Success(Put(Put(Empty, KeyPath(ka, opts), StoredValue(env, a.env, transform)), KeyPath(kb, opts), StoredValue(env, b.env, transform)))
  {
    assert [a, b][..1] == [a] && [a][..0] == [];
    var t := Put(Empty, KeyPath(ka, opts), StoredValue(env, a.env, transform));
    assert StoreAll([a], opts, env, transform) == StoreEntry(Empty, a, opts, env, transform) == Success(t);
    assert StoreAll([a, b], opts, env, transform) == StoreEntry(t, b, opts, env, transform);
  }

  /** The keys the example pattern captures, downcased. */
  lemma DocKeysDowncased()
    ensures Text.Downcase("A") == "a" && Text.Downcase("B_C") == "b_c"
  {
    assert Text.Downcase("C") == "c";
    assert Text.Downcase("_C") == "_c";
  }

  /** With the table fixed, the example call stores it and wraps nothing. */
  lemma PrefixResult(opts: EnvOptions, pa: Path, pb: Path)
    requires opts.namespace == None
    requires KeyPath("A", opts) == pa && KeyPath("B_C", opts) == pb
    ensures RequireEnvResult([Pattern(OptimismPrefix)], opts, DocEnv, None)
            == Success(Put(Put(Empty, pa, Str("a")), pb, Str("b")))
  {
    assert FirstUnsupported([Pattern(OptimismPrefix)]) == None;
    PrefixTable();
    DocEnvValues();
    StoreTwo(DocTable[0], DocTable[1], "A", "B_C", opts, DocEnv, None);
  }

  /** The default splitter keeps each captured key whole, downcased. */
  lemma DefaultDocKeys(opts: EnvOptions)
    requires opts == EnvOptions(false, None, None)
    ensures KeyPath("A", opts) == ["a"] && KeyPath("B_C", opts) == ["b_c"]
  {
    DocKeysDowncased();
    DefaultSplitKeepsKey("A", opts);
    assert Text.Free("B_C", '.');
    DefaultSplitKeepsKey("B_C", opts);
  }

  /** `require_env(/OPTIMISM_(.*)/)` gives `{a: "a", b_c: "b"}`: the default splitter
      keeps `b_c` as one segment. */
  lemma PatternDocExample()
    ensures RequireEnvResult([Pattern(OptimismPrefix)], EnvOptions(false, None, None), DocEnv, None)
            == Success(Tree(map["a" := Str("a"), "b_c" := Str("b")]))
  {
    var opts := EnvOptions(false, None, None);
    DefaultDocKeys(opts);
    PrefixResult(opts, ["a"], ["b_c"]);
  }

  /** `require_env(/OPTIMISM_(.*)/, :split => "_")` gives `{a: "a", b: {c: "b"}}`. */
  lemma SplitDocExample()
    ensures RequireEnvResult([Pattern(OptimismPrefix)], EnvOptions(false, Some(OnChar('_')), None), DocEnv, None)
            == Success(Tree(map["a" := Str("a"), "b" := Sub(Tree(map["c" := Str("b")]))]))
  {
    var opts := EnvOptions(false, Some(OnChar('_')), None);
    DocKeysDowncased();
    SplitDocKeys();
    KeyPathIsPieces("A", opts, OnChar('_'));
    KeyPathIsPieces("B_C", opts, OnChar('_'));
    PrefixResult(opts, ["a"], ["b", "c"]);
    SplitDocTree();
  }

  /** The tree the split example builds: `a` first, then `b.c` under a fresh `b`. */
  lemma SplitDocTree()
    ensures Put(Put(Empty, ["a"], Str("a")), ["b", "c"], Str("b"))
            == Tree(map["a" := Str("a"), "b" := Sub(Tree(map["c" := Str("b")]))])
  {
    var t := Put(Empty, ["a"], Str("a"));
    assert ChildFor(t, "b") == Empty;
    assert Put(Empty, ["c"], Str("b")) == Tree(map["c" := Str("b")]);
  }

  /** `"a".split("_")` and `"b_c".split("_")`. */
  lemma SplitDocKeys()
    ensures Text.SplitOn("a", '_') == ["a"] && Text.SplitOn("b_c", '_') == ["b", "c"]
  {
    Text.FieldsOfFree("a", '_');
    Text.FieldsPair("b", "c", '_');
    assert "b" + ['_'] + "c" == "b_c";
  }

  /** `ENV.each { ... envs[$1] = key }` for one pattern: every matching name is assigned
      under its capture, in enumeration order. */
  method CollectPattern(m: string -> MatchResult, env: Environment, ghost before: seq<Entry>, envs0: seq<Entry>)
    returns (envs: seq<Entry>)
    requires envs0 == Table(before)
    ensures envs == Table(before + PatternWrites(m, env))
  {
    envs := envs0;
    assert env[..0] == [] && before + [] == before;
    var j := 0;
    while j < |env|
      invariant 0 <= j <= |env|
      invariant envs == Table(before + PatternWrites(m, env[..j]))
    {
      assert env[..j + 1][..j] == env[..j];
      match m(env[j].name) {
        case Matched(g) =>
          assert before + PatternWrites(m, env[..j + 1]) == (before + PatternWrites(m, env[..j])) + [Entry(g, env[j].name)];
          envs := Assign(envs, g, env[j].name);
        case NoMatch =>
      }
      j := j + 1;
    }
    assert env[..j] == env;
  }

  /** The first loop: each spec in turn adds its pairs to the `envs` hash; an
      unsupported spec raises at once. */
  method CollectEnvs(specs: seq<EnvSpec>, env: Environment) returns (r: Result<seq<Entry>, EnvError>)
    ensures r == match FirstUnsupported(specs)
                 case Some(shown) => Failure(ArgumentError(shown))
                 case None => Success(Table(Writes(specs, env)))
  {
    var envs: seq<Entry> := [];
    var i := 0;
    while i < |specs|
      invariant 0 <= i <= |specs|
      invariant FirstUnsupported(specs) == FirstUnsupported(specs[i..])
      invariant envs == Table(Writes(specs[..i], env))
    {
      assert specs[..i + 1][..i] == specs[..i];
      match specs[i] {
        case Literal(s) =>
          envs := Assign(envs, Some(s), s);
        case Pattern(m) =>
          envs := CollectPattern(m, env, Writes(specs[..i], env), envs);
        case Unsupported(shown) =>
          return Failure(ArgumentError(shown));
      }
      assert specs[i..][1..] == specs[i + 1..];
      i := i + 1;
    }
    assert specs[..i] == specs;
    r := Success(envs);
  }

  /** The second loop: each pair of the table stored, in order, into a fresh tree. */
  method StoreEnvs(envs: seq<Entry>, opts: EnvOptions, env: Environment, transform: Option<Value -> Value>)
    returns (r: Result<Tree, EnvError>)
    ensures r == StoreAll(envs, opts, env, transform)
  {
    var o := Empty;
    var k := 0;
    while k < |envs|
      invariant 0 <= k <= |envs|
      invariant StoreAll(envs[..k], opts, env, transform) == Success(o)
    {
      assert envs[..k + 1][..k] == envs[..k];
      assert StoreAll(envs[..k + 1], opts, env, transform) == StoreEntry(o, envs[k], opts, env, transform);
      match envs[k].key {
        case None =>
          StoreAllFailsIffNil(envs, opts, env, transform);
          assert Keys(envs)[k] == None;
          return Failure(NilKey);
        case Some(key) =>
          var path := KeyPath(key, opts);
          var value := StoredValue(env, envs[k].env, transform);
          o := Put(o, path, value);
      }
      k := k + 1;
    }
    assert envs[..k] == envs;
    r := Success(o);
  }

  /** Collects the spec table, stores each pair into a fresh tree, and wraps it under the
      namespace when one is given. */
  method RequireEnv(specs: seq<EnvSpec>, opts: EnvOptions, env: Environment, transform: Option<Value -> Value>)
    returns (r: Result<Tree, EnvError>)
    ensures r == RequireEnvResult(specs, opts, env, transform)
  {
    var envs := CollectEnvs(specs, env);
    if envs.Failure? {
      return Failure(envs.error);
    }
    var o := StoreEnvs(envs.value, opts, env, transform);
    if o.Failure? {
      return o;
    }
    r := Success(Namespaced(o.value, opts.namespace));
  }
}
