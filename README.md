# Optimism::Require in Dafny

This project models the source-merging engine of the Optimism configuration library,
`Optimism::Require` in `lib/optimism/require.rb`. The engine gathers configuration from
three kinds of source and combines it into one tree:

- **Files** (`require_file`, `find_file`). Each requested name is classified as
  home/relative (`~`, `./`, `../`), absolute, or a logical name looked up on the load path,
  and resolved to a file or to nothing. An unresolved name is skipped, or raises
  `MissingFile` under `:raise_missing_file`. The loaded trees are folded left to right
  under the `:mixin` policy (`:replace`, the default: later sources win; `:ignore`:
  earlier sources win). The result is optionally wrapped under a dotted `:namespace`.
- **Environment variables** (`require_env`). String specs and Regexp specs collect an
  ordered `envs` table of (path key, variable name) pairs; any other spec raises
  `ArgumentError`. Each key is then downcased unless `:case_sensive`, split on `:split`
  (default `/\Z/`), joined with dots, and the variable's value, passed through the block
  when one is given, is stored at that path with `:build => true`.
- **Interactive input** (`require_input`, `_require_input`). The line read is stripped.
  A blank line selects `:default`, the block is applied, and the value is set at the path
  in a fresh tree. The instance form fills in the default from the node itself, turns
  `:build` off unless it was asked for, and merges the fresh tree into the node with `<<`.

The tree primitives those methods call are defined in `ConfigTree`, following the
documented examples:

- `<<` is a recursive-overwrite merge (`Merge`).
- `_set2` with `:build => true` builds missing or scalar intermediate nodes (`Put`).
- `_set2` without `:build` needs every intermediate node to exist already (`PutExisting`).
- `_walk!("-ns", :build => true)` wraps a tree under a namespace (`Wrap`).

Files:

- `results.dfy` (module `Results`): `Option`, `Result`
- `text.dfy` (module `Text`): ASCII `downcase`, `strip`, `split` on one character or at `/\Z/`, `join`
- `tree.dfy` (module `ConfigTree`): the configuration tree, lookup, merge, set with and without build, namespace wrapping
- `file_source.dfy` (module `FileSource`): `find_file`, the two fold policies, `require_file` (method with the loop)
- `env_source.dfy` (module `EnvSource`): the spec table, key derivation, `require_env` (methods with the two loops)
- `input_source.dfy` (module `InputSource`): value choice, `require_input`, `_require_input` (class `Optimism`)

Loops in the source are methods with loop invariants. Each method is proved equal to a
specification function (`RequireFileResult`, `RequireEnvResult`, `Table`, `StoreAll`,
`InstanceResult`), and the lemmas state what the source promises about those functions.

### Where the model follows the code rather than the documented design

- A Regexp spec without a capture group is not rejected when the specs are collected.
  `envs[$1] = key` stores the pair under a `nil` key. The second loop then calls
  `downcase` or `split` on `nil`, which raises. The model keeps this: `NilKey` is raised
  from the storing pass (`NoCaptureRaises`, `StoreAllFailsIffNil`).
- The `:default` option of `require_env` is read as `opts[:defualt]` (line 136), so it
  never reaches the tree; the model has no default for environment trees.
- `find_file` tests `%r!^~|^\.\.?/!`. Ruby's `^` matches at the start of any line, so a
  name whose later line starts with `~`, `./` or `../` takes the home/relative branch
  (`LaterLineCounts`). For one-line names this is the plain prefix test
  (`OneLineNameForm`).
- `require_input` documents a `:namespace` option (line 160) but never applies it; the
  model has none.
- `_require_input` sets `:build` to `false` unless it was given. On the fresh tree a
  dotted key then cannot be set, so the documented `_require_input("how old are you?",
  "my.age")` fails and leaves the node as it was (`InstanceDocExample`,
  `InstanceDottedKeyFails`). With `:build => true` a blank answer leaves the node
  unchanged (`BlankInputKeepsNode`).
- Under `:ignore` the "first source wins" rule holds for scalars: the first source that
  holds a scalar at a path, every earlier source being absent there, decides it
  (`IgnoreFirstWins`). When sources disagree on the shape of a path, no simpler rule
  holds. An example is `{x: {}}`, `{x: 1}`, `{x: {y: 3}}` at `x.y`.

## Model

| member | source | states |
|---|---|---|
| `Text.Downcase` | lib/optimism/require.rb:138 | the downcased key has the same length and each character is its ASCII lower-case form |
| `Text.DowncaseLowers` | lib/optimism/require.rb:138 | a downcased key has no upper-case letter left, and every other character is kept |
| `Text.DowncaseIdempotent` | lib/optimism/require.rb:138 | downcasing an already folded key changes nothing |
| `Text.StripIsTrimmedSlice` | lib/optimism/require.rb:167 | the stripped line is a contiguous slice of the line with only whitespace cut before it and only whitespace or NUL after it, and it has no such character at either end |
| `Text.StripEmptyIff` | lib/optimism/require.rb:167-168 | a line strips to the empty string exactly when every character is whitespace or NUL |
| `Text.StripLine` | lib/optimism/require.rb:167 | a line read with its newline strips to the text typed |
| `Text.FieldsAreFree` | lib/optimism/require.rb:139 | no piece of a split contains the separator |
| `Text.JoinFields` | lib/optimism/require.rb:139 | joining the split pieces with the separator gives the string back |
| `Text.FieldsJoin` | lib/optimism/require.rb:139 | splitting a join of separator-free pieces gives the pieces back |
| `Text.FieldsSingleIff` | lib/optimism/require.rb:171 | a string splits into one piece exactly when it has no separator |
| `Text.FieldsPair` | lib/optimism/require.rb:139 | two separator-free pieces around one separator split back into those two pieces |
| `Text.SplitOnJoin` | lib/optimism/require.rb:139 | `split` with a one-character separator only drops trailing empty pieces; the raw pieces join back to the key |
| `Text.SplitAtEndCuts` | lib/optimism/require.rb:134 | splitting at `/\Z/` only cuts, into non-empty pieces that concatenate to the key, and keeps a key not ending in a newline whole |
| `ConfigTree.DotPathRoundTrip` | lib/optimism/require.rb:139 | a path of dot-free segments, joined with dots, reads back as the same path |
| `ConfigTree.SplitDotsPair` | lib/optimism/require.rb:171 | a two-segment dotted key without further dots reads as exactly those two segments |
| `ConfigTree.Merge` | lib/optimism/require.rb:75 | the keys of `a << b` are exactly the keys of `a` and of `b` |
| `ConfigTree.MergeLeaf` | lib/optimism/require.rb:73-78 | after `a << b` the scalar at any path is `b`'s unless `b` is absent there, in which case it is `a`'s |
| `ConfigTree.MergeAbsent` | lib/optimism/require.rb:73-78 | a merge is absent at a path where both sides are |
| `ConfigTree.MergeEmpty` | lib/optimism/require.rb:60 | merging with the fresh empty tree, in either direction, changes nothing |
| `ConfigTree.Put` | lib/optimism/require.rb:141 | setting with build adds exactly the path's first segment to the root's keys |
| `ConfigTree.PutAt` | lib/optimism/require.rb:141 | after setting with build, the path holds exactly the value set |
| `ConfigTree.PutElsewhere` | lib/optimism/require.rb:141 | setting with build leaves every path that parts ways with the set path as it was |
| `ConfigTree.PutExistingIff` | lib/optimism/require.rb:171 | setting without build succeeds exactly when the parent of the path is already a subtree, and then agrees with setting with build |
| `ConfigTree.MergeSameLeaf` | lib/optimism/require.rb:219 | merging in a fresh tree that re-states the scalar already at a path changes nothing |
| `ConfigTree.WrapThenDescend` | lib/optimism/require.rb:82 | descending the namespace in the wrapped tree gives exactly the tree wrapped, every path below reads as before, and the root holds only the namespace's first segment |
| `FileSource.OneLineNameForm` | lib/optimism/require.rb:181 | a name without a newline is home/relative exactly when it starts with `~`, `./` or `../` |
| `FileSource.LaterLineCounts` | lib/optimism/require.rb:181 | a later line starting with `./` makes a name home/relative although it does not start with a marker |
| `FileSource.FindFile` | lib/optimism/require.rb:177-198 | each of the three name forms is resolved by its own branch: expand and check existence, check existence as given, or search; a path returned outside the search branch exists |
| `FileSource.ReplaceLastWins` | lib/optimism/require.rb:57-75 | under `:replace` the scalar at a path is the one from the last source present there; sources absent there do not disturb it |
| `FileSource.ReplaceNoneDefined` | lib/optimism/require.rb:73-75 | under `:replace` a path that no source reaches is absent from the result |
| `FileSource.IgnoreNoneDefined` | lib/optimism/require.rb:76-78 | under `:ignore` a path that no source reaches is absent from the result |
| `FileSource.IgnoreFirstWins` | lib/optimism/require.rb:76-78 | under `:ignore` the first source holding a scalar at a path, every earlier source being absent there, keeps it |
| `FileSource.ReplaceExample` | lib/optimism/require.rb:73-75 | `{x: 1, y: 2}` then `{x: 3, z: 4}` under `:replace` give `{x: 3, y: 2, z: 4}` |
| `FileSource.IgnoreExample` | lib/optimism/require.rb:76-78 | the same two sources under `:ignore` give `{x: 1, y: 2, z: 4}` |
| `FileSource.IgnoreDocExample` | lib/optimism/require.rb:33-44 | the documented `:ignore` example: `a.b` is 1, `a.c` is "foo", `a.d` is "bar" |
| `FileSource.SkipUnresolved` | lib/optimism/require.rb:62-66 | without `:raise_missing_file` an unresolved name leaves the result as if it had not been requested |
| `FileSource.RaiseOnUnresolved` | lib/optimism/require.rb:63-64 | with `:raise_missing_file` one unresolved name anywhere makes the call fail with `MissingFile` |
| `FileSource.NamespaceHoldsMerged` | lib/optimism/require.rb:82 | with `:namespace`, the namespace path of the result holds exactly the merged tree |
| `FileSource.NamespaceDocExample` | lib/optimism/require.rb:17-22 | `c.d = 1` loaded under namespace `a.b` is found at `a.b.c.d` |
| `FileSource.RequireFile` | lib/optimism/require.rb:54-85 | the loop resolves, skips or raises, and folds under the policy exactly as `RequireFileResult` states, then wraps |
| `EnvSource.EnvValue` | lib/optimism/require.rb:140 | `ENV[name]` is `nil` exactly when no variable has the name, and otherwise the value of a variable with that name |
| `EnvSource.AssignGet` | lib/optimism/require.rb:125-128 | a hash assignment reads back and leaves every other key's entry as it was |
| `EnvSource.AssignKeys` | lib/optimism/require.rb:125-128 | a hash assignment adds exactly its key to the keys |
| `EnvSource.AssignDistinct` | lib/optimism/require.rb:125-128 | a hash assignment keeps keys distinct |
| `EnvSource.TableIsLastWrite` | lib/optimism/require.rb:119-132 | the `envs` table has one pair per key ever assigned, holding the name from the last assignment to that key |
| `EnvSource.KeyPathIsPieces` | lib/optimism/require.rb:138-139 | when the pieces of the folded key hold no dot, they are exactly the path the value is stored under |
| `EnvSource.DefaultSplitKeepsKey` | lib/optimism/require.rb:134-139 | with the default splitter a plain key is one segment, downcased unless case-sensitive |
| `EnvSource.StoreEntry` | lib/optimism/require.rb:138-141 | storing one pair fails exactly when its key is `nil` |
| `EnvSource.StoreAllFailsIffNil` | lib/optimism/require.rb:137-142 | the storing loop fails exactly when some pair of the table has a `nil` key |
| `EnvSource.StoredAtPath` | lib/optimism/require.rb:137-142 | a pair whose path no later pair's path touches keeps its (transformed) value at that path |
| `EnvSource.UnsupportedSpecRaises` | lib/optimism/require.rb:129-130 | a spec that is neither String nor Regexp makes the call raise `ArgumentError` |
| `EnvSource.NoCaptureRaises` | lib/optimism/require.rb:122-126 | a Regexp without a capture group that matches some name makes the call fail instead of standing for the whole name |
| `EnvSource.LiteralSpecStores` | lib/optimism/require.rb:127-141 | a single String spec gives a tree holding only that variable's (transformed) value, under the folded key |
| `EnvSource.LiteralDocExample` | lib/optimism/require.rb:94-99 | `require_env("A")` with `A=1` gives `{a: "1"}` |
| `EnvSource.CaseSensitiveDocExample` | lib/optimism/require.rb:100 | with `:case_sensive` it gives `{A: "1"}` |
| `EnvSource.PrefixTable` | lib/optimism/require.rb:122-126 | `/OPTIMISM_(.*)/` collects `A` and `B_C` from the example environment, in enumeration order |
| `EnvSource.PatternDocExample` | lib/optimism/require.rb:103 | `require_env(/OPTIMISM_(.*)/)` gives `{a: "a", b_c: "b"}` |
| `EnvSource.SplitDocExample` | lib/optimism/require.rb:104 | with `:split => "_"` it gives `{a: "a", b: {c: "b"}}` |
| `EnvSource.CollectPattern` | lib/optimism/require.rb:122-126 | the loop over `ENV` assigns every matching name under its capture, as the table of the pattern's writes |
| `EnvSource.CollectEnvs` | lib/optimism/require.rb:119-132 | the first loop raises on the first unsupported spec, and otherwise builds the table of all writes |
| `EnvSource.StoreEnvs` | lib/optimism/require.rb:137-142 | the second loop stores the table pair by pair as `StoreAll` states |
| `EnvSource.RequireEnv` | lib/optimism/require.rb:114-147 | the whole call equals `RequireEnvResult`: collect, store, wrap |
| `InputSource.ChooseValueIff` | lib/optimism/require.rb:167-169 | a blank line selects the default, any other line its non-empty stripped text, and the block's result on that choice is what is stored |
| `InputSource.RequireInput` | lib/optimism/require.rb:163-174 | the call fails only at end of input or, without build, on the path; the fresh tree holds only the path's first segment |
| `InputSource.InputStored` | lib/optimism/require.rb:165-173 | when a line is read and the path can be set, the result holds the chosen value at the path |
| `InputSource.NoBuildNeedsOneSegment` | lib/optimism/require.rb:165-171 | without build, setting on the fresh tree succeeds exactly when the key has no dot |
| `InputSource.BlankInputDocExample` | lib/optimism/require.rb:154-155 | an empty answer with `default: "foo"` stores "foo" at `my.name` |
| `InputSource.GivenInputDocExample` | lib/optimism/require.rb:154-155 | the answer `bar` stores "bar", ignoring the default |
| `InputSource.InstanceOptions` | lib/optimism/require.rb:217-218 | build is on only when asked for; a truthy default is kept, otherwise the node's current value at the key is the default |
| `InputSource.BlankInputKeepsNode` | lib/optimism/require.rb:216-220 | without a default of its own, a blank answer re-stores the current scalar and leaves the node exactly as it was |
| `InputSource.InstanceDottedKeyFails` | lib/optimism/require.rb:217-219 | without `:build => true` a dotted key cannot be set, so the call fails |
| `InputSource.InstanceDocExample` | lib/optimism/require.rb:209-212 | the documented `_require_input` on `my.age` fails without build, and the node keeps `1` |
| `InputSource.InstanceBuildDocExample` | lib/optimism/require.rb:209-212 | with build and a blank answer the node with `my.age = 1` is unchanged |
| `InputSource.Optimism.RequireInputInto` | lib/optimism/require.rb:216-221 | the node becomes the merge of itself with the fresh tree, or is left unchanged when the call fails |

## Left out

- Filesystem access is not modelled. `File.expand_path`, `File.absolute_path`,
  `File.exists?` and `File.read` plus parsing are fields of a `FileSystem` value given as
  input.
- The `Hike::Trail` lookup along `$:` with the `.rb` extension is not modelled. It is a
  foreign library with its own search order, and the model takes it as a function from
  name to optional path.
- The grammar that `Optimism(File.read(path))` parses is not part of this model; a loaded
  file is the tree that `load` returns.
- `:ignore_syntax_error` and the `rescue error` clause are not modelled. They depend on
  Ruby's exception dispatch, including a possibly `nil` tree afterwards.
- Exceptions raised by a block (transform) are not modelled. A block is a total function
  on values.
- `print` and `gets` are not modelled. The line read is a parameter, and `None` stands
  for `gets` returning `nil`. The prompt text is not modelled.
- The live `ENV` and the Ruby regexp engine are not modelled. The environment is a
  sequence in enumeration order, and a Regexp is given by a function from a name to "no
  match" or "match with this first capture".
- `:split` is modelled only as the default `/\Z/` or a one-character string. A single
  space (which makes Ruby split on runs of whitespace) and general regexps are left out.
- Case folding is ASCII only. `String#downcase` on other letters is left out.
- Hash insertion order inside configuration trees is not represented. It plays no part in
  merging or lookup. The order of the `envs` table is modelled.
- `ConfigTree.Put`: a scalar standing where `:build => true` must descend is replaced by a
  fresh subtree. `ConfigTree.PutExisting` fails on a missing or scalar intermediate node.
  The code of `_set2` is not part of this model, and whether it raises or returns quietly
  in that case is left out; either way the node `_require_input` merges into is left as
  it was.
- `Optimism.new`'s `:default` (the value returned for missing keys) is left out; it never
  reaches environment trees, and the other sources do not set it.
- The mutation of the caller's options hash (`opts[:build] = …`, `opts[:default] ||= …`)
  is not modelled. Options are values passed to each call.
- An empty `:namespace` string is truthy in Ruby and wraps under a single empty segment
  here; what `_walk!("-")` does with it is not part of this model.
- Concurrency is not modelled: the engine is single-threaded.
