/** The string operations the loaders rely on: `String#downcase`, `String#strip`,
    `String#split` with a one-character separator or with `/\Z/`, and `Array#join`. */
module Text {

  // ---------------------------------------------------------------------------
  // Case folding
  // ---------------------------------------------------------------------------

  predicate IsUpper(c: char) { 'A' <= c <= 'Z' }

  function DowncaseChar(c: char): char
  {
    if IsUpper(c) then (c as int + 32) as char else c
  }

  /** `String#downcase` on ASCII letters. */
  function Downcase(s: string): (r: string)
    ensures |r| == |s|
    ensures forall i :: 0 <= i < |s| ==> r[i] == DowncaseChar(s[i])
  {
    if s == [] then [] else [DowncaseChar(s[0])] + Downcase(s[1..])
  }

  /** A downcased key has no upper-case letter left, and every other character is kept. */
  lemma DowncaseLowers(s: string)
    ensures forall i :: 0 <= i < |s| ==> !IsUpper(Downcase(s)[i])
    ensures forall i :: 0 <= i < |s| && !IsUpper(s[i]) ==> Downcase(s)[i] == s[i]
  {
  }

  /** Downcasing twice is downcasing once. */
  lemma DowncaseIdempotent(s: string)
    ensures Downcase(Downcase(s)) == Downcase(s)
  {
    DowncaseLowers(s);
  }

  // ---------------------------------------------------------------------------
  // Stripping
  // ---------------------------------------------------------------------------

  /** The characters `String#strip` treats as whitespace on both sides. */
  predicate IsSpace(c: char)
  {
    c == ' ' || c == '\t' || c == '\n' || c == '\U{B}' || c == '\U{C}' || c == '\r'
  }

  /** Trailing characters `String#rstrip` removes: whitespace and NUL. */
  predicate IsTrailingBlank(c: char) { IsSpace(c) || c == '\0' }

  function LStrip(s: string): (r: string)
    ensures |r| <= |s| && r == s[|s| - |r|..]
    ensures r == [] || !IsSpace(r[0])
    ensures forall i :: 0 <= i < |s| - |r| ==> IsSpace(s[i])
  {
    if s != [] && IsSpace(s[0]) then LStrip(s[1..]) else s
  }

  function RStrip(s: string): (r: string)
    ensures |r| <= |s| && r == s[..|r|]
    ensures r == [] || !IsTrailingBlank(r[|r| - 1])
    ensures forall i :: |r| <= i < |s| ==> IsTrailingBlank(s[i])
  {
    if s != [] && IsTrailingBlank(s[|s| - 1]) then RStrip(s[..|s| - 1]) else s
  }

  /** `String#strip`: leading whitespace, then trailing whitespace and NULs, removed. */
  function Strip(s: string): (r: string)
  {
    RStrip(LStrip(s))
  }

  /** `s[i..j]` is what is left of `s` once only whitespace is cut before `i` and only
      whitespace or NULs from `j` on. */
  predicate TrimmedAt(s: string, i: int, j: int)
  {
    && 0 <= i <= j <= |s|
    && (forall k :: 0 <= k < i ==> IsSpace(s[k]))
    && (forall k :: j <= k < |s| ==> IsTrailingBlank(s[k]))
  }

  /** The stripped line is a contiguous piece of the input with only whitespace cut away
      around it, and it neither starts with whitespace nor ends with whitespace or NUL. */
  lemma StripIsTrimmedSlice(s: string)
    ensures exists i, j :: TrimmedAt(s, i, j) && Strip(s) == s[i..j]
    ensures Strip(s) == [] || (!IsSpace(Strip(s)[0]) && !IsTrailingBlank(Strip(s)[|Strip(s)| - 1]))
  {
    var l := LStrip(s);
    var r := RStrip(l);
    var i := |s| - |l|;
    var j := i + |r|;
    assert TrimmedAt(s, i, j) && r == s[i..j] by {
      RStripInside(s, i, l, r);
    }
  }

  /** Trailing blanks cut from a suffix of `s` are trailing blanks of `s`. */
  lemma RStripInside(s: string, i: nat, l: string, r: string)
    requires i <= |s| && l == s[i..] && r == RStrip(l)
    ensures r == s[i..i + |r|]
    ensures forall k :: i + |r| <= k < |s| ==> IsTrailingBlank(s[k])
  {
    forall k | i + |r| <= k < |s| ensures IsTrailingBlank(s[k]) {
      assert s[k] == l[k - i];
    }
  }

  /** A line strips to nothing exactly when every character in it is whitespace or NUL. */
  lemma StripEmptyIff(s: string)
    ensures Strip(s) == [] <==> forall k :: 0 <= k < |s| ==> IsTrailingBlank(s[k])
  {
    StripIsTrimmedSlice(s);
    var i, j :| TrimmedAt(s, i, j) && Strip(s) == s[i..j];
    if Strip(s) == [] {
      forall k | 0 <= k < |s| ensures IsTrailingBlank(s[k]) {
        if k < i {
          assert IsSpace(s[k]);
        }
      }
    } else {
      assert s[j - 1] == Strip(s)[|Strip(s)| - 1];
    }
  }

  /** A line read with its newline strips to the text typed, when that text has no
      whitespace at either end. */
  lemma StripLine(s: string)
    requires s != [] && !IsSpace(s[0]) && !IsTrailingBlank(s[|s| - 1])
    ensures Strip(s + "\n") == s
  {
    assert LStrip(s + "\n") == s + "\n";
    assert (s + "\n")[..|s|] == s;
  }

  // ---------------------------------------------------------------------------
  // Splitting and joining on one character
  // ---------------------------------------------------------------------------

  /** The pieces of `s` between occurrences of `c`, empty pieces included: there is one
      more piece than there are separators. */
  function Fields(s: string, c: char): (r: seq<string>)
    ensures |r| > 0
  {
    if s == [] then [[]]
    else if s[0] == c then [[]] + Fields(s[1..], c)
    else
      var rest := Fields(s[1..], c);
      [[s[0]] + rest[0]] + rest[1..]
  }

  /** `Array#join(c)`. */
  function Join(ps: seq<string>, c: char): string
  {
    if |ps| == 0 then []
    else if |ps| == 1 then ps[0]
    else ps[0] + [c] + Join(ps[1..], c)
  }

  predicate Free(s: string, c: char) { forall i :: 0 <= i < |s| ==> s[i] != c }

  predicate AllFree(ps: seq<string>, c: char) { forall i :: 0 <= i < |ps| ==> Free(ps[i], c) }

  /** No piece contains the separator. */
  lemma {:induction false} FieldsAreFree(s: string, c: char)
    ensures AllFree(Fields(s, c), c)
  {
    if s != [] {
      FieldsAreFree(s[1..], c);
      if s[0] != c {
        var rest := Fields(s[1..], c);
        assert Free(rest[0], c);
        assert Free([s[0]] + rest[0], c);
      }
    }
  }

  /** An empty first piece joins to a leading separator. */
  lemma JoinEmptyFirst(f: seq<string>, c: char)
    requires |f| > 0
    ensures Join([[]] + f, c) == [c] + Join(f, c)
  {
    assert ([[]] + f)[1..] == f;
  }

  /** A character put in front of the first piece is put in front of the join. */
  lemma JoinConsFirst(x: char, f: seq<string>, c: char)
    requires |f| > 0
    ensures Join([[x] + f[0]] + f[1..], c) == [x] + Join(f, c)
  {
    var g := [[x] + f[0]] + f[1..];
    if |f| > 1 {
      assert g[1..] == f[1..];
    }
  }

  /** Joining the pieces back with the separator gives the original string. */
  lemma {:induction false} JoinFields(s: string, c: char)
    ensures Join(Fields(s, c), c) == s
  {
    if s != [] {
      JoinFields(s[1..], c);
      var rest := Fields(s[1..], c);
      if s[0] == c {
        JoinEmptyFirst(rest, c);
      } else {
        JoinConsFirst(s[0], rest, c);
      }
      assert [s[0]] + s[1..] == s;
    }
  }

  /** Fields of `p + [c] + s` when `p` has no separator: `p` comes first, then the fields of `s`. */
  lemma {:induction false} FieldsAfterPiece(p: string, s: string, c: char)
    requires Free(p, c)
    ensures Fields(p + [c] + s, c) == [p] + Fields(s, c)
  {
    if p == [] {
      assert p + [c] + s == [c] + s;
      assert ([c] + s)[1..] == s;
    } else {
      FieldsAfterPiece(p[1..], s, c);
      assert (p + [c] + s)[1..] == p[1..] + [c] + s;
      assert [p[0]] + p[1..] == p;
    }
  }

  /** Fields of a string without the separator: the string itself. */
  lemma {:induction false} FieldsOfFree(s: string, c: char)
    requires Free(s, c)
    ensures Fields(s, c) == [s]
  {
    if s != [] {
      FieldsOfFree(s[1..], c);
      assert [s[0]] + s[1..] == s;
    }
  }

  /** A string splits into a single piece exactly when it has no separator. */
  lemma FieldsSingleIff(s: string, c: char)
    ensures |Fields(s, c)| == 1 <==> Free(s, c)
  {
    if Free(s, c) {
      FieldsOfFree(s, c);
    } else if |Fields(s, c)| == 1 {
      JoinFields(s, c);
      FieldsAreFree(s, c);
    }
  }

  /** Two separator-free pieces around one separator split back into those two pieces. */
  lemma FieldsPair(a: string, b: string, c: char)
    requires Free(a, c) && Free(b, c)
    ensures Fields(a + [c] + b, c) == [a, b]
  {
    FieldsOfFree(b, c);
    FieldsAfterPiece(a, b, c);
  }

  /** Splitting a join of separator-free pieces gives the pieces back. */
  lemma {:induction false} FieldsJoin(ps: seq<string>, c: char)
    requires |ps| > 0 && AllFree(ps, c)
    ensures Fields(Join(ps, c), c) == ps
  {
    if |ps| == 1 {
      FieldsOfFree(ps[0], c);
    } else {
      FieldsJoin(ps[1..], c);
      FieldsAfterPiece(ps[0], Join(ps[1..], c), c);
      assert [ps[0]] + ps[1..] == ps;
    }
  }

  /** Drops the empty pieces at the end, as Ruby's `split` does without a limit. */
  function DropTrailingEmpty(ps: seq<string>): (r: seq<string>)
    ensures |r| <= |ps| && r == ps[..|r|]
    ensures r == [] || r[|r| - 1] != []
    ensures forall i :: |r| <= i < |ps| ==> ps[i] == []
  {
    if ps != [] && ps[|ps| - 1] == [] then DropTrailingEmpty(ps[..|ps| - 1]) else ps
  }

  /** `String#split(c)` for a one-character string `c` other than a space (a single space
      makes Ruby split on runs of whitespace instead). */
  function SplitOn(s: string, c: char): (r: seq<string>)
  {
    DropTrailingEmpty(Fields(s, c))
  }

  /** `String#split(c)` loses only the empty trailing pieces: the pieces joined, plus one
      separator per dropped piece, give the original string back. */
  lemma SplitOnJoin(s: string, c: char)
    ensures var r := SplitOn(s, c); var f := Fields(s, c);
      |r| <= |f| && r == f[..|r|] && Join(f, c) == s && AllFree(r, c)
  {
    JoinFields(s, c);
    FieldsAreFree(s, c);
  }

  /** `String#split(/\Z/)`. `\Z` matches at the end of the string and also just before a
      final newline, so only a key ending in a newline is cut, into its body and the
      newline; an empty key gives no pieces at all. */
  function SplitAtEnd(s: string): (r: seq<string>)
  {
    if s == [] then []
    else if |s| >= 2 && s[|s| - 1] == '\n' then [s[..|s| - 1], "\n"]
    else [s]
  }

  /** The pieces laid end to end. */
  function Concat(ps: seq<string>): string
  {
    if ps == [] then [] else ps[0] + Concat(ps[1..])
  }

  /** Splitting at `\Z` only cuts: the pieces, none of them empty, give the key back, and
      a non-empty key that does not end in a newline stays whole. */
  lemma SplitAtEndCuts(s: string)
    ensures Concat(SplitAtEnd(s)) == s
    ensures forall i :: 0 <= i < |SplitAtEnd(s)| ==> SplitAtEnd(s)[i] != []
    ensures s != [] && s[|s| - 1] != '\n' ==> SplitAtEnd(s) == [s]
  {
    var r := SplitAtEnd(s);
    if |r| == 2 {
      assert Concat(r[1..]) == "\n" + [];
      assert s[..|s| - 1] + "\n" == s;
    } else if |r| == 1 {
      assert Concat(r) == s + [];
    }
  }
}
