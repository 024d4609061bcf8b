/**
 * The JavaScript string operations the data table relies on, given concrete
 * definitions: `toLowerCase`, `split(/\s+/)`, `includes` and the comparison
 * `localeCompare` performs when sorting.
 */
module Text {

  /** JavaScript's `\s` character class (white space and line terminators). */
  predicate IsSpace(c: char) {
    var n := c as int;
    (9 <= n <= 13) || n == 32 || n == 0xA0 || n == 0x1680 || (0x2000 <= n <= 0x200A) ||
    n == 0x2028 || n == 0x2029 || n == 0x202F || n == 0x205F || n == 0x3000 || n == 0xFEFF
  }

  predicate NoSpace(s: string) {
    forall i :: 0 <= i < |s| ==> !IsSpace(s[i])
  }

  /** `toLowerCase`, restricted to the letters A-Z. */
  function LowerChar(c: char): char {
    if 'A' <= c <= 'Z' then (c as int + 32) as char else c
  }

  function Lower(s: string): (r: string)
    ensures |r| == |s|
  {
    seq(|s|, i requires 0 <= i < |s| => LowerChar(s[i]))
  }

  /**
   * Lower-casing maps each letter A-Z to its lower-case form, keeps every
   * other character, leaves no upper-case letter behind and is idempotent.
   */
  lemma LowerSpec(s: string)
    ensures forall i :: 0 <= i < |s| && 'A' <= s[i] <= 'Z' ==> Lower(s)[i] as int == s[i] as int + 32
    ensures forall i :: 0 <= i < |s| && !('A' <= s[i] <= 'Z') ==> Lower(s)[i] == s[i]
    ensures forall i :: 0 <= i < |s| ==> !('A' <= Lower(s)[i] <= 'Z')
    ensures Lower(Lower(s)) == Lower(s)
  {
  }

  /** The characters of `s` that are not white space, in order. */
  function Strip(s: string): string {
    if s == [] then [] else (if IsSpace(s[0]) then [] else [s[0]]) + Strip(s[1..])
  }

  /** The concatenation of a sequence of strings. */
  function Flatten(parts: seq<string>): string {
    if parts == [] then [] else parts[0] + Flatten(parts[1..])
  }

  /** `s` without its leading run of white space. */
  function DropSpaces(s: string): (r: string)
    ensures |r| <= |s| && r == s[|s| - |r|..]
    ensures r == [] || !IsSpace(r[0])
  {
    if s != [] && IsSpace(s[0]) then DropSpaces(s[1..]) else s
  }

  /** Dropping leading white space keeps the non-space characters. */
  lemma {:induction false} DropSpacesStrip(s: string)
    ensures Strip(DropSpaces(s)) == Strip(s)
    decreases |s|
  {
    if s != [] && IsSpace(s[0]) {
      DropSpacesStrip(s[1..]);
    }
  }

  /** What `DropSpaces` drops is white space. */
  lemma {:induction false} DropSpacesDropsSpace(s: string)
    ensures forall i :: 0 <= i < |s| - |DropSpaces(s)| ==> IsSpace(s[i])
    decreases |s|
  {
    if s != [] && IsSpace(s[0]) {
      DropSpacesDropsSpace(s[1..]);
    }
  }

  /**
   * `s.split(/\s+/)`: the pieces between maximal runs of white space. As in
   * JavaScript, a leading (trailing) run yields an empty first (last) piece
   * and the empty string yields one empty piece.
   */
  function Split(s: string): (r: seq<string>)
    ensures |r| >= 1
    decreases |s|
  {
    if s == [] then [[]]
    else if IsSpace(s[0]) then [[]] + Split(DropSpaces(s))
    else
      var rest := Split(s[1..]);
      [[s[0]] + rest[0]] + rest[1..]
  }

  /** No piece of `Split` holds white space. */
  lemma {:induction false} SplitNoSpacePieces(s: string)
    ensures forall k :: 0 <= k < |Split(s)| ==> NoSpace(Split(s)[k])
    decreases |s|
  {
    if s != [] && IsSpace(s[0]) {
      SplitNoSpacePieces(DropSpaces(s));
    } else if s != [] {
      SplitNoSpacePieces(s[1..]);
      var rest := Split(s[1..]);
      assert NoSpace([s[0]] + rest[0]);
    }
  }

  /**
   * Only the first and the last piece of `Split` can be empty; the first is
   * empty exactly when the text is empty or starts with white space.
   */
  lemma {:induction false} SplitInnerPieces(s: string)
    ensures var r := Split(s);
            && (forall k :: 0 < k < |r| - 1 ==> r[k] != [])
            && (r[0] == [] <==> s == [] || IsSpace(s[0]))
    decreases |s|
  {
    if s != [] && IsSpace(s[0]) {
      var t := DropSpaces(s);
      SplitInnerPieces(t);
    } else if s != [] {
      SplitInnerPieces(s[1..]);
    }
  }

  /** `Split` ends with an empty piece after the first exactly when the text ends with white space. */
  lemma {:induction false} SplitLastPiece(s: string)
    ensures var r := Split(s);
            |r| > 1 && r[|r| - 1] == [] <==> s != [] && IsSpace(s[|s| - 1])
    decreases |s|, 1
  {
    if s != [] && IsSpace(s[0]) {
      SplitLastPieceAfterSpace(s);
    } else if s != [] {
      SplitLastPieceAfterChar(s);
    }
  }

  lemma {:induction false} SplitLastPieceAfterSpace(s: string)
    requires s != [] && IsSpace(s[0])
    ensures var r := Split(s);
            |r| > 1 && r[|r| - 1] == [] <==> IsSpace(s[|s| - 1])
    decreases |s|, 0
  {
    var t := DropSpaces(s);
    var rest := Split(t);
    assert Split(s) == [[]] + rest;
    SplitLastPiece(t);
    if t == [] {
      DropSpacesDropsSpace(s);
    } else {
      assert t[|t| - 1] == s[|s| - 1];
      SplitInnerPieces(t);
    }
  }

  lemma {:induction false} SplitLastPieceAfterChar(s: string)
    requires s != [] && !IsSpace(s[0])
    ensures var r := Split(s);
            |r| > 1 && r[|r| - 1] == [] <==> IsSpace(s[|s| - 1])
    decreases |s|, 0
  {
    var rest := Split(s[1..]);
    var r := [[s[0]] + rest[0]] + rest[1..];
    assert Split(s) == r && |r| == |rest|;
    if |s| == 1 {
      assert rest == [[]];
    } else {
      SplitLastPiece(s[1..]);
      assert s[1..][|s| - 2] == s[|s| - 1];
      assert |rest| > 1 ==> r[|r| - 1] == rest[|rest| - 1];
    }
  }

  /** Together the pieces of `Split` are the text's non-space characters in order. */
  lemma {:induction false} SplitFlatten(s: string)
    ensures Flatten(Split(s)) == Strip(s)
    decreases |s|
  {
    if s != [] && IsSpace(s[0]) {
      SplitFlatten(DropSpaces(s));
      DropSpacesStrip(s);
    } else if s != [] {
      SplitFlatten(s[1..]);
      var rest := Split(s[1..]);
      var r := [[s[0]] + rest[0]] + rest[1..];
      assert r[1..] == rest[1..];
      assert Flatten(rest) == rest[0] + Flatten(rest[1..]);
    }
  }

  /** A non-empty run of white space. */
  predicate SpaceRun(g: string) {
    g != [] && forall i :: 0 <= i < |g| ==> IsSpace(g[i])
  }

  /** `words[0] + gaps[0] + words[1] + ... + gaps[m-1] + words[m]` */
  function Interleave(words: seq<string>, gaps: seq<string>): string
    requires |words| == |gaps| + 1
    decreases |gaps|
  {
    if gaps == [] then words[0] else words[0] + gaps[0] + Interleave(words[1..], gaps[1..])
  }

  /**
   * `split(/\s+/)` undoes joining: words without white space (every inner
   * one non-empty) joined by runs of white space split back into the words.
   */
  lemma {:induction false} SplitInterleave(words: seq<string>, gaps: seq<string>)
    requires |words| == |gaps| + 1
    requires forall k :: 0 <= k < |words| ==> NoSpace(words[k])
    requires forall k :: 0 < k < |words| - 1 ==> words[k] != []
    requires forall k :: 0 <= k < |gaps| ==> SpaceRun(gaps[k])
    ensures Split(Interleave(words, gaps)) == words
    decreases |gaps|
  {
    if gaps == [] {
      SplitNoSpace(words[0]);
    } else {
      var t := Interleave(words[1..], gaps[1..]);
      SplitInterleave(words[1..], gaps[1..]);
      assert t == [] || !IsSpace(t[0]) by {
        if |gaps| > 1 {
          assert t == words[1] + gaps[1] + Interleave(words[2..], gaps[2..]);
          assert words[1] != [];
          assert t[0] == words[1][0];
        }
      }
      SplitWordGap(words[0], gaps[0], t);
      assert words == [words[0]] + words[1..];
    }
  }

  /** A word without white space splits into itself. */
  lemma {:induction false} SplitNoSpace(w: string)
    requires NoSpace(w)
    ensures Split(w) == [w]
    decreases |w|
  {
    if w != [] {
      SplitNoSpace(w[1..]);
      assert [w[0]] + w[1..] == w;
    }
  }

  /** A word, a run of white space and a text that does not start with white space. */
  lemma {:induction false} SplitWordGap(w: string, g: string, t: string)
    requires NoSpace(w) && SpaceRun(g) && (t == [] || !IsSpace(t[0]))
    ensures Split(w + g + t) == [w] + Split(t)
    decreases |w|
  {
    if w == [] {
      assert w + g + t == g + t;
      SplitGap(g, t);
    } else {
      var u := w[1..] + g + t;
      assert w + g + t == [w[0]] + u;
      SplitWordGap(w[1..], g, t);
      SplitCons(w[0], u);
      assert [w[0]] + w[1..] == w;
    }
  }

  /** A text that starts with a run of white space: an empty piece, then the rest. */
  lemma SplitGap(g: string, t: string)
    requires SpaceRun(g) && (t == [] || !IsSpace(t[0]))
    ensures Split(g + t) == [[]] + Split(t)
  {
    DropSpacesRun(g, t);
    assert (g + t)[0] == g[0];
  }

  /** A text that starts with a character other than white space: it opens the first piece. */
  lemma SplitCons(c: char, u: string)
    requires !IsSpace(c)
    ensures Split([c] + u) == [[c] + Split(u)[0]] + Split(u)[1..]
  {
    assert ([c] + u)[0] == c && ([c] + u)[1..] == u;
  }

  lemma {:induction false} DropSpacesRun(g: string, t: string)
    requires forall i :: 0 <= i < |g| ==> IsSpace(g[i])
    requires t == [] || !IsSpace(t[0])
    ensures DropSpaces(g + t) == t
    decreases |g|
  {
    if g != [] {
      assert (g + t)[1..] == g[1..] + t;
      DropSpacesRun(g[1..], t);
    } else {
      assert g + t == t;
    }
  }

  /** `t` occurs in `s` starting at position `i`. */
  predicate OccursAt(s: string, t: string, i: int) {
    0 <= i && i + |t| <= |s| && s[i..i + |t|] == t
  }

  /** `s.includes(t)`: `t` occurs in `s` at some position. */
  function Includes(s: string, t: string): (r: bool)
    ensures r <==> exists i :: OccursAt(s, t, i)
    decreases |s|
  {
    if |s| < |t| then false
    else if s[..|t|] == t then assert OccursAt(s, t, 0); true
    else
      var r := Includes(s[1..], t);
      assert forall i :: OccursAt(s, t, i) ==> i > 0 && OccursAt(s[1..], t, i - 1);
      assert forall i :: OccursAt(s[1..], t, i) ==> OccursAt(s, t, i + 1);
      r
  }

  /** Lexicographic order on code points: the comparator used for sorting. */
  predicate StrLe(a: string, b: string) {
    a == [] || (b != [] && (a[0] < b[0] || (a[0] == b[0] && StrLe(a[1..], b[1..]))))
  }

  /** `a.localeCompare(b)`: negative, zero or positive. */
  function Compare(a: string, b: string): (r: int)
    ensures r <= 0 <==> StrLe(a, b)
    ensures r == 0 <==> a == b
  {
    StrLeReflexive(a);
    StrLeAntisymmetric(a, b);
    if a == b then 0 else if StrLe(a, b) then -1 else 1
  }

  lemma {:induction false} StrLeReflexive(a: string)
    ensures StrLe(a, a)
  {
    if a != [] {
      StrLeReflexive(a[1..]);
    }
  }

  lemma {:induction false} StrLeTotal(a: string, b: string)
    ensures StrLe(a, b) || StrLe(b, a)
  {
    if a != [] && b != [] && a[0] == b[0] {
      StrLeTotal(a[1..], b[1..]);
    }
  }

  lemma {:induction false} StrLeAntisymmetric(a: string, b: string)
    ensures StrLe(a, b) && StrLe(b, a) ==> a == b
  {
    if a != [] && b != [] && a[0] == b[0] {
      StrLeAntisymmetric(a[1..], b[1..]);
      if StrLe(a, b) && StrLe(b, a) {
        assert a == [a[0]] + a[1..] && b == [b[0]] + b[1..];
      }
    }
  }

  lemma {:induction false} StrLeTransitive(a: string, b: string, c: string)
    requires StrLe(a, b) && StrLe(b, c)
    ensures StrLe(a, c)
  {
    if a != [] && b != [] && c != [] && a[0] == b[0] && b[0] == c[0] {
      StrLeTransitive(a[1..], b[1..], c[1..]);
    }
  }
}
