/** The parts of Python's `str` that the rushee pipeline relies on:
    `isspace`, `lower`, `strip`/`rstrip`, `split()` with no separator,
    `sep.join(words)` and the ordering `<` between two strings. */
module PyStrings {

  /** The code-point ranges of the characters Python's `str.isspace` accepts. */
  const SpaceRanges: seq<(char, char)> := [
    (' ', ' '), ('\t', '\r'), ('\U{1C}', '\U{1F}'), ('\U{85}', '\U{85}'), ('\U{A0}', '\U{A0}'),
    ('\U{1680}', '\U{1680}'), ('\U{2000}', '\U{200A}'), ('\U{2028}', '\U{2029}'),
    ('\U{202F}', '\U{202F}'), ('\U{205F}', '\U{205F}'), ('\U{3000}', '\U{3000}')]

  predicate InRanges(c: char, ranges: seq<(char, char)>) {
    ranges != [] && (ranges[0].0 <= c <= ranges[0].1 || InRanges(c, ranges[1..]))
  }

  /** `c.isspace()`: the characters `strip()` and `split()` treat as whitespace. */
  predicate IsSpace(c: char) {
    InRanges(c, SpaceRanges)
  }

  lemma {:induction false} NotInRanges(c: char, ranges: seq<(char, char)>)
    requires forall i :: 0 <= i < |ranges| ==> !(ranges[i].0 <= c <= ranges[i].1)
    ensures !InRanges(c, ranges)
    decreases |ranges|
  {
    if ranges != [] {
      NotInRanges(c, ranges[1..]);
    }
  }

  /** No printable ASCII character other than the space is whitespace. */
  lemma PrintableIsNotSpace(c: char)
    requires ' ' < c <= '~'
    ensures !IsSpace(c)
  {
    NotInRanges(c, SpaceRanges);
  }

  predicate AllSpace(s: string) {
    forall i :: 0 <= i < |s| ==> IsSpace(s[i])
  }

  predicate NoSpace(s: string) {
    forall i :: 0 <= i < |s| ==> !IsSpace(s[i])
  }

  /** A word as `split()` produces it: non-empty, without whitespace. */
  predicate IsWord(w: string) {
    w != [] && NoSpace(w)
  }

  // ---------------------------------------------------------------- lower

  /** `c.lower()` on the ASCII letters; every other character is kept. */
  function LowerChar(c: char): (d: char)
    ensures !('A' <= d <= 'Z')
  {
    if 'A' <= c <= 'Z' then (c as int + 32) as char else c
  }

  /** Lowering touches only letters, so it neither makes nor removes
      whitespace. */
  lemma LowerCharSpace(c: char)
    ensures IsSpace(LowerChar(c)) == IsSpace(c)
  {
    if 'A' <= c <= 'Z' {
      PrintableIsNotSpace(c);
      PrintableIsNotSpace(LowerChar(c));
    }
  }

  /** `s.lower()`, one character at a time. */
  function Lower(s: string): (r: string)
    ensures |r| == |s|
  {
    if s == [] then [] else [LowerChar(s[0])] + Lower(s[1..])
  }

  /** Each character of `s.lower()` is the lowered character of `s` at the
      same position. */
  lemma {:induction false} LowerAt(s: string, i: int)
    requires 0 <= i < |s|
    ensures Lower(s)[i] == LowerChar(s[i])
    decreases |s|
  {
    if i > 0 {
      LowerAt(s[1..], i - 1);
    }
  }

  /** Lowering commutes with dropping a prefix. */
  lemma LowerDrop(s: string, k: int)
    requires 0 <= k <= |s|
    ensures Lower(s)[k..] == Lower(s[k..])
  {
    forall i | 0 <= i < |s| - k ensures Lower(s)[k..][i] == Lower(s[k..])[i] {
      LowerAt(s, k + i);
      LowerAt(s[k..], i);
    }
  }

  /** `[w.lower() for w in ws]`. */
  function LowerAll(ws: seq<string>): (r: seq<string>)
    ensures |r| == |ws|
    ensures forall i :: 0 <= i < |ws| ==> r[i] == Lower(ws[i])
  {
    if ws == [] then [] else [Lower(ws[0])] + LowerAll(ws[1..])
  }

  lemma LowerIdempotent(s: string)
    ensures Lower(Lower(s)) == Lower(s)
  {
    forall i | 0 <= i < |s| ensures Lower(Lower(s))[i] == Lower(s)[i] {
      LowerAt(s, i);
      LowerAt(Lower(s), i);
    }
  }

  lemma LowerAllIdempotent(ws: seq<string>)
    ensures LowerAll(LowerAll(ws)) == LowerAll(ws)
  {
    forall i | 0 <= i < |ws| ensures LowerAll(LowerAll(ws))[i] == LowerAll(ws)[i] {
      LowerIdempotent(ws[i]);
    }
  }

  // ---------------------------------------------------------------- strip

  /** How many characters `s.rstrip()` keeps. */
  function RStripLen(s: string): (n: nat)
    ensures n <= |s|
  {
    if s != [] && IsSpace(s[|s| - 1]) then RStripLen(s[..|s| - 1]) else |s|
  }

  /** `s.rstrip()`: `s` with its trailing whitespace removed. */
  function RStrip(s: string): string {
    s[..RStripLen(s)]
  }

  /** Everything `rstrip` cuts off is whitespace and what it keeps does not
      end in whitespace, so it keeps the longest such prefix. */
  lemma {:induction false} RStripSpec(s: string)
    ensures var r := RStrip(s); AllSpace(s[|r|..]) && (r == [] || !IsSpace(r[|r| - 1]))
    decreases |s|
  {
    if s != [] && IsSpace(s[|s| - 1]) {
      var p := s[..|s| - 1];
      RStripSpec(p);
      var n := RStripLen(s);
      assert p[..n] == s[..n];
      assert s[n..] == p[n..] + [s[|s| - 1]];
    }
  }

  /** How many characters `s.lstrip()` removes. */
  function LStripLen(s: string): (n: nat)
    ensures n <= |s|
  {
    if s != [] && IsSpace(s[0]) then 1 + LStripLen(s[1..]) else 0
  }

  /** `s.lstrip()`: `s` with its leading whitespace removed. */
  function LStrip(s: string): string {
    s[LStripLen(s)..]
  }

  /** Everything `lstrip` cuts off is whitespace and what it keeps does not
      start with whitespace. */
  lemma {:induction false} LStripSpec(s: string)
    ensures var n := LStripLen(s); AllSpace(s[..n]) && (n == |s| || !IsSpace(s[n]))
    decreases |s|
  {
    if s != [] && IsSpace(s[0]) {
      LStripSpec(s[1..]);
      var n := LStripLen(s);
      assert s[..n] == [s[0]] + s[1..][..n - 1];
    }
  }

  /** `s.strip()`: `s` without its leading and trailing whitespace. */
  function Strip(s: string): string {
    LStrip(RStrip(s))
  }

  /** `s.strip()` is the slice of `s` between a whitespace-only head and a
      whitespace-only tail, neither starts nor ends with whitespace, and is
      empty exactly when `s` is all whitespace. */
  lemma StripIsSlice(s: string)
    ensures var r := Strip(s);
      exists i :: 0 <= i <= |s| - |r| && r == s[i..i + |r|] && AllSpace(s[..i]) && AllSpace(s[i + |r|..])
    ensures var r := Strip(s); r == [] || (!IsSpace(r[0]) && !IsSpace(r[|r| - 1]))
    ensures Strip(s) == [] <==> AllSpace(s)
  {
    var t := RStrip(s);
    RStripSpec(s);
    LStripSpec(t);
    StripSlice(s, t, LStrip(t));
  }

  /** A suffix `r` of a prefix `t` of `s` is the slice of `s` that ends
      where `t` does. */
  lemma SuffixOfPrefix(s: string, t: string, r: string)
    requires |t| <= |s| && t == s[..|t|]
    requires |r| <= |t| && r == t[|t| - |r|..]
    ensures r == s[|t| - |r|..|t|]
  {
    var i := |t| - |r|;
    forall k | 0 <= k < |r| ensures r[k] == s[i + k] {
      assert r[k] == t[i + k];
    }
  }

  lemma StripSlice(s: string, t: string, r: string)
    requires |t| <= |s| && t == s[..|t|] && AllSpace(s[|t|..]) && (t == [] || !IsSpace(t[|t| - 1]))
    requires |r| <= |t| && r == t[|t| - |r|..] && AllSpace(t[..|t| - |r|]) && (r == [] || !IsSpace(r[0]))
    ensures var i := |t| - |r|;
      0 <= i <= |s| - |r| && r == s[i..i + |r|] && AllSpace(s[..i]) && AllSpace(s[i + |r|..])
    ensures r == [] || (!IsSpace(r[0]) && !IsSpace(r[|r| - 1]))
    ensures r == [] <==> AllSpace(s)
  {
    var i := |t| - |r|;
    SuffixOfPrefix(s, t, r);
    assert s[..i] == t[..i];
    assert s[i + |r|..] == s[|t|..];
    if r != [] {
      assert r[|r| - 1] == t[|t| - 1];
      assert !IsSpace(s[i]);
    } else {
      assert s == t[..i] + s[|t|..];
      assert AllSpace(s);
    }
  }

  // ---------------------------------------------------------------- split

  /** The longest prefix of `s` without whitespace. */
  function Word(s: string): (w: string)
    ensures |w| <= |s| && w == s[..|w|]
    ensures NoSpace(w)
    ensures |w| < |s| ==> IsSpace(s[|w|])
  {
    if s == [] || IsSpace(s[0]) then [] else [s[0]] + Word(s[1..])
  }

  /** `s.split()`: the maximal runs of non-whitespace, in order; leading,
      trailing and repeated whitespace produce no empty words. */
  function Split(s: string): seq<string>
    decreases |s|
  {
    if s == [] then []
    else if IsSpace(s[0]) then Split(s[1..])
    else
      var w := Word(s);
      [w] + Split(s[|w|..])
  }

  /** Every word `split()` produces is non-empty and free of whitespace. */
  lemma {:induction false} SplitWords(s: string)
    ensures forall i :: 0 <= i < |Split(s)| ==> IsWord(Split(s)[i])
    decreases |s|
  {
    if s != [] {
      if IsSpace(s[0]) {
        SplitWords(s[1..]);
      } else {
        var w := Word(s);
        SplitWords(s[|w|..]);
        assert Split(s) == [w] + Split(s[|w|..]);
      }
    }
  }

  /** `sep.join(ws)`. */
  function Join(sep: string, ws: seq<string>): string {
    if |ws| == 0 then []
    else if |ws| == 1 then ws[0]
    else ws[0] + sep + Join(sep, ws[1..])
  }

  /** The characters of `s` that are not whitespace, in order. */
  function DropSpaces(s: string): string {
    if s == [] then []
    else if IsSpace(s[0]) then DropSpaces(s[1..])
    else [s[0]] + DropSpaces(s[1..])
  }

  /** The concatenation of a sequence of words. */
  function Concat(ws: seq<string>): string {
    if ws == [] then [] else ws[0] + Concat(ws[1..])
  }

  /** A string made of the words `ws` with the whitespace runs `gaps` around
      and between them: `gaps[0] + ws[0] + gaps[1] + ... + ws[n-1] + gaps[n]`. */
  function Spaced(ws: seq<string>, gaps: seq<string>): string
    requires |gaps| == |ws| + 1
  {
    if ws == [] then gaps[0] else gaps[0] + ws[0] + Spaced(ws[1..], gaps[1..])
  }

  lemma {:induction false} DropSpacesAppend(s: string, t: string)
    ensures DropSpaces(s + t) == DropSpaces(s) + DropSpaces(t)
    decreases |s|
  {
    if s != [] {
      assert (s + t)[1..] == s[1..] + t;
      DropSpacesAppend(s[1..], t);
    } else {
      assert s + t == t;
    }
  }

  lemma {:induction false} DropSpacesOfNoSpace(s: string)
    requires NoSpace(s)
    ensures DropSpaces(s) == s
    decreases |s|
  {
    if s != [] {
      DropSpacesOfNoSpace(s[1..]);
    }
  }

  /** Splitting loses only whitespace: the words, glued back together, are
      the non-whitespace characters of `s` in their original order. */
  lemma {:induction false} SplitKeepsNonSpace(s: string)
    ensures Concat(Split(s)) == DropSpaces(s)
    decreases |s|
  {
    if s == [] {
    } else if IsSpace(s[0]) {
      SplitKeepsNonSpace(s[1..]);
    } else {
      var w := Word(s);
      var rest := s[|w|..];
      assert s == w + rest;
      SplitKeepsNonSpace(rest);
      DropSpacesAppend(w, rest);
      DropSpacesOfNoSpace(w);
      assert Split(s) == [w] + Split(rest);
      assert Concat(Split(s)) == w + Concat(Split(rest));
    }
  }

  lemma {:induction false} SplitLeadingSpace(g: string, t: string)
    requires AllSpace(g)
    ensures Split(g + t) == Split(t)
    decreases |g|
  {
    if g == [] {
      assert g + t == t;
    } else {
      assert (g + t)[1..] == g[1..] + t;
      SplitLeadingSpace(g[1..], t);
    }
  }

  lemma {:induction false} WordTrailingSpace(s: string, g: string)
    requires AllSpace(g)
    ensures Word(s + g) == Word(s)
    decreases |s|
  {
    if s == [] {
      assert s + g == g;
    } else if !IsSpace(s[0]) {
      assert (s + g)[1..] == s[1..] + g;
      WordTrailingSpace(s[1..], g);
    }
  }

  /** Trailing whitespace does not change the words. */
  lemma {:induction false} SplitTrailingSpace(s: string, g: string)
    requires AllSpace(g)
    ensures Split(s + g) == Split(s)
    decreases |s|
  {
    if s == [] {
      SplitLeadingSpace(g, []);
      assert g + [] == g && s + g == g;
    } else if IsSpace(s[0]) {
      assert (s + g)[1..] == s[1..] + g;
      SplitTrailingSpace(s[1..], g);
    } else {
      var w := Word(s);
      WordTrailingSpace(s, g);
      assert (s + g)[|w|..] == s[|w|..] + g;
      SplitTrailingSpace(s[|w|..], g);
    }
  }

  /** `s.rstrip().split() == s.split()`. */
  lemma SplitOfRStrip(s: string)
    ensures Split(RStrip(s)) == Split(s)
  {
    var r := RStrip(s);
    RStripSpec(s);
    assert s == r + s[|r|..];
    SplitTrailingSpace(r, s[|r|..]);
  }

  lemma {:induction false} WordBeforeSpace(w: string, t: string)
    requires NoSpace(w)
    requires t == [] || IsSpace(t[0])
    ensures Word(w + t) == w
    decreases |w|
  {
    if w == [] {
      assert w + t == t;
    } else {
      assert (w + t)[1..] == w[1..] + t;
      WordBeforeSpace(w[1..], t);
    }
  }

  /** Splitting recovers the words however long the whitespace runs around
      and between them are. */
  lemma {:induction false} SplitSpaced(ws: seq<string>, gaps: seq<string>)
    requires |gaps| == |ws| + 1
    requires forall i :: 0 <= i < |ws| ==> IsWord(ws[i])
    requires forall i :: 0 <= i < |gaps| ==> AllSpace(gaps[i])
    requires forall i :: 0 < i < |ws| ==> gaps[i] != []
    ensures Split(Spaced(ws, gaps)) == ws
    decreases |ws|
  {
    if ws == [] {
      SplitLeadingSpace(gaps[0], []);
      assert gaps[0] + [] == gaps[0];
    } else {
      var w := ws[0];
      var rest := Spaced(ws[1..], gaps[1..]);
      assert Spaced(ws, gaps) == gaps[0] + (w + rest);
      SplitLeadingSpace(gaps[0], w + rest);
      assert rest == [] || IsSpace(rest[0]) by {
        if ws[1..] != [] {
          assert rest == gaps[1] + (ws[1] + Spaced(ws[2..], gaps[2..]));
          assert rest[0] == gaps[1][0];
        }
      }
      WordBeforeSpace(w, rest);
      assert (w + rest)[|w|..] == rest;
      SplitSpaced(ws[1..], gaps[1..]);
      assert Split(w + rest) == [w] + ws[1..];
    }
  }

  lemma {:induction false} WordLower(s: string)
    ensures Word(Lower(s)) == Lower(Word(s))
    decreases |s|
  {
    if s != [] {
      LowerCharSpace(s[0]);
      if !IsSpace(s[0]) {
        assert Lower(s)[1..] == Lower(s[1..]);
        WordLower(s[1..]);
      }
    }
  }

  /** `s.lower().split() == [w.lower() for w in s.split()]`: lowering keeps
      every whitespace character and every word boundary. */
  lemma {:induction false} SplitLower(s: string)
    ensures Split(Lower(s)) == LowerAll(Split(s))
    decreases |s|
  {
    if s == [] {
    } else if IsSpace(s[0]) {
      LowerCharSpace(s[0]);
      assert Lower(s)[1..] == Lower(s[1..]);
      SplitLower(s[1..]);
    } else {
      var w := Word(s);
      LowerCharSpace(s[0]);
      WordLower(s);
      LowerDrop(s, |w|);
      SplitLower(s[|w|..]);
      assert LowerAll([w] + Split(s[|w|..])) == [Lower(w)] + LowerAll(Split(s[|w|..]));
    }
  }

  /** Joining words without whitespace with a separator without whitespace
      gives a string without whitespace. */
  lemma {:induction false} JoinNoSpace(sep: string, ws: seq<string>)
    requires NoSpace(sep)
    requires forall i :: 0 <= i < |ws| ==> NoSpace(ws[i])
    ensures NoSpace(Join(sep, ws))
    decreases |ws|
  {
    if |ws| > 1 {
      JoinNoSpace(sep, ws[1..]);
    }
  }

  // ---------------------------------------------------------------- ordering

  /** Python's `a < b` on strings: lexicographic by code point, a proper
      prefix coming first. */
  predicate Less(a: string, b: string) {
    if a == [] then b != []
    else if b == [] then false
    else if a[0] != b[0] then a[0] < b[0]
    else Less(a[1..], b[1..])
  }

  lemma {:induction false} LessIrreflexive(a: string)
    ensures !Less(a, a)
    decreases |a|
  {
    if a != [] {
      LessIrreflexive(a[1..]);
    }
  }

  lemma {:induction false} LessAsymmetric(a: string, b: string)
    requires Less(a, b)
    ensures !Less(b, a)
    decreases |a|
  {
    if a != [] && b != [] && a[0] == b[0] {
      LessAsymmetric(a[1..], b[1..]);
    }
  }
}
