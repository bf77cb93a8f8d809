/** The JavaScript string operations the label formatter relies on:
    `String.prototype.trim`, `split(/\s+/)` and `replace(/,\s+$/, ",")`. */
module Text {

  /** ECMAScript WhiteSpace and LineTerminator code points. `trim` strips
      exactly these, and the regular-expression class `\s` matches exactly
      these, so one predicate serves both. */
  predicate IsWhitespace(c: char) {
    if c < '\U{00A0}' then
      c == ' ' || '\t' <= c <= '\r'
    else
      || c == '\U{00A0}' || c == '\U{1680}' || '\U{2000}' <= c <= '\U{200A}'
      || c == '\U{2028}' || c == '\U{2029}' || c == '\U{202F}' || c == '\U{205F}'
      || c == '\U{3000}' || c == '\U{FEFF}'
  }

  predicate AllWhitespace(s: string) {
    forall k :: 0 <= k < |s| ==> IsWhitespace(s[k])
  }

  predicate NoWhitespace(s: string) {
    forall k :: 0 <= k < |s| ==> !IsWhitespace(s[k])
  }

  /** A token of a whitespace split of a trimmed, non-blank string. */
  predicate IsWord(s: string) {
    s != [] && NoWhitespace(s)
  }

  /** A whitespace gap between two words: one or more whitespace characters. */
  predicate IsGap(s: string) {
    s != [] && AllWhitespace(s)
  }

  /** Neither begins nor ends with whitespace. */
  predicate IsTrimmed(s: string) {
    s == [] || (!IsWhitespace(s[0]) && !IsWhitespace(s[|s| - 1]))
  }

  predicate EndsWith(s: string, tail: string) {
    |tail| <= |s| && s[|s| - |tail|..] == tail
  }

  lemma EndsWithAppend(a: string, b: string)
    ensures EndsWith(a + b, b)
  {
    assert (a + b)[|a|..] == b;
  }

  lemma EndsWithExtend(a: string, s: string, tail: string)
    requires EndsWith(s, tail)
    ensures EndsWith(a + s, tail)
  {
    assert (a + s)[|a + s| - |tail|..] == s[|s| - |tail|..];
  }

  /** `s` with its leading whitespace removed. */
  function TrimStart(s: string): (r: string)
    ensures |r| <= |s| && r == s[|s| - |r|..]
    ensures AllWhitespace(s[..|s| - |r|])
    ensures r == [] || !IsWhitespace(r[0])
  {
    if s != [] && IsWhitespace(s[0]) then TrimStart(s[1..]) else s
  }

  /** `s` with its trailing whitespace removed. */
  function TrimEnd(s: string): (r: string)
    ensures |r| <= |s| && r == s[..|r|]
    ensures AllWhitespace(s[|r|..])
    ensures r == [] || !IsWhitespace(r[|r| - 1])
  {
    if s != [] && IsWhitespace(s[|s| - 1]) then TrimEnd(s[..|s| - 1]) else s
  }

  /** `String.prototype.trim`. */
  function Trim(s: string): (r: string)
    ensures |r| <= |s| && IsTrimmed(r)
  {
    TrimStart(TrimEnd(s))
  }

  /** Trim gives the empty string exactly for blank input. */
  lemma TrimBlank(s: string)
    ensures Trim(s) == [] <==> AllWhitespace(s)
  {
    if AllWhitespace(s) {
      TrimEndOfPadded([], s);
      assert [] + s == s;
    }
  }

  lemma {:induction false} TrimStartOfPadded(pad: string, t: string)
    requires AllWhitespace(pad)
    requires t == [] || !IsWhitespace(t[0])
    ensures TrimStart(pad + t) == t
  {
    if pad == [] {
      assert pad + t == t;
    } else {
      assert (pad + t)[0] == pad[0];
      assert (pad + t)[1..] == pad[1..] + t;
      TrimStartOfPadded(pad[1..], t);
    }
  }

  lemma {:induction false} TrimEndOfPadded(t: string, pad: string)
    requires AllWhitespace(pad)
    requires t == [] || !IsWhitespace(t[|t| - 1])
    ensures TrimEnd(t + pad) == t
  {
    if pad == [] {
      assert t + pad == t;
    } else {
      var s := t + pad;
      assert s[|s| - 1] == pad[|pad| - 1];
      assert s[..|s| - 1] == t + pad[..|pad| - 1];
      TrimEndOfPadded(t, pad[..|pad| - 1]);
    }
  }

  /** Trailing whitespace stops at the first character when that is not
      whitespace. */
  lemma TrimEndKeepsFirst(y: string)
    requires y != [] && !IsWhitespace(y[0])
    ensures TrimEnd(y) != [] && TrimEnd(y)[0] == y[0]
  {
    var r := TrimEnd(y);
    assert r[0] == y[..|r|][0];
  }

  lemma TrimEndDropsSpace(y: string)
    ensures TrimEnd(y + " ") == TrimEnd(y)
  {
    var s := y + " ";
    assert s[|s| - 1] == ' ';
    assert s[..|s| - 1] == y;
  }

  /** Leading whitespace stops at the last character when that is not
      whitespace. */
  lemma TrimStartKeepsLast(y: string)
    requires y != [] && !IsWhitespace(y[|y| - 1])
    ensures TrimStart(y) != [] && TrimStart(y)[|TrimStart(y)| - 1] == y[|y| - 1]
  {
    var r := TrimStart(y);
    assert r[|r| - 1] == y[|y| - |r|..][|r| - 1];
  }

  /** Leading whitespace stops at the first non-whitespace character, so
      whatever follows it is kept as it is. */
  lemma {:induction false} TrimStartAppend(a: string, b: string)
    requires b != [] && !IsWhitespace(b[0])
    ensures TrimStart(a + b) == TrimStart(a) + b
  {
    if a == [] {
      assert a + b == b;
    } else if IsWhitespace(a[0]) {
      assert (a + b)[1..] == a[1..] + b;
      TrimStartAppend(a[1..], b);
    } else {
      assert (a + b)[0] == a[0];
    }
  }

  /** TrimStartAppend with the kept part written as two pieces. */
  lemma TrimStartAppendPair(a: string, b: string, c: string)
    requires b != [] && !IsWhitespace(b[0])
    ensures TrimStart(a + b + c) == TrimStart(a) + b + c
  {
    AppendAssoc(a, b, c);
    TrimStartAppend(a, b + c);
    AppendAssoc(TrimStart(a), b, c);
  }

  lemma AppendEmpty(x: string)
    ensures x + "" == x
  {
  }

  lemma EmptyAppend(x: string)
    ensures "" + x == x
  {
  }

  lemma AppendAssoc<T>(x: seq<T>, y: seq<T>, z: seq<T>)
    ensures x + y + z == x + (y + z)
  {
  }

  /** Trim has exactly one answer: the trimmed string between two runs of
      whitespace. */
  lemma TrimUnique(lead: string, t: string, trail: string)
    requires AllWhitespace(lead) && AllWhitespace(trail) && IsTrimmed(t)
    ensures Trim(lead + t + trail) == t
  {
    if t == [] {
      assert lead + t == lead;
      assert TrimEnd(lead) == [] by { TrimEndOfPadded([], lead); assert [] + lead == lead; }
      TrimEndOfPadded([], lead + trail);
      assert [] + (lead + trail) == lead + t + trail;
    } else {
      TrimEndOfPadded(lead + t, trail);
      TrimStartOfPadded(lead, t);
    }
  }

  /** The length of the leading run of non-whitespace characters of `s`. */
  function WordLen(s: string): (n: nat)
    ensures n <= |s| && NoWhitespace(s[..n])
    ensures n == |s| || IsWhitespace(s[n])
  {
    if s == [] || IsWhitespace(s[0]) then 0 else 1 + WordLen(s[1..])
  }

  /** `s.split(/\s+/)`: the pieces between maximal runs of whitespace. A
      leading run gives an empty first piece, a trailing run an empty last
      piece, and the empty string gives the single piece "". */
  function SplitWhitespace(s: string): (r: seq<string>)
    ensures |r| >= 1
    decreases |s|
  {
    var n := WordLen(s);
    if n == |s| then [s]
    else
      var rest := TrimStart(s[n..]);
      assert IsWhitespace(s[n..][0]);
      [s[..n]] + SplitWhitespace(rest)
  }

  /** The empty string splits into the single piece "". */
  lemma SplitEmpty()
    ensures SplitWhitespace([]) == [""]
  {
    assert WordLen([]) == 0;
  }

  /** One more word than gaps, every word a word and every gap a gap. */
  predicate WordsAndGaps(words: seq<string>, gaps: seq<string>) {
    && |words| == |gaps| + 1
    && (forall k :: 0 <= k < |words| ==> IsWord(words[k]))
    && (forall k :: 0 <= k < |gaps| ==> IsGap(gaps[k]))
  }

  /** words[0] + gaps[0] + words[1] + ... + words[|words| - 1]. */
  function Interleave(words: seq<string>, gaps: seq<string>): string
    requires |words| == |gaps| + 1
    decreases |gaps|
  {
    if gaps == [] then words[0] else words[0] + gaps[0] + Interleave(words[1..], gaps[1..])
  }

  lemma {:induction false} WordLenOfWord(w: string, t: string)
    requires NoWhitespace(w)
    requires t == [] || IsWhitespace(t[0])
    ensures WordLen(w + t) == |w|
  {
    if w == [] {
      assert w + t == t;
    } else {
      assert (w + t)[0] == w[0];
      assert (w + t)[1..] == w[1..] + t;
      WordLenOfWord(w[1..], t);
    }
  }

  /** One step of the split: a word, a gap, then a trimmed non-blank rest. */
  lemma SplitCons(w: string, g: string, rest: string)
    requires IsWord(w) && IsGap(g) && rest != [] && IsTrimmed(rest)
    ensures IsTrimmed(w + g + rest)
    ensures SplitWhitespace(w + g + rest) == [w] + SplitWhitespace(rest)
  {
    var s := w + g + rest;
    assert s == w + (g + rest);
    assert (g + rest)[0] == g[0];
    WordLenOfWord(w, g + rest);
    assert s[|w|..] == g + rest;
    TrimStartOfPadded(g, rest);
    assert s[..|w|] == w;
    assert s[0] == w[0];
    assert s[|s| - 1] == rest[|rest| - 1];
  }

  /** Splitting words joined by whitespace gaps gives back the words, and
      such a string is already trimmed: every trimmed, non-blank string has
      this form, so this pins down what the split returns. */
  lemma {:induction false} SplitInterleave(words: seq<string>, gaps: seq<string>)
    requires WordsAndGaps(words, gaps)
    ensures Interleave(words, gaps) != [] && IsTrimmed(Interleave(words, gaps))
    ensures SplitWhitespace(Interleave(words, gaps)) == words
    decreases |gaps|
  {
    var w := words[0];
    assert IsWord(w);
    if gaps == [] {
      WordLenOfWord(w, []);
      assert w + [] == w;
    } else {
      var tailWords, tailGaps := words[1..], gaps[1..];
      assert forall k :: 0 <= k < |tailWords| ==> tailWords[k] == words[k + 1];
      assert forall k :: 0 <= k < |tailGaps| ==> tailGaps[k] == gaps[k + 1];
      SplitInterleave(tailWords, tailGaps);
      var rest := Interleave(tailWords, tailGaps);
      assert IsGap(gaps[0]);
      SplitCons(w, gaps[0], rest);
      HeadTail(words);
    }
  }

  lemma HeadTail<T>(s: seq<T>)
    requires s != []
    ensures s == [s[0]] + s[1..]
  {
  }

  lemma AppendFront<T>(x: seq<T>, y: seq<T>)
    requires x != []
    ensures (x + y)[0] == x[0] && (x + y)[1..] == x[1..] + y
  {
  }

  /** Every piece is a word. */
  predicate AllWords(ws: seq<string>) {
    forall k :: 0 <= k < |ws| ==> IsWord(ws[k])
  }

  lemma AllWordsCons(w: string, tail: seq<string>)
    requires IsWord(w) && AllWords(tail)
    ensures AllWords([w] + tail)
  {
    var ws := [w] + tail;
    forall k | 0 <= k < |ws| ensures IsWord(ws[k]) {
      if k > 0 {
        assert ws[k] == tail[k - 1];
      }
    }
  }

  /** What follows the first word and gap of a trimmed string is a shorter
      trimmed, non-blank string. */
  lemma TrimmedRest(s: string)
    requires s != [] && IsTrimmed(s) && WordLen(s) < |s|
    ensures var rest := TrimStart(s[WordLen(s)..]);
      rest != [] && IsTrimmed(rest) && |rest| < |s|
  {
    var n := WordLen(s);
    assert n > 0;
    var t := s[n..];
    assert t[|t| - 1] == s[|s| - 1];
    TrimStartKeepsLast(t);
  }

  /** A trimmed, non-blank string splits into words only. */
  lemma {:induction false} SplitTrimmedIntoWords(s: string)
    requires s != [] && IsTrimmed(s)
    ensures AllWords(SplitWhitespace(s))
    decreases |s|
  {
    var n := WordLen(s);
    if n < |s| {
      var rest := TrimStart(s[n..]);
      TrimmedRest(s);
      SplitTrimmedIntoWords(rest);
      assert IsWhitespace(s[n..][0]);
      assert SplitWhitespace(s) == [s[..n]] + SplitWhitespace(rest);
      assert n > 0;
      AllWordsCons(s[..n], SplitWhitespace(rest));
    } else {
      assert s[..n] == s;
    }
  }

  /** The whitespace gaps between the words of a trimmed, non-blank
      string, in order. */
  function GapsOf(t: string): (r: seq<string>)
    requires t != [] && IsTrimmed(t)
    decreases |t|
  {
    var n := WordLen(t);
    if n == |t| then []
    else
      var rest := TrimStart(t[n..]);
      TrimmedRest(t);
      [t[n..|t| - |rest|]] + GapsOf(rest)
  }

  /** A word, a gap and a laid-out rest form a laid-out string. */
  lemma WordsAndGapsCons(w: string, g: string, words: seq<string>, gaps: seq<string>)
    requires IsWord(w) && IsGap(g) && WordsAndGaps(words, gaps)
    ensures WordsAndGaps([w] + words, [g] + gaps)
    ensures Interleave([w] + words, [g] + gaps) == w + g + Interleave(words, gaps)
  {
    var ws, gs := [w] + words, [g] + gaps;
    forall k | 0 <= k < |ws| ensures IsWord(ws[k]) {
      if k > 0 {
        assert ws[k] == words[k - 1];
      }
    }
    forall k | 0 <= k < |gs| ensures IsGap(gs[k]) {
      if k > 0 {
        assert gs[k] == gaps[k - 1];
      }
    }
    assert ws[1..] == words && gs[1..] == gaps;
  }

  /** The first word, the first gap and the trimmed rest of a trimmed string
      with more than one word: the string is their concatenation, and its
      split and its gaps start with them. */
  lemma TrimmedStep(t: string, n: nat, g: string, rest: string)
    requires t != [] && IsTrimmed(t) && n == WordLen(t) < |t|
    requires rest == TrimStart(t[n..]) && g == t[n..|t| - |rest|]
    ensures IsWord(t[..n]) && IsGap(g) && t == t[..n] + g + rest
    ensures SplitWhitespace(t) == [t[..n]] + SplitWhitespace(rest)
    ensures GapsOf(t) == [g] + GapsOf(rest)
  {
    var u := t[n..];
    assert IsWhitespace(u[0]);
    TrimmedRest(t);
    GapAfterWord(t, n, u, rest);
    assert u[|u| - |rest|..] == rest;
    SplitAt3(t, n, |t| - |rest|);
  }

  lemma GapAfterWord(t: string, n: nat, u: string, rest: string)
    requires n < |t| && u == t[n..] && IsWhitespace(u[0]) && rest == TrimStart(u)
    ensures IsGap(t[n..|t| - |rest|])
  {
    assert t[n..|t| - |rest|] == u[..|u| - |rest|];
  }

  lemma SplitAt3<T>(t: seq<T>, i: nat, j: nat)
    requires i <= j <= |t|
    ensures t == t[..i] + t[i..j] + t[j..]
  {
  }

  /** Every trimmed, non-blank string is its split words joined by its gaps:
      the converse of SplitInterleave. */
  lemma {:induction false} TrimmedInterleave(t: string)
    requires t != [] && IsTrimmed(t)
    ensures WordsAndGaps(SplitWhitespace(t), GapsOf(t))
    ensures Interleave(SplitWhitespace(t), GapsOf(t)) == t
    decreases |t|
  {
    var n := WordLen(t);
    if n == |t| {
      assert t[..n] == t;
    } else {
      var rest := TrimStart(t[n..]);
      var g := t[n..|t| - |rest|];
      TrimmedRest(t);
      TrimmedStep(t, n, g, rest);
      TrimmedInterleave(rest);
      WordsAndGapsCons(t[..n], g, SplitWhitespace(rest), GapsOf(rest));
    }
  }

  /** A string laid out as words joined by whitespace gaps, padded with
      whitespace on both sides. Every string that is not blank has such a
      layout (LayoutOf), and all its layouts have the same words
      (LayoutWordsUnique). */

  datatype Layout = Layout(lead: string, words: seq<string>, gaps: seq<string>, trail: string) {
    predicate Valid() {
      AllWhitespace(lead) && AllWhitespace(trail) && WordsAndGaps(words, gaps)
    }

    function Joined(): string
      requires Valid()
    {
      lead + Interleave(words, gaps) + trail
    }

    function First(): string
      requires Valid()
    {
      words[0]
    }

    function Last(): string
      requires Valid()
    {
      words[|words| - 1]
    }
  }

  /** Trimming a laid-out string and splitting it on whitespace gives back
      exactly its words. */
  lemma TrimSplitLayout(l: Layout)
    requires l.Valid()
    ensures SplitWhitespace(Trim(l.Joined())) == l.words
  {
    SplitInterleave(l.words, l.gaps);
    TrimUnique(l.lead, Interleave(l.words, l.gaps), l.trail);
  }

  /** The layout of a string that is not blank: its leading whitespace, the
      words and gaps of its trimmed text, and its trailing whitespace. */
  function LayoutOf(s: string): (l: Layout)
    requires !AllWhitespace(s)
    ensures l.Valid() && l.Joined() == s
  {
    var e := TrimEnd(s);
    var t := TrimStart(e);
    TrimParts(s);
    TrimmedInterleave(t);
    Layout(e[..|e| - |t|], SplitWhitespace(t), GapsOf(t), s[|e|..])
  }

  /** A string that is not blank is its leading whitespace, its trimmed
      text and its trailing whitespace. */
  lemma TrimParts(s: string)
    requires !AllWhitespace(s)
    ensures var e := TrimEnd(s); var t := TrimStart(e);
      t != [] && IsTrimmed(t) && s == e[..|e| - |t|] + t + s[|e|..]
  {
    var e := TrimEnd(s);
    var t := TrimStart(e);
    TrimBlank(s);
    TakeDrop(e, |e| - |t|);
    TakeDrop(s, |e|);
  }

  lemma TakeDrop<T>(s: seq<T>, n: nat)
    requires n <= |s|
    ensures s == s[..n] + s[n..]
  {
  }

  /** Two layouts of the same string have the same words. */
  lemma LayoutWordsUnique(l: Layout, m: Layout)
    requires l.Valid() && m.Valid() && l.Joined() == m.Joined()
    ensures l.words == m.words
  {
    TrimSplitLayout(l);
    TrimSplitLayout(m);
  }

  /** A comma that ends `s` apart from trailing whitespace, with at least one
      whitespace character after it: a match of /,\s+$/ at position i. */
  predicate CommaTailAt(s: string, i: nat) {
    i + 1 < |s| && s[i] == ',' && AllWhitespace(s[i + 1..])
  }

  /** `s.replace(/,\s+$/, ",")`: when the last non-whitespace character is a
      comma followed by whitespace, that whitespace is dropped. */
  function CollapseTrailingComma(s: string): (r: string)
    ensures r == s || (|r| < |s| && r == s[..|r|] && EndsWith(r, ","))
  {
    var t := TrimEnd(s);
    if |t| < |s| && t != [] && t[|t| - 1] == ',' then t else s
  }

  /** The collapse is the regular-expression replacement: a match of
      /,\s+$/ at position i keeps s up to and including the comma; with no
      match the string is unchanged. */
  lemma CollapseIsRegexReplace(s: string)
    ensures forall i: nat :: CommaTailAt(s, i) ==> CollapseTrailingComma(s) == s[..i + 1]
    ensures (forall i: nat :: !CommaTailAt(s, i)) ==> CollapseTrailingComma(s) == s
  {
    var t := TrimEnd(s);
    forall i: nat | CommaTailAt(s, i) ensures i + 1 == |t| {
      assert s == s[..i + 1] + s[i + 1..];
      TrimEndOfPadded(s[..i + 1], s[i + 1..]);
    }
    if |t| < |s| && t != [] && t[|t| - 1] == ',' {
      assert s[|t| - 1] == t[|t| - 1];
      assert s[|t|..] == s[(|t| - 1) + 1..];
      assert CommaTailAt(s, |t| - 1);
    }
  }

  /** The comma collapse never changes what `trim` then returns. */
  lemma TrimAbsorbsCommaCollapse(s: string)
    ensures Trim(CollapseTrailingComma(s)) == Trim(s)
  {
    var t := TrimEnd(s);
    if |t| < |s| && t != [] && t[|t| - 1] == ',' {
      assert CollapseTrailingComma(s) == t;
      assert TrimEnd(t) == t;
    }
  }
}
