/** formatUserLabel: the display label of a person in the dropdown. The name
    is trimmed and split on whitespace, only its first and last tokens are
    kept, honorific tokens are blanked, and the label is assembled from the
    surviving tokens, the optional suffix and the optional title. */
module Label {
  import opened Users
  import opened Text

  /** The honorific tokens, matched exactly (case and punctuation count). */
  const Honorifics: set<string> :=
    {"Mr.", "Mrs.", "Ms.", "Miss", "Dr.", "Dr", "Prof.", "Professor", "Sir", "Madam", "Mx."}

  predicate IsHonorific(token: string) {
    token in Honorifics
  }

  /** Every honorific is a single word, so each can be a first or last
      token of a name. */
  lemma HonorificsAreWords()
    ensures forall h :: IsHonorific(h) ==> IsWord(h)
    ensures !IsHonorific("")
  {
  }

  /** A first or last token, blanked when it is an honorific. */
  function StripHonorific(token: string): (r: string)
    ensures r == token || r == ""
    ensures r == "" <==> token == "" || IsHonorific(token)
    ensures !IsHonorific(r)
  {
    if IsHonorific(token) then "" else token
  }

  /** The first and last name after honorific stripping; "" marks a part that
      did not survive. */
  datatype NameParts = NameParts(first: string, last: string)

  /** The first and last tokens of the trimmed name's whitespace split, each
      stripped of honorifics. The split is never empty, so both exist; a
      one-token name gives the same token for both. */
  function ResolveName(name: string): NameParts {
    var parts := SplitWhitespace(Trim(name));
    NameParts(StripHonorific(parts[0]), StripHonorific(parts[|parts| - 1]))
  }

  /** " " + suffix when the suffix is a non-empty string, else "". */
  function SuffixPart(suffix: Option<string>): (r: string)
    ensures r == "" <==> suffix == None || suffix == Some("")
    ensures r == "" || (r[0] == ' ' && r[1..] == TextOf(suffix))
  {
    if TextOf(suffix) != "" then " " + TextOf(suffix) else ""
  }

  /** " (" + title + ")" when the title is a non-empty string, else "". */
  function TitlePart(title: Option<string>): (r: string)
    ensures r == "" <==> title == None || title == Some("")
    ensures r == "" || (|r| >= 4 && r[..2] == " (" && r[2..|r| - 1] == TextOf(title) && r[|r| - 1] == ')')
  {
    if TextOf(title) != "" then " (" + TextOf(title) + ")" else ""
  }

  const UnknownName: string := "Unknown Name"

  /** A resolved part: blank, or one word. */
  predicate IsPart(t: string) {
    t == "" || IsWord(t)
  }

  /** The template string before the regular-expression replacement and the
      trim: last name, suffix part, a comma only when both parts survive, one
      space, first name, title part. */
  function RawLabel(p: NameParts, suffix: Option<string>, title: Option<string>): string {
    var comma := if p.first != "" && p.last != "" then "," else "";
    p.last + SuffixPart(suffix) + comma + " " + p.first + TitlePart(title)
  }

  /** The label assembled from resolved name parts, suffix and title. */
  function LabelOf(p: NameParts, suffix: Option<string>, title: Option<string>): string {
    if p.first != "" || p.last != "" then
      Trim(CollapseTrailingComma(RawLabel(p, suffix, title)))
    else
      UnknownName + TitlePart(title)
  }

  function FormatUserLabel(u: User): string {
    LabelOf(ResolveName(u.name), u.suffix, u.title)
  }

  predicate EndsWithComma(s: string) {
    s != [] && s[|s| - 1] == ','
  }

  lemma EndsWithCommaAppend(a: string, b: string)
    requires b != []
    ensures EndsWithComma(a + b) <==> EndsWithComma(b)
  {
    assert (a + b)[|a + b| - 1] == b[|b| - 1];
  }

  // ---------------------------------------------------------------------
  // Resolving the name

  /** A word stays a word, or is blanked when it is an honorific. */
  lemma StripWord(token: string)
    requires IsWord(token)
    ensures var r := StripHonorific(token); r == "" || (IsWord(r) && !IsHonorific(r))
  {
  }

  /** Both resolved parts are blank or a single word that is no honorific:
      indexing the first and last token never fails and never yields a
      token with whitespace in it. */
  lemma ResolvedPartsAreWords(name: string)
    ensures var p := ResolveName(name);
      && (p.first == "" || (IsWord(p.first) && !IsHonorific(p.first)))
      && (p.last == "" || (IsWord(p.last) && !IsHonorific(p.last)))
  {
    var t := Trim(name);
    var parts := SplitWhitespace(t);
    if t != [] {
      SplitTrimmedIntoWords(t);
      StripWord(parts[0]);
      StripWord(parts[|parts| - 1]);
    } else {
      assert WordLen(t) == 0;
      assert parts == [""];
    }
  }

  /** A name written as words separated by whitespace gaps, with whitespace
      padding around it, resolves to its first and last words, each stripped
      of honorifics independently; the words in between play no part. */
  lemma ResolveLayout(l: Layout)
    requires l.Valid()
    ensures ResolveName(l.Joined()) == NameParts(StripHonorific(l.First()), StripHonorific(l.Last()))
  {
    TrimSplitLayout(l);
  }

  /** A blank or whitespace-only name leaves no part. */
  lemma BlankNameResolves(name: string)
    requires AllWhitespace(name)
    ensures ResolveName(name) == NameParts("", "")
  {
    TrimBlank(name);
    SplitEmpty();
  }

  /** Two names with the same first and last words resolve alike, whatever
      words and gaps stand between them and however they are padded; since
      FormatUserLabel reads the name only through ResolveName, such names
      give the same label for every suffix and title. */
  lemma MiddleWordsIrrelevant(l1: Layout, l2: Layout)
    requires l1.Valid() && l2.Valid()
    requires l1.First() == l2.First() && l1.Last() == l2.Last()
    ensures ResolveName(l1.Joined()) == ResolveName(l2.Joined())
  {
    ResolveLayout(l1);
    ResolveLayout(l2);
  }

  // ---------------------------------------------------------------------
  // The label case by case

  /** The label case by case, written without the regular expression and
      the final trim: the reference the formatter is proved against. */
  function CaseLabel(p: NameParts, suffix: Option<string>, title: Option<string>): string {
    var sp := SuffixPart(suffix);
    var tp := TitlePart(title);
    if p.first != "" && p.last != "" then p.last + sp + ", " + p.first + tp
    else if p.first != "" then TrimStart(sp + " ") + p.first + tp
    else if p.last != "" then (if tp != "" then p.last + sp + " " + tp else TrimEnd(p.last + sp))
    else UnknownName + tp
  }

  /** The replacement of /,\s+$/ never changes the label: the trim that
      follows it removes the same whitespace. */
  lemma CommaCleanupIsNoOp(p: NameParts, suffix: Option<string>, title: Option<string>)
    requires p.first != "" || p.last != ""
    ensures LabelOf(p, suffix, title) == Trim(RawLabel(p, suffix, title))
  {
    TrimAbsorbsCommaCollapse(RawLabel(p, suffix, title));
  }

  lemma RawBoth(p: NameParts, suffix: Option<string>, title: Option<string>)
    requires p.first != "" && p.last != ""
    ensures RawLabel(p, suffix, title) == p.last + SuffixPart(suffix) + ", " + p.first + TitlePart(title)
  {
  }

  lemma RawFirstOnly(p: NameParts, suffix: Option<string>, title: Option<string>)
    requires p.first != "" && p.last == ""
    ensures RawLabel(p, suffix, title) == SuffixPart(suffix) + " " + p.first + TitlePart(title)
  {
    var sp := SuffixPart(suffix);
    EmptyAppend(sp);
    AppendEmpty(sp);
  }

  lemma RawLastOnly(p: NameParts, suffix: Option<string>, title: Option<string>)
    requires p.first == "" && p.last != ""
    ensures RawLabel(p, suffix, title) == p.last + SuffixPart(suffix) + " " + TitlePart(title)
  {
    var y := p.last + SuffixPart(suffix);
    AppendEmpty(y);
    AppendEmpty(y + " ");
  }

  /** A string ending in a non-whitespace character is left alone by the
      comma collapse and by the trailing half of the trim. */
  lemma FinishOfNonBlankEnd(s: string)
    requires s != [] && !IsWhitespace(s[|s| - 1])
    ensures Trim(CollapseTrailingComma(s)) == TrimStart(s)
  {
    TrimEndOfPadded(s, []);
    assert s + [] == s;
    assert CollapseTrailingComma(s) == s;
  }

  /** Both parts survive: "<last><suffix>, <first><title>", with nothing
      trimmed and no comma collapsed. */
  lemma BothPartsLabel(p: NameParts, suffix: Option<string>, title: Option<string>)
    requires IsWord(p.first) && IsWord(p.last)
    ensures LabelOf(p, suffix, title) == p.last + SuffixPart(suffix) + ", " + p.first + TitlePart(title)
  {
    var tp := TitlePart(title);
    RawBoth(p, suffix, title);
    var s := p.last + SuffixPart(suffix) + ", " + p.first + tp;
    assert s[0] == p.last[0];
    assert s[|s| - 1] == if tp != "" then ')' else p.first[|p.first| - 1];
    FinishOfNonBlankEnd(s);
  }

  lemma FirstOnlyRaw(sp: string, first: string, tp: string)
    requires IsWord(first)
    requires tp == [] || tp[|tp| - 1] == ')'
    ensures Trim(CollapseTrailingComma(sp + " " + first + tp)) == TrimStart(sp + " ") + first + tp
  {
    var s := sp + " " + first + tp;
    assert s[|s| - 1] == if tp != "" then ')' else first[|first| - 1];
    FinishOfNonBlankEnd(s);
    TrimStartAppendPair(sp + " ", first, tp);
  }

  /** Only the first part survives: no comma, and the space the template
      puts before the first name is trimmed away when there is no suffix. */
  lemma FirstOnlyLabel(p: NameParts, suffix: Option<string>, title: Option<string>)
    requires IsWord(p.first) && p.last == ""
    ensures LabelOf(p, suffix, title) == TrimStart(SuffixPart(suffix) + " ") + p.first + TitlePart(title)
  {
    RawFirstOnly(p, suffix, title);
    FirstOnlyRaw(SuffixPart(suffix), p.first, TitlePart(title));
  }

  lemma LastOnlyTitledRaw(last: string, sp: string, tp: string)
    requires IsWord(last)
    requires tp != [] && tp[|tp| - 1] == ')'
    ensures Trim(CollapseTrailingComma(last + sp + " " + tp)) == last + sp + " " + tp
  {
    var s := last + sp + " " + tp;
    assert s[0] == last[0];
    assert s[|s| - 1] == ')';
    FinishOfNonBlankEnd(s);
    TrimStartOfPadded([], s);
    assert [] + s == s;
  }

  lemma LastOnlyUntitledRaw(last: string, sp: string)
    requires IsWord(last)
    ensures Trim(CollapseTrailingComma(last + sp + " ")) == TrimEnd(last + sp) != []
  {
    var y := last + sp;
    TrimAbsorbsCommaCollapse(y + " ");
    TrimEndDropsSpace(y);
    assert y[0] == last[0];
    TrimEndKeepsFirst(y);
  }

  /** Only the last part survives: no comma. With a title the label is
      "<last><suffix> " followed by the title part, so two spaces stand
      before the parenthesis; without one it is "<last><suffix>" with
      trailing whitespace removed. */
  lemma LastOnlyLabel(p: NameParts, suffix: Option<string>, title: Option<string>)
    requires p.first == "" && IsWord(p.last)
    ensures TextOf(title) != "" ==>
              LabelOf(p, suffix, title) == p.last + SuffixPart(suffix) + " " + TitlePart(title)
    ensures TextOf(title) == "" ==>
              LabelOf(p, suffix, title) == TrimEnd(p.last + SuffixPart(suffix)) != []
  {
    var sp := SuffixPart(suffix);
    var tp := TitlePart(title);
    RawLastOnly(p, suffix, title);
    if tp != "" {
      LastOnlyTitledRaw(p.last, sp, tp);
    } else {
      assert p.last + sp + " " + tp == p.last + sp + " ";
      LastOnlyUntitledRaw(p.last, sp);
    }
  }

  /** Neither part survives. */
  lemma NoPartLabel(p: NameParts, suffix: Option<string>, title: Option<string>)
    requires p.first == "" && p.last == ""
    ensures LabelOf(p, suffix, title) == UnknownName + TitlePart(title)
  {
  }

  lemma BothPartsCases(p: NameParts, suffix: Option<string>, title: Option<string>)
    requires IsWord(p.first) && IsWord(p.last)
    ensures LabelOf(p, suffix, title) == CaseLabel(p, suffix, title)
  {
    BothPartsLabel(p, suffix, title);
  }

  lemma FirstOnlyCases(p: NameParts, suffix: Option<string>, title: Option<string>)
    requires IsWord(p.first) && p.last == ""
    ensures LabelOf(p, suffix, title) == CaseLabel(p, suffix, title)
  {
    FirstOnlyLabel(p, suffix, title);
  }

  lemma LastOnlyCases(p: NameParts, suffix: Option<string>, title: Option<string>)
    requires p.first == "" && IsWord(p.last)
    ensures LabelOf(p, suffix, title) == CaseLabel(p, suffix, title)
  {
    LastOnlyLabel(p, suffix, title);
  }

  /** The formatter agrees with the case-by-case label on every pair of
      resolved parts. */
  lemma LabelOfCases(p: NameParts, suffix: Option<string>, title: Option<string>)
    requires IsPart(p.first) && IsPart(p.last)
    ensures LabelOf(p, suffix, title) == CaseLabel(p, suffix, title)
  {
    if p.first != "" && p.last != "" {
      BothPartsCases(p, suffix, title);
    } else if p.first != "" {
      FirstOnlyCases(p, suffix, title);
    } else if p.last != "" {
      LastOnlyCases(p, suffix, title);
    } else {
      NoPartLabel(p, suffix, title);
    }
  }

  // ---------------------------------------------------------------------
  // Properties of the case-by-case label

  /** With only the first part surviving and no suffix, the label is the
      first name and the title part: the space before the first name is
      trimmed away. */
  lemma FirstOnlyNoSuffix(p: NameParts, suffix: Option<string>, title: Option<string>)
    requires p.first != "" && p.last == "" && TextOf(suffix) == ""
    ensures CaseLabel(p, suffix, title) == p.first + TitlePart(title)
  {
    assert SuffixPart(suffix) + " " == " ";
    assert " "[1..] == "";
    assert "" + p.first == p.first;
  }

  /** With only the first part surviving and a suffix that begins with a
      non-whitespace character, the suffix leads: "<suffix> <first><title>". */
  lemma FirstOnlyWithSuffix(p: NameParts, suffix: Option<string>, title: Option<string>)
    requires p.first != "" && p.last == ""
    requires TextOf(suffix) != "" && !IsWhitespace(TextOf(suffix)[0])
    ensures CaseLabel(p, suffix, title) == TextOf(suffix) + " " + p.first + TitlePart(title)
  {
    var x := TextOf(suffix);
    assert SuffixPart(suffix) + " " == " " + (x + " ");
    assert (x + " ")[0] == x[0];
    TrimStartOfPadded(" ", x + " ");
  }

  /** A non-empty title always ends the label as " (" + title + ")". */
  lemma TitleEndsCaseLabel(p: NameParts, suffix: Option<string>, title: Option<string>)
    requires TextOf(title) != ""
    ensures EndsWith(CaseLabel(p, suffix, title), " (" + TextOf(title) + ")")
  {
    var sp := SuffixPart(suffix);
    var tp := TitlePart(title);
    if p.first != "" && p.last != "" {
      EndsWithAppend(p.last + sp + ", " + p.first, tp);
    } else if p.first != "" {
      EndsWithAppend(TrimStart(sp + " ") + p.first, tp);
    } else if p.last != "" {
      EndsWithAppend(p.last + sp + " ", tp);
    } else {
      EndsWithAppend(UnknownName, tp);
    }
  }

  lemma ShapeBoth(p: NameParts, suffix: Option<string>, title: Option<string>)
    requires IsWord(p.first) && IsWord(p.last)
    ensures CaseLabel(p, suffix, title) != [] && IsTrimmed(CaseLabel(p, suffix, title))
  {
    var tp := TitlePart(title);
    var r := CaseLabel(p, suffix, title);
    assert r == p.last + SuffixPart(suffix) + ", " + p.first + tp;
    assert r[0] == p.last[0];
    assert r[|r| - 1] == if tp != "" then ')' else p.first[|p.first| - 1];
  }

  lemma ShapeFirstOnly(p: NameParts, suffix: Option<string>, title: Option<string>)
    requires IsWord(p.first) && p.last == ""
    ensures CaseLabel(p, suffix, title) != [] && IsTrimmed(CaseLabel(p, suffix, title))
  {
    var tp := TitlePart(title);
    var a := TrimStart(SuffixPart(suffix) + " ");
    var r := CaseLabel(p, suffix, title);
    assert r == a + p.first + tp;
    assert r[0] == if a != "" then a[0] else p.first[0];
    assert r[|r| - 1] == if tp != "" then ')' else p.first[|p.first| - 1];
  }

  lemma ShapeLastOnly(p: NameParts, suffix: Option<string>, title: Option<string>)
    requires p.first == "" && IsWord(p.last)
    ensures CaseLabel(p, suffix, title) != [] && IsTrimmed(CaseLabel(p, suffix, title))
  {
    var sp := SuffixPart(suffix);
    var tp := TitlePart(title);
    var r := CaseLabel(p, suffix, title);
    if tp != "" {
      assert r == p.last + sp + " " + tp;
      assert r[0] == p.last[0];
      assert r[|r| - 1] == ')';
    } else {
      assert (p.last + sp)[0] == p.last[0];
      TrimEndKeepsFirst(p.last + sp);
    }
  }

  lemma ShapeNoPart(p: NameParts, suffix: Option<string>, title: Option<string>)
    requires p.first == "" && p.last == ""
    ensures CaseLabel(p, suffix, title) != [] && IsTrimmed(CaseLabel(p, suffix, title))
  {
    var tp := TitlePart(title);
    var r := CaseLabel(p, suffix, title);
    assert r == UnknownName + tp;
    assert r[0] == 'U';
    assert r[|r| - 1] == if tp != "" then ')' else 'e';
  }

  /** The label is never empty and never begins or ends with whitespace. */
  lemma CaseLabelShape(p: NameParts, suffix: Option<string>, title: Option<string>)
    requires IsPart(p.first) && IsPart(p.last)
    ensures CaseLabel(p, suffix, title) != [] && IsTrimmed(CaseLabel(p, suffix, title))
  {
    if p.first != "" && p.last != "" {
      ShapeBoth(p, suffix, title);
    } else if p.first != "" {
      ShapeFirstOnly(p, suffix, title);
    } else if p.last != "" {
      ShapeLastOnly(p, suffix, title);
    } else {
      ShapeNoPart(p, suffix, title);
    }
  }

  /** The label ends in a comma exactly when there is no title and the comma
      is the last character of the surviving first name, or, with no first
      name, of the last name and suffix. The comma the formatter inserts
      between the parts is never the last character. */
  lemma CaseLabelEndsWithComma(p: NameParts, suffix: Option<string>, title: Option<string>)
    requires IsPart(p.first) && IsPart(p.last)
    ensures EndsWithComma(CaseLabel(p, suffix, title)) <==>
              && TextOf(title) == ""
              && if p.first != "" then EndsWithComma(p.first)
                 else p.last != "" && EndsWithComma(TrimEnd(p.last + SuffixPart(suffix)))
  {
    var sp := SuffixPart(suffix);
    var tp := TitlePart(title);
    var r := CaseLabel(p, suffix, title);
    if tp != "" {
      TitleEndsCaseLabel(p, suffix, title);
      assert r[|r| - 1] == tp[|tp| - 1] == ')';
    } else if p.first != "" && p.last != "" {
      assert r == (p.last + sp + ", ") + p.first;
      EndsWithCommaAppend(p.last + sp + ", ", p.first);
    } else if p.first != "" {
      assert r == TrimStart(sp + " ") + p.first;
      EndsWithCommaAppend(TrimStart(sp + " "), p.first);
    } else if p.last == "" {
      assert r == UnknownName;
      assert r[|r| - 1] == 'e';
    }
  }

  // ---------------------------------------------------------------------
  // formatUserLabel on whole records

  /** FormatUserLabel is the case-by-case label of the resolved name. */
  lemma FormatCases(u: User)
    ensures FormatUserLabel(u) == CaseLabel(ResolveName(u.name), u.suffix, u.title)
  {
    ResolvedPartsAreWords(u.name);
    LabelOfCases(ResolveName(u.name), u.suffix, u.title);
  }

  /** A blank or whitespace-only name gives "Unknown Name" and the title part. */
  lemma BlankNameLabel(u: User)
    requires AllWhitespace(u.name)
    ensures FormatUserLabel(u) == UnknownName + TitlePart(u.title)
  {
    BlankNameResolves(u.name);
    NoPartLabel(ResolveName(u.name), u.suffix, u.title);
  }

  /** A name whose first and last words are both honorifics gives "Unknown
      Name" and the title part, whatever stands between them. */
  lemma HonorificNameLabel(u: User, l: Layout)
    requires l.Valid() && u.name == l.Joined()
    requires IsHonorific(l.First()) && IsHonorific(l.Last())
    ensures FormatUserLabel(u) == UnknownName + TitlePart(u.title)
  {
    ResolveLayout(l);
    NoPartLabel(ResolveName(u.name), u.suffix, u.title);
  }

  /** A name whose first and last words are no honorifics gives
      "<last><suffix>, <first><title>". A one-word name is its own first and
      last word, so "Cher" gives "Cher, Cher". */
  lemma PlainNameLabel(u: User, l: Layout)
    requires l.Valid() && u.name == l.Joined()
    requires !IsHonorific(l.First()) && !IsHonorific(l.Last())
    ensures FormatUserLabel(u) == l.Last() + SuffixPart(u.suffix) + ", " + l.First() + TitlePart(u.title)
  {
    ResolveLayout(l);
    BothPartsLabel(ResolveName(u.name), u.suffix, u.title);
  }

  /** FormatUserLabel: a non-empty title always ends the label. */
  lemma TitleEndsLabel(u: User)
    requires TextOf(u.title) != ""
    ensures EndsWith(FormatUserLabel(u), " (" + TextOf(u.title) + ")")
  {
    FormatCases(u);
    TitleEndsCaseLabel(ResolveName(u.name), u.suffix, u.title);
  }

  /** FormatUserLabel: never empty, never padded with whitespace. */
  lemma LabelShape(u: User)
    ensures FormatUserLabel(u) != [] && IsTrimmed(FormatUserLabel(u))
  {
    FormatCases(u);
    ResolvedPartsAreWords(u.name);
    CaseLabelShape(ResolveName(u.name), u.suffix, u.title);
  }

  /** FormatUserLabel: the label ends in a comma exactly when there is no
      title and the resolved first name ends in one, or, with no first name,
      the last name and suffix do once trailing whitespace is removed. */
  lemma LabelEndsWithComma(u: User)
    ensures var p := ResolveName(u.name);
      EndsWithComma(FormatUserLabel(u)) <==>
        && TextOf(u.title) == ""
        && if p.first != "" then EndsWithComma(p.first)
           else p.last != "" && EndsWithComma(TrimEnd(p.last + SuffixPart(u.suffix)))
  {
    FormatCases(u);
    ResolvedPartsAreWords(u.name);
    CaseLabelEndsWithComma(ResolveName(u.name), u.suffix, u.title);
  }

  /** An empty suffix or title behaves exactly like an absent one. */
  lemma EmptyLikeAbsent(u: User)
    ensures FormatUserLabel(u.(suffix := Some(""))) == FormatUserLabel(u.(suffix := None))
    ensures FormatUserLabel(u.(title := Some(""))) == FormatUserLabel(u.(title := None))
  {
  }
}
