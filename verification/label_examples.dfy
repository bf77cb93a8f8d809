/** Two names worked through the formatter: a single-token name, which
    becomes both the last and the first name, and an honorific followed by a
    word ending in a comma, for which the regular-expression replacement
    matches and the label ends in that comma. */
module LabelExamples {
  import opened Users
  import opened Text
  import opened Label

  /** A name whose two resolved parts are the same word, with no suffix and
      no title, is labelled "<word>, <word>". */
  lemma SameWordLabel(w: string)
    requires IsWord(w)
    ensures LabelOf(NameParts(w, w), None, None) == w + ", " + w
  {
    BothPartsLabel(NameParts(w, w), None, None);
  }

  /** A name of which only the last word survives, with no suffix and no
      title: the template is the word and one space, and the label is the
      word. */
  lemma LastWordLabel(w: string)
    requires IsWord(w)
    ensures RawLabel(NameParts("", w), None, None) == w + " "
    ensures LabelOf(NameParts("", w), None, None) == w
  {
    var p := NameParts("", w);
    RawLastOnly(p, None, None);
    assert SuffixPart(None) == "" && TitlePart(None) == "";
    AppendEmpty(w);
    AppendEmpty(w + " ");
    LastOnlyLabel(p, None, None);
    TrimEndOfPadded(w, "");
  }

  /** A one-word name is both its first and its last token. */
  lemma OneWordName(name: string)
    requires IsWord(name)
    ensures ResolveName(name) == NameParts(StripHonorific(name), StripHonorific(name))
  {
    var l := Layout("", [name], [], "");
    assert l.Valid();
    assert l.Joined() == name;
    ResolveLayout(l);
  }

  /** A two-word name with one space between the words. */
  lemma TwoWordName(name: string, a: string, b: string)
    requires IsWord(a) && IsWord(b) && name == a + " " + b
    ensures ResolveName(name) == NameParts(StripHonorific(a), StripHonorific(b))
  {
    var l := Layout("", [a, b], [" "], "");
    assert IsGap(" ");
    assert l.Valid();
    assert l.Joined() == name;
    ResolveLayout(l);
  }

  /** A string ending in a comma, followed by one space: /,\s+$/ matches at
      the comma and the replacement drops the space. */
  lemma CommaThenSpace(w: string)
    requires w != [] && w[|w| - 1] == ','
    ensures CommaTailAt(w + " ", |w| - 1) && CollapseTrailingComma(w + " ") == w
  {
    var s := w + " ";
    assert s[|w| - 1] == ',' && s[|w|..] == " ";
    CollapseIsRegexReplace(s);
    assert s[..|w|] == w;
  }

  /** A person whose name is one word that is no honorific, with no suffix
      and no title, is labelled "<word>, <word>". */
  lemma SameWordUser(u: User, w: string)
    requires IsWord(w) && !IsHonorific(w) && u.name == w
    requires u.suffix == None && u.title == None
    ensures FormatUserLabel(u) == w + ", " + w
  {
    OneWordName(w);
    SameWordLabel(w);
  }

  lemma CherWord()
    ensures IsWord("Cher") && !IsHonorific("Cher") && "Cher" + ", " + "Cher" == "Cher, Cher"
  {
  }

  /** "Cher" is labelled "Cher, Cher". */
  lemma CherExample(u: User)
    requires u.name == "Cher" && u.suffix == None && u.title == None
    ensures FormatUserLabel(u) == "Cher, Cher"
  {
    CherWord();
    SameWordUser(u, "Cher");
  }

  /** The first token of "Dr. Smith," is an honorific and is blanked; the
      last, "Smith,", is kept with its comma. */
  lemma DrSmithResolves(name: string)
    requires name == "Dr. Smith,"
    ensures ResolveName(name) == NameParts("", "Smith,")
  {
    assert IsWord("Dr.") && IsWord("Smith,");
    assert IsHonorific("Dr.") && !IsHonorific("Smith,");
    TwoWordName(name, "Dr.", "Smith,");
  }

  /** A person whose name resolves to a last word only, with no suffix and
      no title: the template is the word and one space, the label the word. */
  lemma LastWordUser(u: User, w: string)
    requires IsWord(w) && ResolveName(u.name) == NameParts("", w)
    requires u.suffix == None && u.title == None
    ensures RawLabel(ResolveName(u.name), u.suffix, u.title) == w + " "
    ensures FormatUserLabel(u) == w
  {
    LastWordLabel(w);
  }

  lemma SmithComma()
    ensures IsWord("Smith,") && "Smith," + " " == "Smith, "
    ensures "Smith,"[|"Smith,"| - 1] == ',' && |"Smith,"| - 1 == 5
  {
  }

  /** "Dr. Smith," is labelled "Smith,": the template "Smith, " matches
      /,\s+$/, and the label ends in a comma. */
  lemma DrSmithCommaExample(u: User)
    requires u.name == "Dr. Smith," && u.suffix == None && u.title == None
    ensures ResolveName(u.name) == NameParts("", "Smith,")
    ensures RawLabel(ResolveName(u.name), u.suffix, u.title) == "Smith, "
    ensures CommaTailAt("Smith, ", 5) && CollapseTrailingComma("Smith, ") == "Smith,"
    ensures FormatUserLabel(u) == "Smith,"
  {
    DrSmithResolves(u.name);
    SmithComma();
    LastWordUser(u, "Smith,");
    CommaThenSpace("Smith,");
  }
}
