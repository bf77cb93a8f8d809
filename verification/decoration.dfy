/** The demo decoration applied to the fetched people before they are
    sorted: every even position gets the suffix "Jr.", every third position
    the title "Mr." and every fifth position that is not also a third the
    title "Mrs.". Positions count from 0 in the fetched order. */
module Decoration {
  import opened Users
  import opened Text
  import Label

  /** The suffix given to position `i`. */
  function DemoSuffix(i: nat): (r: Option<string>)
    ensures r == Some("Jr.") <==> i % 2 == 0
    ensures r == None <==> i % 2 != 0
  {
    if i % 2 == 0 then Some("Jr.") else None
  }

  /** The title given to position `i`: "Mr." takes precedence over "Mrs.". */
  function DemoTitle(i: nat): (r: Option<string>)
    ensures r == Some("Mr.") <==> i % 3 == 0
    ensures r == Some("Mrs.") <==> i % 3 != 0 && i % 5 == 0
    ensures r == None <==> i % 3 != 0 && i % 5 != 0
  {
    if i % 3 == 0 then Some("Mr.") else if i % 5 == 0 then Some("Mrs.") else None
  }

  /** The decorated copy of the fetched list: the same people in the same
      order, each with the suffix and title of its position and every other
      field as fetched. */
  function Decorate(data: seq<User>): (r: seq<User>)
    ensures |r| == |data|
    ensures forall i :: 0 <= i < |r| ==>
              r[i].(suffix := data[i].suffix, title := data[i].title) == data[i]
    ensures forall i :: 0 <= i < |r| ==> (r[i].suffix == Some("Jr.") <==> i % 2 == 0)
    ensures forall i :: 0 <= i < |r| ==> (r[i].suffix == None <==> i % 2 != 0)
    ensures forall i :: 0 <= i < |r| ==> (r[i].title == Some("Mr.") <==> i % 3 == 0)
    ensures forall i :: 0 <= i < |r| ==> (r[i].title == Some("Mrs.") <==> i % 3 != 0 && i % 5 == 0)
    ensures forall i :: 0 <= i < |r| ==> (r[i].title == None <==> i % 3 != 0 && i % 5 != 0)
  {
    seq(|data|, i requires 0 <= i < |data| => data[i].(suffix := DemoSuffix(i), title := DemoTitle(i)))
  }

  /** Positions 0 and 15 are both multiples of 3 and of 5; "Mr." wins. */
  lemma MrWinsOverMrs()
    ensures DemoTitle(0) == Some("Mr.") && DemoTitle(15) == Some("Mr.")
    ensures DemoTitle(5) == Some("Mrs.") && DemoTitle(10) == Some("Mrs.")
    ensures DemoTitle(1) == None && DemoTitle(7) == None
  {
  }

  /** Every decorated person with a title has a label ending in " (Mr.)" at
      a multiple of 3 and in " (Mrs.)" at any other multiple of 5. */
  lemma DecoratedTitleEndsLabel(data: seq<User>, i: nat)
    requires i < |data| && (i % 3 == 0 || i % 5 == 0)
    ensures EndsWith(Label.FormatUserLabel(Decorate(data)[i]),
                     if i % 3 == 0 then " (Mr.)" else " (Mrs.)")
  {
    var u := Decorate(data)[i];
    Label.TitleEndsLabel(u);
    TitleTail(i);
  }

  lemma TitleTail(i: nat)
    requires i % 3 == 0 || i % 5 == 0
    ensures " (" + TextOf(DemoTitle(i)) + ")" == if i % 3 == 0 then " (Mr.)" else " (Mrs.)"
  {
  }

  lemma SuffixText(i: nat)
    ensures Label.SuffixPart(DemoSuffix(i)) == if i % 2 == 0 then " Jr." else ""
  {
  }

  /** A decorated person whose first and last words are no honorifics gets
      "<last> Jr., <first>" at even positions and "<last>, <first>" at odd
      ones, followed by the title part of the position. */
  lemma DecoratedPlainLabel(data: seq<User>, i: nat, l: Layout)
    requires i < |data| && l.Valid() && data[i].name == l.Joined()
    requires !Label.IsHonorific(l.First()) && !Label.IsHonorific(l.Last())
    ensures Label.FormatUserLabel(Decorate(data)[i]) ==
              l.Last() + (if i % 2 == 0 then " Jr." else "") + ", " + l.First()
              + Label.TitlePart(DemoTitle(i))
  {
    var u := Decorate(data)[i];
    Label.PlainNameLabel(u, l);
    SuffixText(i);
  }
}
