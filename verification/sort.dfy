/** The ordering of the decorated people: the array is sorted in place by
    the text after the last single space of each name, compared with a
    comparator that stands for `localeCompare`. */
module LastNameSort {
  import opened Users
  import opened Text
  import Decoration

  // ---------------------------------------------------------------------
  // name.split(" ")

  /** No piece contains a space. */
  predicate SpaceFree(pieces: seq<string>) {
    forall k :: 0 <= k < |pieces| ==> ' ' !in pieces[k]
  }

  /** `s.split(" ")`: the pieces between single spaces. Every space ends a
      piece, so two spaces in a row give an empty piece, a leading space an
      empty first piece, a trailing space an empty last piece and the empty
      string the single piece "". */
  function SplitOnSpace(s: string): (r: seq<string>)
    ensures |r| >= 1
    ensures SpaceFree(r)
    decreases |s|
  {
    if s == [] then [""]
    else
      var rest := SplitOnSpace(s[1..]);
      if s[0] == ' ' then [""] + rest
      else [[s[0]] + rest[0]] + rest[1..]
  }

  /** The pieces joined back with single spaces: `pieces.join(" ")`. */
  function JoinOnSpace(pieces: seq<string>): string
    requires |pieces| >= 1
    decreases |pieces|
  {
    if |pieces| == 1 then pieces[0] else pieces[0] + " " + JoinOnSpace(pieces[1..])
  }

  /** Joining the pieces gives back the name. */
  lemma {:induction false} JoinSplit(s: string)
    ensures JoinOnSpace(SplitOnSpace(s)) == s
    decreases |s|
  {
    if s != [] {
      var rest := SplitOnSpace(s[1..]);
      JoinSplit(s[1..]);
      if s[0] == ' ' {
        assert ([""] + rest)[1..] == rest;
        assert s == "" + " " + s[1..];
      } else {
        var r := [[s[0]] + rest[0]] + rest[1..];
        assert r[1..] == rest[1..];
        if |rest| > 1 {
          assert JoinOnSpace(rest) == rest[0] + " " + JoinOnSpace(rest[1..]);
          assert s == [s[0]] + s[1..];
          AppendAssoc([s[0]], rest[0], " " + JoinOnSpace(rest[1..]));
          AppendAssoc(rest[0], " ", JoinOnSpace(rest[1..]));
          AppendAssoc([s[0]] + rest[0], " ", JoinOnSpace(rest[1..]));
        } else {
          assert s == [s[0]] + s[1..];
        }
      }
    }
  }

  /** A space-free word followed by more text: the word opens the first
      piece. */
  lemma {:induction false} SplitAfterWord(w: string, t: string)
    requires ' ' !in w
    ensures SplitOnSpace(w + t) ==
              [w + SplitOnSpace(t)[0]] + SplitOnSpace(t)[1..]
    decreases |w|
  {
    var r := SplitOnSpace(t);
    if w == [] {
      EmptyAppend(t);
      EmptyAppend(r[0]);
      HeadTail(r);
    } else {
      var s := w + t;
      assert s[0] == w[0] && s[0] != ' ';
      assert s[1..] == w[1..] + t;
      SplitAfterWord(w[1..], t);
      AppendAssoc([w[0]], w[1..], r[0]);
      assert [w[0]] + w[1..] == w;
    }
  }

  /** Splitting pieces that were joined with single spaces gives the
      pieces back, as long as none of them contains a space. */
  lemma {:induction false} SplitJoin(pieces: seq<string>)
    requires |pieces| >= 1 && SpaceFree(pieces)
    ensures SplitOnSpace(JoinOnSpace(pieces)) == pieces
    decreases |pieces|
  {
    var w := pieces[0];
    assert ' ' !in w;
    if |pieces| == 1 {
      SplitSpaceFree(w);
      assert pieces == [w];
    } else {
      var tail := pieces[1..];
      assert forall k :: 0 <= k < |tail| ==> tail[k] == pieces[k + 1];
      SplitJoin(tail);
      var t := " " + JoinOnSpace(tail);
      assert t[1..] == JoinOnSpace(tail);
      assert SplitOnSpace(t) == [""] + tail;
      SplitAfterWord(w, t);
      AppendAssoc(w, " ", JoinOnSpace(tail));
      AppendEmpty(w);
      HeadTail(pieces);
    }
  }

  /** A space-free string is a single piece. */
  lemma SplitSpaceFree(s: string)
    requires ' ' !in s
    ensures SplitOnSpace(s) == [s]
  {
    SplitAfterWord(s, "");
    AppendEmpty(s);
    var r := SplitOnSpace("");
    assert r == [""];
    assert [s + r[0]] + r[1..] == [s];
  }

  /** Splitting at one space splits each side on its own. */
  lemma {:induction false} SplitAtSpace(a: string, b: string)
    ensures SplitOnSpace(a + " " + b) == SplitOnSpace(a) + SplitOnSpace(b)
    decreases |a|
  {
    var t := " " + b;
    AppendAssoc(a, " ", b);
    assert t[0] == ' ' && t[1..] == b;
    if a == [] {
      EmptyAppend(t);
    } else {
      AppendFront(a, t);
      AppendAssoc(a[1..], " ", b);
      SplitAtSpace(a[1..], b);
      if a[0] != ' ' {
        AppendFront(SplitOnSpace(a[1..]), SplitOnSpace(b));
      }
    }
  }

  /** Two spaces in a row leave an empty piece between the two sides. */
  lemma DoubleSpaceGivesEmptyPiece(a: string, b: string)
    ensures SplitOnSpace(a + "  " + b) == SplitOnSpace(a) + [""] + SplitOnSpace(b)
  {
    assert "  " == " " + " ";
    AppendAssoc(a, " ", " ");
    AppendAssoc(a + " ", " ", b);
    SplitAtSpace(a, " " + b);
    EmptyAppend(" ");
    SplitAtSpace("", b);
    AppendAssoc(SplitOnSpace(a), [""], SplitOnSpace(b));
  }

  // ---------------------------------------------------------------------
  // The sort key

  /** `name.split(" ").slice(-1)[0]`: the last piece. */
  function SortKey(name: string): (r: string)
    ensures ' ' !in r
    ensures r == name || EndsWith(name, " " + r)
  {
    var pieces := SplitOnSpace(name);
    JoinSplit(name);
    if |pieces| >= 2 then JoinEndsWithLast(pieces); pieces[|pieces| - 1]
    else pieces[|pieces| - 1]
  }

  /** Joining two or more pieces ends with a space and the last piece. */
  lemma {:induction false} JoinEndsWithLast(pieces: seq<string>)
    requires |pieces| >= 2
    ensures EndsWith(JoinOnSpace(pieces), " " + pieces[|pieces| - 1])
    decreases |pieces|
  {
    var rest := pieces[1..];
    var last := pieces[|pieces| - 1];
    assert rest[|rest| - 1] == last;
    if |pieces| == 2 {
      AppendAssoc(pieces[0], " ", last);
      EndsWithAppend(pieces[0], " " + last);
    } else {
      JoinEndsWithLast(rest);
      EndsWithExtend(pieces[0] + " ", JoinOnSpace(rest), " " + last);
    }
  }

  /** A name without a space is its own key. */
  lemma KeyOfSpaceFree(name: string)
    requires ' ' !in name
    ensures SortKey(name) == name
  {
    SplitSpaceFree(name);
  }

  /** The key is the text after the last space of the name. */
  lemma KeyAfterLastSpace(a: string, b: string)
    requires ' ' !in b
    ensures SortKey(a + " " + b) == b
  {
    SplitAtSpace(a, b);
    SplitSpaceFree(b);
  }

  /** A name ending in a space has the empty key. */
  lemma TrailingSpaceKey(a: string)
    ensures SortKey(a + " ") == ""
  {
    KeyAfterLastSpace(a, "");
    AppendEmpty(a + " ");
  }

  /** Unlike the label, which trims the name and splits it on runs of
      whitespace, the sort key of a name with a trailing space is empty
      although its last word is not. */
  lemma TrailingSpaceKeyIsNotLastWord(l: Layout)
    requires l.Valid() && l.trail != [] && l.trail[|l.trail| - 1] == ' '
    ensures SortKey(l.Joined()) == "" != l.Last()
  {
    var s := l.Joined();
    AppendAssoc(l.lead + Interleave(l.words, l.gaps), l.trail[..|l.trail| - 1], [' ']);
    assert l.trail == l.trail[..|l.trail| - 1] + " ";
    TrailingSpaceKey(s[..|s| - 1]);
    assert s == s[..|s| - 1] + " ";
    assert IsWord(l.words[|l.words| - 1]);
  }

  // ---------------------------------------------------------------------
  // Ordering by key

  /** The comparator answers every pair: at least one order is accepted. */
  ghost predicate Total(cmp: (string, string) -> int) {
    forall x, y :: cmp(x, y) <= 0 || cmp(y, x) <= 0
  }

  ghost predicate Transitive(cmp: (string, string) -> int) {
    forall x, y, z :: cmp(x, y) <= 0 && cmp(y, z) <= 0 ==> cmp(x, z) <= 0
  }

  /** `u` may stand before `v`: the comparator does not ask to swap them. */
  predicate KeyLe(cmp: (string, string) -> int, u: User, v: User) {
    cmp(SortKey(u.name), SortKey(v.name)) <= 0
  }

  predicate AdjacentSorted(s: seq<User>, cmp: (string, string) -> int) {
    forall k :: 0 < k < |s| ==> KeyLe(cmp, s[k - 1], s[k])
  }

  predicate Sorted(s: seq<User>, cmp: (string, string) -> int) {
    forall i, j :: 0 <= i < j < |s| ==> KeyLe(cmp, s[i], s[j])
  }

  lemma {:induction false} AdjacentChain(s: seq<User>, cmp: (string, string) -> int, i: nat, j: nat)
    requires Transitive(cmp) && AdjacentSorted(s, cmp)
    requires i < j < |s|
    ensures KeyLe(cmp, s[i], s[j])
    decreases j - i
  {
    if i + 1 < j {
      AdjacentChain(s, cmp, i, j - 1);
      assert KeyLe(cmp, s[j - 1], s[j]);
    }
  }

  /** With a transitive comparator, ordered neighbours make the whole
      sequence ordered. */
  lemma AdjacentSortedIsSorted(s: seq<User>, cmp: (string, string) -> int)
    requires Transitive(cmp) && AdjacentSorted(s, cmp)
    ensures Sorted(s, cmp)
  {
    forall i, j | 0 <= i < j < |s| ensures KeyLe(cmp, s[i], s[j]) {
      AdjacentChain(s, cmp, i, j);
    }
  }

  /** usersWithExtras.sort(...): reorders the array in place so that
      neighbours are in key order. Every swap is of a pair the comparator
      asked to swap, so only totality of the comparator is needed. */
  method SortByLastName(a: array<User>, cmp: (string, string) -> int)
    requires Total(cmp)
    modifies a
    ensures multiset(a[..]) == multiset(old(a[..]))
    ensures AdjacentSorted(a[..], cmp)
  {
    if a.Length == 0 {
      return;
    }
    var i := 1;
    while i < a.Length
      invariant 1 <= i <= a.Length
      invariant multiset(a[..]) == multiset(old(a[..]))
      invariant AdjacentSorted(a[..i], cmp)
    {
      Insert(a, i, cmp);
      i := i + 1;
    }
    assert a[..] == a[..a.Length];
  }

  /** `s` with the elements at `x` and `y` exchanged. */
  function Swap(s: seq<User>, x: nat, y: nat): (r: seq<User>)
    requires x < |s| && y < |s|
    ensures |r| == |s| && multiset(r) == multiset(s)
  {
    s[x := s[y]][y := s[x]]
  }

  /** A swap inside the first `n` elements keeps the rest as it was. */
  lemma SwapWithin(s: seq<User>, x: nat, y: nat, n: nat)
    requires x < n && y < n && n <= |s|
    ensures Swap(s, x, y)[n..] == s[n..]
  {
  }

  /** A permutation that keeps everything from `n` on permutes the first `n`. */
  lemma PrefixPermutes(s: seq<User>, o: seq<User>, n: nat)
    requires n <= |s| == |o| && multiset(s) == multiset(o) && s[n..] == o[n..]
    ensures multiset(s[..n]) == multiset(o[..n])
  {
    var rest := multiset(s[n..]);
    assert s == s[..n] + s[n..];
    assert o == o[..n] + o[n..];
    assert multiset(s[..n]) + rest == multiset(o[..n]) + rest;
    forall x ensures multiset(s[..n])[x] == multiset(o[..n])[x] {
      assert (multiset(s[..n]) + rest)[x] == (multiset(o[..n]) + rest)[x];
    }
  }

  /** While a[i] moves down to position j: every neighbouring pair up to i
      is in key order except possibly the pair ending at j, and the
      elements on either side of position j are in key order. */
  predicate Inserting(s: seq<User>, i: nat, j: nat, cmp: (string, string) -> int)
    requires j <= i < |s|
  {
    && (forall k :: 0 < k <= i && k != j ==> KeyLe(cmp, s[k - 1], s[k]))
    && (0 < j < i ==> KeyLe(cmp, s[j - 1], s[j + 1]))
  }

  lemma InsertingStart(s: seq<User>, i: nat, cmp: (string, string) -> int)
    requires i < |s| && AdjacentSorted(s[..i], cmp)
    ensures Inserting(s, i, i, cmp)
  {
    forall k | 0 < k < i ensures KeyLe(cmp, s[k - 1], s[k]) {
      assert s[..i][k - 1] == s[k - 1] && s[..i][k] == s[k];
    }
  }

  /** Exchanging a pair the comparator asked to swap moves the open pair
      one position down. */
  lemma InsertingSwap(s: seq<User>, i: nat, j: nat, cmp: (string, string) -> int)
    requires Total(cmp)
    requires 0 < j <= i < |s| && Inserting(s, i, j, cmp)
    requires !KeyLe(cmp, s[j - 1], s[j])
    ensures Inserting(Swap(s, j - 1, j), i, j - 1, cmp)
  {
    var t := Swap(s, j - 1, j);
    assert KeyLe(cmp, t[j - 1], t[j]);
    forall k | 0 < k <= i && k != j - 1 ensures KeyLe(cmp, t[k - 1], t[k]) {
      if k == j + 1 {
        assert t[k - 1] == s[j - 1] && t[k] == s[j + 1];
      } else if k != j {
        assert t[k - 1] == s[k - 1] && t[k] == s[k];
      }
    }
    if 1 < j {
      assert t[j - 2] == s[j - 2] && t[j] == s[j - 1];
    }
  }

  /** Exchanges a[j - 1] and a[j]. */
  method SwapDown(a: array<User>, j: nat)
    requires 0 < j < a.Length
    modifies a
    ensures a[..] == Swap(old(a[..]), j - 1, j)
  {
    a[j - 1], a[j] := a[j], a[j - 1];
  }

  /** Once the open pair is in order, or a[i] reached the front, the
      prefix up to i is in key order. */
  lemma InsertingDone(s: seq<User>, i: nat, j: nat, cmp: (string, string) -> int)
    requires j <= i < |s| && Inserting(s, i, j, cmp)
    requires j == 0 || KeyLe(cmp, s[j - 1], s[j])
    ensures AdjacentSorted(s[..i + 1], cmp)
  {
    var p := s[..i + 1];
    forall k | 0 < k < |p| ensures KeyLe(cmp, p[k - 1], p[k]) {
      assert p[k - 1] == s[k - 1] && p[k] == s[k];
    }
  }

  /** One step of the sort: a[i] joins the ordered prefix a[..i]. Only the
      first i + 1 people are reordered; the rest of the array is untouched. */
  method Insert(a: array<User>, i: nat, cmp: (string, string) -> int)
    requires Total(cmp)
    requires i < a.Length && AdjacentSorted(a[..i], cmp)
    modifies a
    ensures multiset(a[..]) == multiset(old(a[..]))
    ensures multiset(a[..i + 1]) == multiset(old(a[..i + 1]))
    ensures a[i + 1..] == old(a[i + 1..])
    ensures AdjacentSorted(a[..i + 1], cmp)
  {
    SiftDown(a, i, cmp);
    PrefixPermutes(a[..], old(a[..]), i + 1);
  }

  /** Moves a[i] down past every neighbour the comparator places after it. */
  method SiftDown(a: array<User>, i: nat, cmp: (string, string) -> int)
    requires Total(cmp)
    requires i < a.Length && AdjacentSorted(a[..i], cmp)
    modifies a
    ensures multiset(a[..]) == multiset(old(a[..]))
    ensures a[i + 1..] == old(a[i + 1..])
    ensures AdjacentSorted(a[..i + 1], cmp)
  {
    var j := i;
    InsertingStart(a[..], i, cmp);
    while j > 0 && !KeyLe(cmp, a[j - 1], a[j])
      invariant 0 <= j <= i
      invariant multiset(a[..]) == multiset(old(a[..]))
      invariant a[i + 1..] == old(a[i + 1..])
      invariant Inserting(a[..], i, j, cmp)
    {
      InsertingSwap(a[..], i, j, cmp);
      SwapWithin(a[..], j - 1, j, i + 1);
      SwapDown(a, j);
      j := j - 1;
    }
    InsertingDone(a[..], i, j, cmp);
  }

  /** The fetch handler's pipeline: decorate the fetched list, then sort it
      by last name. */
  method PrepareOptions(data: seq<User>, cmp: (string, string) -> int) returns (options: array<User>)
    requires Total(cmp)
    ensures fresh(options)
    ensures multiset(options[..]) == multiset(Decoration.Decorate(data))
    ensures AdjacentSorted(options[..], cmp)
  {
    var decorated := Decoration.Decorate(data);
    options := new User[|decorated|](i requires 0 <= i < |decorated| => decorated[i]);
    assert options[..] == decorated;
    SortByLastName(options, cmp);
  }
}
