/**
  The heading-scoped extraction pass of `main`: the article body is a sequence
  of nodes in document order (headings `h2`/`h3`/`h4` and list items, each
  already flattened to its text); a running flag records whether the most
  recent heading names an animation section, and every list item with a year
  becomes a row carrying that flag.
*/
module HeadingScan {
  import opened Wrappers
  import opened AsciiText
  import opened YearExtraction

  datatype Node = Heading(text: string) | Item(text: string)

  /** One captured row: `year`, `in_animation_section`, `entry`. */
  datatype Row = Row(year: int, inAnimationSection: bool, entry: string)

  /** `ANIM_HEADING_RE` matches at `i`: the whole word `animation` or
      `animated`, in any case. */
  predicate AnimationWordAt(h: string, i: int) {
    WholeWordAt(h, "animation", i) || WholeWordAt(h, "animated", i)
  }

  /** `ANIM_HEADING_RE.search(heading)` succeeds; such a heading contains
      `animation` or `animated` in some case. */
  predicate MentionsAnimation(h: string)
    ensures MentionsAnimation(h) ==> ContainsIgnoreCase(h, "animation") || ContainsIgnoreCase(h, "animated")
  {
    exists i :: 0 <= i <= |h| && AnimationWordAt(h, i)
  }

  /** `nodes[j]` is a heading and only list items follow it. */
  ghost predicate LastHeadingAt(nodes: seq<Node>, j: int) {
    0 <= j < |nodes| && nodes[j].Heading? && forall m :: j < m < |nodes| ==> nodes[m].Item?
  }

  /** The text of the last heading among `nodes`, if any. */
  function LastHeading(nodes: seq<Node>): (r: Option<string>)
    ensures r.None? <==> forall j :: 0 <= j < |nodes| ==> nodes[j].Item?
    ensures r.Some? ==> exists j :: LastHeadingAt(nodes, j) && nodes[j].text == r.value
  {
    if |nodes| == 0 then None
    else if nodes[|nodes| - 1].Heading? then
      assert LastHeadingAt(nodes, |nodes| - 1);
      Some(nodes[|nodes| - 1].text)
    else
      var before := nodes[..|nodes| - 1];
      assert forall j :: 0 <= j < |before| ==> before[j] == nodes[j];
      assert forall j :: LastHeadingAt(before, j) ==> LastHeadingAt(nodes, j);
      LastHeading(before)
  }

  /** The section flag after the nodes `nodes` have been visited: the match
      result of the last heading, false before any heading. It is set exactly
      when the heading that only list items follow names animation. */
  function InAnimationAfter(nodes: seq<Node>): (b: bool)
    ensures b <==> exists j :: LastHeadingAt(nodes, j) && MentionsAnimation(nodes[j].text)
  {
    match LastHeading(nodes)
    case None => false
    case Some(h) =>
      assert forall j, j' :: LastHeadingAt(nodes, j) && LastHeadingAt(nodes, j') ==> j == j';
      MentionsAnimation(h)
  }

  function ItemCount(nodes: seq<Node>): nat {
    if |nodes| == 0 then 0
    else ItemCount(nodes[..|nodes| - 1]) + (if nodes[|nodes| - 1].Item? then 1 else 0)
  }

  /** The number of list items whose text holds a year. */
  function ItemsWithYear(nodes: seq<Node>): nat {
    if |nodes| == 0 then 0
    else
      var n := nodes[|nodes| - 1];
      ItemsWithYear(nodes[..|nodes| - 1]) + (if n.Item? && ExtractYear(n.text).Some? then 1 else 0)
  }

  /** The row a node yields when visited after the nodes `before`: none for
      a heading or for a list item without a year. */
  function RowOf(before: seq<Node>, n: Node): seq<Row> {
    match n
    case Heading(_) => []
    case Item(text) =>
      match ExtractYear(text)
      case None => []
      case Some(y) => [Row(y, InAnimationAfter(before), text)]
  }

  /** The rows the pass emits for `nodes`: one per list item whose text has a
      year, in document order, flagged with the section flag in force. */
  function Rows(nodes: seq<Node>): (r: seq<Row>)
    ensures |r| == ItemsWithYear(nodes)
    ensures forall x :: x in r ==> ExtractYear(x.entry) == Some(x.year)
  {
    if |nodes| == 0 then []
    else
      var before := nodes[..|nodes| - 1];
      Rows(before) + RowOf(before, nodes[|nodes| - 1])
  }

  /** The extraction loop of `main`. `totalLi` counts every list item,
      `liWithYear` those that produced a row. */
  method ExtractRows(nodes: seq<Node>) returns (rows: seq<Row>, totalLi: nat, liWithYear: nat)
    ensures rows == Rows(nodes)
    ensures totalLi == ItemCount(nodes)
    ensures liWithYear == |rows| == ItemsWithYear(nodes) <= totalLi <= |nodes|
  {
    rows := [];
    var inAnimation := false;
    totalLi := 0;
    liWithYear := 0;
    for i := 0 to |nodes|
      invariant inAnimation == InAnimationAfter(nodes[..i])
      invariant rows == Rows(nodes[..i])
      invariant totalLi == ItemCount(nodes[..i])
      invariant liWithYear == |rows|
    {
      PrefixSnoc(nodes, i);
      match nodes[i]
      case Heading(heading) =>
        HeadingStep(nodes[..i], heading);
        inAnimation := MentionsAnimation(heading);
      case Item(text) =>
        ItemStep(nodes[..i], text);
        totalLi := totalLi + 1;
        var year := ExtractYear(text);
        if year.Some? {
          liWithYear := liWithYear + 1;
          rows := rows + [Row(year.value, inAnimation, text)];
        }
    }
    assert nodes[..|nodes|] == nodes;
    RowsBounded(nodes);
  }

  // ---------------------------------------------------------------------
  // The section flag
  // ---------------------------------------------------------------------

  /** With no heading among the nodes the flag is still false. */
  lemma {:induction false} NoHeadingNoFlag(nodes: seq<Node>)
    requires forall k :: 0 <= k < |nodes| ==> nodes[k].Item?
    ensures LastHeading(nodes) == None && !InAnimationAfter(nodes)
  {
    if |nodes| > 0 {
      NoHeadingNoFlag(nodes[..|nodes| - 1]);
    }
  }

  /** The flag is the match result of the nearest preceding heading: after a
      heading at `j` followed only by list items, the flag is that heading's
      match, whatever came before it. */
  lemma {:induction false} NearestHeadingDecides(nodes: seq<Node>, j: int)
    requires 0 <= j < |nodes| && nodes[j].Heading?
    requires forall m :: j < m < |nodes| ==> nodes[m].Item?
    ensures LastHeading(nodes) == Some(nodes[j].text)
    ensures InAnimationAfter(nodes) == MentionsAnimation(nodes[j].text)
  {
    if j < |nodes| - 1 {
      NearestHeadingDecides(nodes[..|nodes| - 1], j);
    }
  }

  /** The items of a section, from its heading at `j` up to (not including)
      the next heading, all see that heading's match result. */
  lemma SectionScope(nodes: seq<Node>, j: int, k: int)
    requires 0 <= j < k <= |nodes| && nodes[j].Heading?
    requires forall m :: j < m < k ==> nodes[m].Item?
    ensures InAnimationAfter(nodes[..k]) == MentionsAnimation(nodes[j].text)
  {
    NearestHeadingDecides(nodes[..k], j);
  }

  // ---------------------------------------------------------------------
  // The rows
  // ---------------------------------------------------------------------

  /** At most one row per list item. */
  lemma {:induction false} RowsBounded(nodes: seq<Node>)
    ensures |Rows(nodes)| <= ItemCount(nodes) <= |nodes|
  {
    if |nodes| > 0 {
      RowsBounded(nodes[..|nodes| - 1]);
    }
  }

  /** Visiting more nodes only appends rows. */
  lemma {:induction false} RowsPrefix(nodes: seq<Node>, k: int)
    requires 0 <= k <= |nodes|
    ensures Rows(nodes[..k]) <= Rows(nodes)
    decreases |nodes|
  {
    if k < |nodes| {
      var before := nodes[..|nodes| - 1];
      assert before[..k] == nodes[..k];
      RowsPrefix(before, k);
    } else {
      assert nodes[..k] == nodes;
    }
  }

  /** Every list item with a year yields its row, placed after the rows of
      all earlier nodes: year `extract_year(text)`, the flag in force, and
      the text itself. */
  lemma ItemRow(nodes: seq<Node>, k: int)
    requires 0 <= k < |nodes| && nodes[k].Item? && ExtractYear(nodes[k].text).Some?
    ensures |Rows(nodes[..k])| < |Rows(nodes)|
    ensures Rows(nodes)[|Rows(nodes[..k])|]
      == Row(ExtractYear(nodes[k].text).value, InAnimationAfter(nodes[..k]), nodes[k].text)
  {
    assert nodes[..k + 1][..k] == nodes[..k];
    RowsPrefix(nodes, k + 1);
  }

  /** Every row comes from a list item: its entry is the item's text, its year
      is `extract_year` of that text, and its flag the one in force there. */
  lemma {:induction false} RowOrigin(nodes: seq<Node>, m: int) returns (k: int)
    requires 0 <= m < |Rows(nodes)|
    ensures 0 <= k < |nodes| && nodes[k] == Item(Rows(nodes)[m].entry)
    ensures ExtractYear(Rows(nodes)[m].entry) == Some(Rows(nodes)[m].year)
    ensures Rows(nodes)[m].inAnimationSection == InAnimationAfter(nodes[..k])
    ensures m == |Rows(nodes[..k])|
  {
    var before := nodes[..|nodes| - 1];
    assert Rows(nodes) == Rows(before) + RowOf(before, nodes[|nodes| - 1]);
    if m < |Rows(before)| {
      k := RowOrigin(before, m);
      assert Rows(nodes)[m] == Rows(before)[m];
      assert before[..k] == nodes[..k];
    } else {
      k := |nodes| - 1;
      assert Rows(nodes)[m] == RowOf(before, nodes[k])[0];
    }
  }

  // ---------------------------------------------------------------------
  // Example
  // ---------------------------------------------------------------------

  /** "Animated specials" opens an animation section. */
  lemma AnimatedHeadingMatches()
    ensures MentionsAnimation("Animated specials")
  {
    assert AnimationWordAt("Animated specials", 0);
  }

  /** "Live-action" does not; neither does a longer word such as
      "Animations". */
  lemma OtherHeadingsDoNotMatch()
    ensures !MentionsAnimation("Live-action")
    ensures !MentionsAnimation("Animations")
  {
    var l := "Live-action";
    forall i | 0 <= i <= |l|
      ensures !AnimationWordAt(l, i)
    {
      if i < 3 {
        assert ToLower(l[i]) != 'a';
      }
    }
    var w := "Animations";
    forall i | 0 <= i <= |w|
      ensures !AnimationWordAt(w, i)
    {
      if i == 0 {
        assert !AtWordBoundary(w, 9);
        assert ToLower(w[7]) != 'e';
      } else if i == 1 {
        assert !AtWordBoundary(w, 1);
      }
    }
  }

  lemma ChristmasCarolYear()
    ensures ExtractYear("A Christmas Carol (1971)") == Some(1971)
  {
    var c := "A Christmas " + "Carol (1971)";
    assert c == "A Christmas Carol (1971)";
    assert IsYearAt(c, 19) && YearValue(c, 19) == 1971;
    FindCloseLeftmost(c, 19, 23);
    assert YearBetween(c, 19, 23);
    assert forall p' :: 0 <= p' < 18 ==> c[p'] != '(';
    ParenthesizedYearWins(c, 18, 23, 19);
  }

  lemma HolidaySpecialYear()
    ensures ExtractYear("Holiday Special (2005)") == Some(2005)
  {
    var h := "Holiday " + "Special (2005)";
    assert h == "Holiday Special (2005)";
    assert IsYearAt(h, 17) && YearValue(h, 17) == 2005;
    FindCloseLeftmost(h, 17, 21);
    assert YearBetween(h, 17, 21);
    assert forall p' :: 0 <= p' < 16 ==> h[p'] != '(';
    ParenthesizedYearWins(h, 16, 21, 17);
  }

  /** An animation section followed by another section: the item under the
      first heading is flagged, and the second heading resets the flag for
      the item under it. */
  lemma TwoSections(h1: string, t1: string, y1: int, h2: string, t2: string, y2: int)
    requires MentionsAnimation(h1) && !MentionsAnimation(h2)
    requires ExtractYear(t1) == Some(y1) && ExtractYear(t2) == Some(y2)
    ensures Rows([Heading(h1)] + [Item(t1)] + [Heading(h2)] + [Item(t2)])
         == [Row(y1, true, t1)] + [Row(y2, false, t2)]
  {
    var s1: seq<Node> := [Heading(h1)];
    assert Rows(s1) == [] && InAnimationAfter(s1) by {
      HeadingStep([], h1);
      assert [] + [Heading(h1)] == s1;
    }
    var r1, r2 := Row(y1, true, t1), Row(y2, false, t2);
    var s2 := s1 + [Item(t1)];
    var s3 := s2 + [Heading(h2)];
    assert Rows(s2) == [r1] && InAnimationAfter(s2) by {
      ItemStep(s1, t1);
    }
    assert Rows(s3) == [r1] && !InAnimationAfter(s3) by {
      HeadingStep(s2, h2);
    }
    ItemStep(s3, t2);
  }

  /** The same with concrete headings and entries. */
  lemma SectionsExample(anim: string, carol: string, live: string, holiday: string)
    requires anim == "Animated specials" && carol == "A Christmas Carol (1971)"
    requires live == "Live-action" && holiday == "Holiday Special (2005)"
    ensures Rows([Heading(anim)] + [Item(carol)] + [Heading(live)] + [Item(holiday)])
         == [Row(1971, true, carol)] + [Row(2005, false, holiday)]
  {
    AnimatedHeadingMatches();
    OtherHeadingsDoNotMatch();
    ChristmasCarolYear();
    HolidaySpecialYear();
    TwoSections(anim, carol, 1971, live, holiday, 2005);
  }

  /** A heading appends no row and sets the flag to its own match result. */
  lemma HeadingStep(nodes: seq<Node>, h: string)
    ensures Rows(nodes + [Heading(h)]) == Rows(nodes)
    ensures InAnimationAfter(nodes + [Heading(h)]) == MentionsAnimation(h)
  {
    RowsSnoc(nodes, Heading(h));
  }

  /** A list item appends its row when its text holds a year, nothing
      otherwise, and leaves the flag alone. */
  lemma ItemStep(nodes: seq<Node>, t: string)
    ensures ExtractYear(t).Some? ==>
      Rows(nodes + [Item(t)]) == Rows(nodes) + [Row(ExtractYear(t).value, InAnimationAfter(nodes), t)]
    ensures ExtractYear(t).None? ==> Rows(nodes + [Item(t)]) == Rows(nodes)
    ensures InAnimationAfter(nodes + [Item(t)]) == InAnimationAfter(nodes)
  {
    RowsSnoc(nodes, Item(t));
  }

  /** The first `i + 1` nodes are the first `i` and then `nodes[i]`. */
  lemma PrefixSnoc(nodes: seq<Node>, i: int)
    requires 0 <= i < |nodes|
    ensures nodes[..i + 1] == nodes[..i] + [nodes[i]]
  {
  }

  /** One more node: the rows of the nodes before, then that node's row. */
  lemma RowsSnoc(nodes: seq<Node>, n: Node)
    ensures Rows(nodes + [n]) == Rows(nodes) + RowOf(nodes, n)
  {
    assert (nodes + [n])[..|nodes|] == nodes;
  }
}
