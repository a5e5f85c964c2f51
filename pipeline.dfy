/**
  `main` from the list of content nodes onwards: the extraction pass, then the
  filtering, counting and top-year selection over the captured rows. Fetching
  the page, parsing the HTML and writing files are not part of this model.
*/
module Pipeline {
  import opened Wrappers
  import opened AsciiText
  import opened YearExtraction
  import opened HeadingScan
  import opened Aggregation

  /** Runs the extraction loop and then summarizes its rows. */
  method CountChristmasEpisodes(nodes: seq<Node>)
    returns (rows: seq<Row>, totalLi: nat, liWithYear: nat, outcome: Outcome)
    ensures rows == Rows(nodes) && totalLi == ItemCount(nodes) && liWithYear == |rows|
    ensures outcome.NoRowsCaptured? <==> forall k :: 0 <= k < |nodes| && nodes[k].Item? ==> ExtractYear(nodes[k].text).None?
    ensures outcome == Summarize(rows)
  {
    rows, totalLi, liWithYear := ExtractRows(nodes);
    outcome := Summarize(rows);
    NoYearNoData(nodes);
  }

  /** The run ends at the "no rows captured" warning exactly when no list
      item's text holds a year. */
  lemma NoYearNoData(nodes: seq<Node>)
    ensures Summarize(Rows(nodes)).NoRowsCaptured?
        <==> forall k :: 0 <= k < |nodes| && nodes[k].Item? ==> ExtractYear(nodes[k].text).None?
  {
    if |Rows(nodes)| > 0 {
      var k := RowOrigin(nodes, 0);
    } else {
      forall k | 0 <= k < |nodes| && nodes[k].Item?
        ensures ExtractYear(nodes[k].text).None?
      {
        if ExtractYear(nodes[k].text).Some? {
          ItemRow(nodes, k);
        }
      }
    }
  }

  /** Every row that survives the filters, and so every row the counts are
      made of, comes from a list item outside any animation section whose
      text mentions no keyword, and carries the year `extract_year` finds in
      that text. */
  lemma CountedRowOrigin(nodes: seq<Node>, x: Row) returns (k: int)
    requires x in FilterRows(Rows(nodes))
    ensures 0 <= k < |nodes| && nodes[k] == Item(x.entry)
    ensures !InAnimationAfter(nodes[..k]) && !IsSpecial(x.entry)
    ensures ExtractYear(x.entry) == Some(x.year)
  {
    var rows := Rows(nodes);
    FilterRowsSpec(rows);
    var m :| 0 <= m < |rows| && rows[m] == x;
    k := RowOrigin(nodes, m);
  }

  /** "Holiday Special" matches the keyword "holiday special". */
  lemma HolidaySpecialIsSpecial()
    ensures IsSpecial("Holiday Special (2005)")
  {
    var e := "Holiday Special" + " (2005)";
    assert e == "Holiday Special (2005)";
    assert e[0..15] == "Holiday Special";
    assert EqualsIgnoreCase(e[0..15], "holiday special");
    assert OccursAt(e, SpecialKeywords[1], 0);
  }

  /** An animated section then a live-action one whose only entry is a
      holiday special: both rows are filtered out, and the run ends in the
      `IndexError` of `counts.index[0]`. */
  lemma AllRowsFilteredExample(anim: string, carol: string, live: string, holiday: string)
    requires anim == "Animated specials" && carol == "A Christmas Carol (1971)"
    requires live == "Live-action" && holiday == "Holiday Special (2005)"
    ensures Summarize(Rows([Heading(anim)] + [Item(carol)] + [Heading(live)] + [Item(holiday)]))
         == IndexError([])
  {
    SectionsExample(anim, carol, live, holiday);
    HolidaySpecialIsSpecial();
    var r1, r2 := Row(1971, true, carol), Row(2005, false, holiday);
    assert !Kept(r1) && !Kept(r2);
    var rows := Rows([Heading(anim)] + [Item(carol)] + [Heading(live)] + [Item(holiday)]);
    assert rows == [r1] + [r2];
    NeitherKept(r1, r2);
  }

  lemma NeitherKept(r1: Row, r2: Row)
    requires !Kept(r1) && !Kept(r2)
    ensures forall x :: x in [r1] + [r2] ==> !Kept(x)
  {
    forall x | x in [r1] + [r2]
      ensures !Kept(x)
    {
      assert x == r1 || x == r2;
    }
  }
}
