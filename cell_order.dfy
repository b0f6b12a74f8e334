/**
 * Examples of `TournamentsApi.CellMatch` on two concrete cells: a field cell
 * is recognised by the exact, space-joined class attribute, so the same
 * three class tokens in another order no longer select the title cell.
 */
module CellOrder {
  import opened Soup
  import opened TournamentsApi

  /** A title cell whose classes appear in the order the selector spells them. */
  lemma TitleCellInSourceOrder()
    ensures Matches(FieldSelector(Title), Elem("div", ["gridCell", "Tournament", "Header"], []))
  {
    TitleTokensJoin();
    assert Join(["gridCell", "Tournament", "Header"]) in FieldSelector(Title).classes;
  }

  /** The three tokens of the title cell, joined in order, spell its class string. */
  lemma TitleTokensJoin()
    ensures Join(["gridCell", "Tournament", "Header"]) == FieldClass(Title)
  {
    var classes: seq<string> := ["gridCell", "Tournament", "Header"];
    assert classes[1..] == ["Tournament", "Header"] && classes[1..][1..] == ["Header"];
    assert Join(classes[1..]) == "Tournament" + " " + "Header";
    assert Join(classes) == "gridCell" + " " + ("Tournament" + " " + "Header");
  }

  /** The same tokens reordered: no token equals the whole class string, and the joined value differs. */
  lemma TitleCellReordered()
    ensures !Matches(FieldSelector(Title), Elem("div", ["Tournament", "gridCell", "Header"], []))
  {
    var classes: seq<string> := ["Tournament", "gridCell", "Header"];
    assert Join(classes)[0] == 'T';
  }
}
