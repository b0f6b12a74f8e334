/**
 * The extraction half of `tournaments_api.py`: the `Tournament` record with
 * its whitespace-trimming validator, the extraction of one record from one
 * table row, and the walk over every row of every tournament table.
 */
module TournamentsApi {
  import opened Wrappers
  import opened PyStr
  import opened Soup
  import opened Lists

  /** One tournament listing; the date is kept as the raw text of its cell. */
  datatype Tournament = Tournament(
    title: string,
    date: string,
    prize: string,
    teamCountDescription: string,
    location: string)

  /** No field of `t` starts or ends with white space. */
  predicate Clean(t: Tournament)
  {
    && NoEdgeSpace(t.title)
    && NoEdgeSpace(t.date)
    && NoEdgeSpace(t.prize)
    && NoEdgeSpace(t.teamCountDescription)
    && NoEdgeSpace(t.location)
  }

  /**
   * `Tournament(title=..., date=..., ...)`: the model's `"*"` validator
   * `_clean_str` runs on every field and keeps `value.strip()`.
   */
  function NewTournament(title: string, date: string, prize: string,
                         teamCountDescription: string, location: string): (t: Tournament)
    ensures t.title == Strip(title) && t.date == Strip(date) && t.prize == Strip(prize)
    ensures t.teamCountDescription == Strip(teamCountDescription)
    ensures t.location == Strip(location)
    ensures Clean(t)
  {
    Tournament(Strip(title), Strip(date), Strip(prize), Strip(teamCountDescription), Strip(location))
  }

  /** A record is unchanged by validation exactly when it is clean. */
  lemma NewTournamentFixedIff(t: Tournament)
    ensures NewTournament(t.title, t.date, t.prize, t.teamCountDescription, t.location) == t
            <==> Clean(t)
  {
    StripFixedIff(t.title);
    StripFixedIff(t.date);
    StripFixedIff(t.prize);
    StripFixedIff(t.teamCountDescription);
    StripFixedIff(t.location);
  }

  /** Building a record again from the fields of a built record changes nothing. */
  lemma RebuildUnchanged(title: string, date: string, prize: string,
                         teamCountDescription: string, location: string)
    ensures var t := NewTournament(title, date, prize, teamCountDescription, location);
            NewTournament(t.title, t.date, t.prize, t.teamCountDescription, t.location) == t
  {
    NewTournamentFixedIff(NewTournament(title, date, prize, teamCountDescription, location));
  }

  /** The five cells a row is searched for, in the order the record's arguments are evaluated. */
  datatype Field = Title | Date | Prize | TeamCount | Location

  /** Position of a field's `.text` among the keyword arguments of `Tournament(...)`. */
  function Order(f: Field): nat
  {
    match f
    case Title => 0
    case Date => 1
    case Prize => 2
    case TeamCount => 3
    case Location => 4
  }

  /** The exact `class_` string each cell is looked up by. */
  function FieldClass(f: Field): string
  {
    match f
    case Title => "gridCell Tournament Header"
    case Date => "gridCell EventDetails Date Header"
    case Prize => "gridCell EventDetails Prize Header"
    case TeamCount => "gridCell EventDetails PlayerNumber Header"
    case Location => "gridCell EventDetails Location Header"
  }

  function FieldSelector(f: Field): Strainer
  {
    Strainer("div", [FieldClass(f)])
  }

  /** A table is a `div` with class `gridTable` or `tournamentCard`. */
  const TableSelector := Strainer("div", ["gridTable", "tournamentCard"])

  /** A row is a `div` with class `gridRow`. */
  const RowSelector := Strainer("div", ["gridRow"])

  /** What the prize becomes when a row has no prize cell. */
  const PrizePlaceholder := "TBA"

  /** The prize is the one cell a row may lack. */
  predicate Mandatory(f: Field)
  {
    f != Prize
  }

  /** The row has a cell for the field `f`. */
  predicate Found(row: Node, f: Field)
  {
    HasMatch(row, FieldSelector(f))
  }

  /**
   * Why a row produced no record: `.text` was read from the `None` that
   * `find` returned for a missing mandatory cell (Python's AttributeError).
   */
  datatype RowError = MissingCell(field: Field)

  /** The field of a record that cell `f` fills. */
  function FieldValue(t: Tournament, f: Field): string
  {
    match f
    case Title => t.title
    case Date => t.date
    case Prize => t.prize
    case TeamCount => t.teamCountDescription
    case Location => t.location
  }

  /** `_parse_row`: the record for one row, or the first missing mandatory cell. */
  function ParseRow(row: Node): (r: Result<Tournament, RowError>)
    ensures r.Success? <==> Found(row, Title) && Found(row, Date)
                            && Found(row, TeamCount) && Found(row, Location)
    ensures r.Failure? ==> Mandatory(r.error.field) && !Found(row, r.error.field)
  {
    var title := Find(row, FieldSelector(Title));
    var date := Find(row, FieldSelector(Date));
    var prize := Find(row, FieldSelector(Prize));
    var teamCount := Find(row, FieldSelector(TeamCount));
    var location := Find(row, FieldSelector(Location));
    if title.None? then Failure(MissingCell(Title))
    else if date.None? then Failure(MissingCell(Date))
    else if teamCount.None? then Failure(MissingCell(TeamCount))
    else if location.None? then Failure(MissingCell(Location))
    else
      Success(NewTournament(
        Text(title.value),
        Text(date.value),
        if prize.Some? then Text(prize.value) else PrizePlaceholder,
        Text(teamCount.value),
        Text(location.value)))
  }

  /**
   * A failing row names the first mandatory cell, in argument order, that it
   * lacks: every mandatory cell before it was found.
   */
  lemma ParseRowFirstMissing(row: Node, f: Field)
    requires ParseRow(row).Failure?
    requires Mandatory(f) && Order(f) < Order(ParseRow(row).error.field)
    ensures Found(row, f)
  {
  }

  /** Every record a row yields is clean. */
  lemma ParseRowClean(row: Node)
    requires ParseRow(row).Success?
    ensures Clean(ParseRow(row).value)
  {
  }

  /** Each field of the record is the stripped text of the first cell found for it. */
  lemma ParseRowField(row: Node, f: Field, cell: Node)
    requires ParseRow(row).Success?
    requires IsFirstMatch(row, FieldSelector(f), cell)
    ensures FieldValue(ParseRow(row).value, f) == Strip(Text(cell))
  {
    FindGivesFirstMatch(row, FieldSelector(f));
    assert Find(row, FieldSelector(f)) == Some(cell);
    match f
    case Title =>
    case Date =>
    case Prize =>
    case TeamCount =>
    case Location =>
  }

  /** A row without a prize cell gets the placeholder prize. */
  lemma ParseRowPrizeDefault(row: Node)
    requires ParseRow(row).Success?
    requires !Found(row, Prize)
    ensures ParseRow(row).value.prize == PrizePlaceholder
  {
    PlaceholderIsClean();
  }

  /** The placeholder survives the validator unchanged. */
  lemma PlaceholderIsClean()
    ensures Strip(PrizePlaceholder) == PrizePlaceholder
  {
    assert NoEdgeSpace(PrizePlaceholder);
    StripFixedIff(PrizePlaceholder);
  }

  /** For each table, the rows found in it, in document order. */
  function RowGroups(tables: seq<Node>): seq<seq<Node>>
  {
    seq(|tables|, i requires 0 <= i < |tables| => FindAll(tables[i], RowSelector))
  }

  /** The tables of the document, in document order. */
  function Tables(html: Node): seq<Node>
  {
    FindAll(html, TableSelector)
  }

  /** The rows `_parse_html` visits: table by table, each table's rows in document order. */
  function Rows(html: Node): seq<Node>
  {
    Flatten(RowGroups(Tables(html)))
  }

  /** What `_parse_row` gives for each of `rows`. */
  function Outcomes(rows: seq<Node>): (r: seq<Result<Tournament, RowError>>)
    ensures |r| == |rows| && forall k :: 0 <= k < |rows| ==> r[k] == ParseRow(rows[k])
  {
    seq(|rows|, k requires 0 <= k < |rows| => ParseRow(rows[k]))
  }

  lemma OutcomesAppend(a: seq<Node>, b: seq<Node>)
    ensures Outcomes(a + b) == Outcomes(a) + Outcomes(b)
  {
    var l, r := Outcomes(a + b), Outcomes(a) + Outcomes(b);
    forall k | 0 <= k < |l|
      ensures l[k] == r[k]
    {
      if k < |a| {
        assert (a + b)[k] == a[k];
      } else {
        assert (a + b)[k] == b[k - |a|];
      }
    }
  }

  /** The outcome of parsing `rows` one after the other, stopping at the first that raises. */
  function ParseAll(rows: seq<Node>): (r: Result<seq<Tournament>, RowError>)
    ensures r.Success? ==> |r.value| == |rows|
  {
    Collect(Outcomes(rows))
  }

  /** The rows parse as a whole exactly when each row parses, and record `k` is row `k`'s. */
  lemma ParseAllSuccess(rows: seq<Node>)
    ensures ParseAll(rows).Success? <==> forall k :: 0 <= k < |rows| ==> ParseRow(rows[k]).Success?
    ensures ParseAll(rows).Success? ==>
              forall k :: 0 <= k < |rows| ==> ParseRow(rows[k]) == Success(ParseAll(rows).value[k])
  {
    CollectSuccess(Outcomes(rows));
  }

  /** A failing batch fails with the error of its first failing row. */
  lemma ParseAllFailure(rows: seq<Node>)
    requires ParseAll(rows).Failure?
    ensures exists k :: 0 <= k < |rows| && ParseRow(rows[k]) == Failure(ParseAll(rows).error)
                        && forall j :: 0 <= j < k ==> ParseRow(rows[j]).Success?
  {
    CollectFailure(Outcomes(rows));
  }

  /**
   * `_parse_html`: parse every row of every table, in order, into one list;
   * the first row that cannot be parsed aborts the whole call.
   */
  method ParseHtml(html: Node) returns (r: Result<seq<Tournament>, RowError>)
    ensures r == ParseAll(Rows(html))
  {
    var tournaments: seq<Tournament> := [];
    var tables := FindAll(html, TableSelector);
    ghost var groups := RowGroups(tables);
    for i := 0 to |tables|
      invariant ParseAll(Flatten(groups[..i])) == Success(tournaments)
    {
      var rows := FindAll(tables[i], RowSelector);
      assert rows == groups[i];
      ghost var before := Flatten(groups[..i]);
      Extend(before, rows, 0);
      for j := 0 to |rows|
        invariant ParseAll(before + rows[..j]) == Success(tournaments)
      {
        var record := ParseRow(rows[j]);
        ParseAllStep(before + rows[..j], rows[j], tournaments);
        Extend(before, rows, j + 1);
        if record.Failure? {
          ParseAllAbort(groups, i, j);
          return Failure(record.error);
        }
        tournaments := tournaments + [record.value];
      }
      FlattenNext(groups, i);
    }
    assert groups[..|tables|] == groups;
    return Success(tournaments);
  }

  /** One more row: its record is appended, or its error becomes the outcome. */
  lemma ParseAllStep(done: seq<Node>, row: Node, acc: seq<Tournament>)
    requires ParseAll(done) == Success(acc)
    ensures ParseRow(row).Success? ==> ParseAll(done + [row]) == Success(acc + [ParseRow(row).value])
    ensures ParseRow(row).Failure? ==> ParseAll(done + [row]) == Failure(ParseRow(row).error)
  {
    OutcomesAppend(done, [row]);
    assert Outcomes(done + [row])[..|done|] == Outcomes(done);
  }

  /** A row that fails, after rows that all parsed, decides the outcome of all the rows. */
  lemma ParseAllAbort(groups: seq<seq<Node>>, i: int, j: int)
    requires 0 <= i < |groups| && 0 <= j < |groups[i]|
    requires ParseAll(Flatten(groups[..i]) + groups[i][..j + 1]).Failure?
    ensures ParseAll(Flatten(groups)) == ParseAll(Flatten(groups[..i]) + groups[i][..j + 1])
  {
    var done := Flatten(groups[..i]) + groups[i][..j + 1];
    var rest := groups[i][j + 1..] + Flatten(groups[i + 1..]);
    FlattenSplit(groups, i, j);
    OutcomesAppend(done, rest);
    CollectStopsAtFailure(Outcomes(done), Outcomes(rest));
  }

  /** One record per visited row: as many records as rows found, summed over the tables. */
  lemma RecordCount(html: Node)
    requires ParseAll(Rows(html)).Success?
    ensures |ParseAll(Rows(html)).value| == TotalLength(RowGroups(Tables(html)))
  {
    FlattenLength(RowGroups(Tables(html)));
  }

  /**
   * The record of row `j` of table `i` sits after the records of all rows of
   * the tables before it and of the `j` rows before it in its table.
   */
  lemma RecordAt(html: Node, i: int, j: int)
    requires 0 <= i < |Tables(html)| && 0 <= j < |FindAll(Tables(html)[i], RowSelector)|
    requires ParseAll(Rows(html)).Success?
    ensures var k := TotalLength(RowGroups(Tables(html))[..i]) + j;
            && k < |ParseAll(Rows(html)).value|
            && ParseRow(FindAll(Tables(html)[i], RowSelector)[j]) == Success(ParseAll(Rows(html)).value[k])
  {
    FlattenAt(RowGroups(Tables(html)), i, j);
    ParseAllSuccess(Rows(html));
  }

  /** Every record comes from row `j` of some table `i`, at the place RecordAt gives it. */
  lemma RecordSource(html: Node, k: int)
    requires ParseAll(Rows(html)).Success? && 0 <= k < |ParseAll(Rows(html)).value|
    ensures exists i, j :: 0 <= i < |Tables(html)| && 0 <= j < |FindAll(Tables(html)[i], RowSelector)|
                           && k == TotalLength(RowGroups(Tables(html))[..i]) + j
                           && ParseRow(FindAll(Tables(html)[i], RowSelector)[j])
                              == Success(ParseAll(Rows(html)).value[k])
  {
    var tables := Tables(html);
    var groups := RowGroups(tables);
    FlattenSource(groups, k);
    var i, j :| 0 <= i < |groups| && 0 <= j < |groups[i]|
                && k == TotalLength(groups[..i]) + j && Flatten(groups)[k] == groups[i][j];
    ParseAllAt(Rows(html), k);
    assert groups[i] == FindAll(tables[i], RowSelector);
  }

  /** Record `k` of a successful parse is the record of row `k`. */
  lemma ParseAllAt(rows: seq<Node>, k: int)
    requires ParseAll(rows).Success? && 0 <= k < |rows|
    ensures ParseRow(rows[k]) == Success(ParseAll(rows).value[k])
  {
    CollectSuccess(Outcomes(rows));
  }

  /** A document without tables, or whose tables have no rows, yields the empty list. */
  lemma NoRowsNoRecords(html: Node)
    requires forall t :: t in Tables(html) ==> FindAll(t, RowSelector) == []
    ensures ParseAll(Rows(html)) == Success([])
  {
    var tables := Tables(html);
    assert forall i :: 0 <= i < |tables| ==> tables[i] in tables;
    FlattenOfEmpty(RowGroups(tables));
  }

  /** One row lacking a mandatory cell makes the whole document fail: no partial list is returned. */
  lemma BadRowFailsDocument(html: Node, k: int)
    requires 0 <= k < |Rows(html)| && ParseRow(Rows(html)[k]).Failure?
    ensures ParseAll(Rows(html)).Failure?
  {
    ParseAllSuccess(Rows(html));
  }

  /** With tokens as BeautifulSoup splits them, a table is a `div` carrying `gridTable` or `tournamentCard`. */
  lemma TableMatch(n: Node)
    requires n.Elem? && WellFormedClasses(n.classes)
    ensures Matches(TableSelector, n)
            <==> n.tag == "div" && ("gridTable" in n.classes || "tournamentCard" in n.classes)
  {
    AnyTokenMatch(n.classes, TableSelector.classes);
  }

  /** With tokens as BeautifulSoup splits them, a row is a `div` carrying `gridRow`. */
  lemma RowMatch(n: Node)
    requires n.Elem? && WellFormedClasses(n.classes)
    ensures Matches(RowSelector, n) <==> n.tag == "div" && "gridRow" in n.classes
  {
    AnyTokenMatch(n.classes, RowSelector.classes);
  }

  /**
   * With tokens as BeautifulSoup splits them, a cell is a `div` whose whole
   * class attribute is exactly the cell's class string, tokens in that order.
   */
  lemma CellMatch(n: Node, f: Field)
    requires n.Elem? && WellFormedClasses(n.classes)
    ensures Matches(FieldSelector(f), n) <==> n.tag == "div" && Join(n.classes) == FieldClass(f)
  {
    assert FieldClass(f)[8] == ' ';
    WholeValueMatch(n.classes, FieldClass(f));
  }
}
