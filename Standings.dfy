/**
 * `parse_standings`: every table of the standings page that looks like a standings
 * table becomes a tier, labelled by the nearest preceding sibling with text.
 */
module Standings {
  import opened Wrappers
  import opened Text
  import opened Html
  import opened Fetcher
  import opened Site

  /** One entry of the standings list: the tier label and its kept data rows. */
  datatype Tier = Tier(tier: string, rows: seq<seq<string>>)

  /** The label used when no preceding sibling has text. */
  const DefaultTier: string := "Classement"

  /** A table needs at least this many rows (a header and one more) to be read. */
  const MinRows: nat := 2

  /** Index of the nearest preceding sibling with non-empty text, or `|siblings|` when there is none. */
  function FirstLabelled(siblings: seq<string>): (k: nat)
    ensures k <= |siblings|
    ensures forall j :: 0 <= j < k ==> siblings[j] == ""
    ensures k < |siblings| ==> siblings[k] != ""
  {
    if siblings == [] || siblings[0] != "" then 0 else 1 + FirstLabelled(siblings[1..])
  }

  /** The tier label: `tier or "Classement"`. */
  function TierLabel(siblings: seq<string>): (name: string)
    ensures name != ""
    ensures (forall j :: 0 <= j < |siblings| ==> siblings[j] == "") ==> name == DefaultTier
    ensures forall k ::
      0 <= k < |siblings| && siblings[k] != "" && (forall j :: 0 <= j < k ==> siblings[j] == "")
      ==> name == siblings[k]
  {
    var k := FirstLabelled(siblings);
    if k < |siblings| then siblings[k] else DefaultTier
  }

  /**
   * The header check, as written: skip when there are no header cells, or when the
   * space-joined header text contains neither "School" nor "GP".
   */
  predicate SkipsHeader(headers: seq<string>)
  {
    var joined := Join(headers);
    headers == [] || (!Contains(joined, "School") && !Contains(joined, "GP"))
  }

  /** A single header cell mentions "School" or "GP". */
  predicate NamesStandingsColumn(cell: string)
  {
    Contains(cell, "School") || Contains(cell, "GP")
  }

  /**
   * The joined-string test is the per-cell test: a table is skipped exactly when no
   * header cell mentions "School" or "GP" (neither word contains a space).
   */
  lemma SkipsHeaderPerCell(headers: seq<string>)
    ensures SkipsHeader(headers) <==> forall k :: 0 <= k < |headers| ==> !NamesStandingsColumn(headers[k])
  {
    JoinContains(headers, "School");
    JoinContains(headers, "GP");
  }

  /**
   * The header test reads `th` and `td` cells alike: a header row passes exactly when
   * one of its cells, of either kind, mentions "School" or "GP".
   */
  lemma HeaderAccepted(row: Row)
    ensures !SkipsHeader(HeaderTexts(row)) <==> exists c :: c in row && NamesStandingsColumn(c.text)
  {
    var headers := HeaderTexts(row);
    SkipsHeaderPerCell(headers);
    if exists c :: c in row && NamesStandingsColumn(c.text) {
      var c :| c in row && NamesStandingsColumn(c.text);
      var k :| 0 <= k < |row| && row[k] == c;
      assert NamesStandingsColumn(headers[k]);
    }
    if !SkipsHeader(headers) {
      var k :| 0 <= k < |headers| && NamesStandingsColumn(headers[k]);
      assert row[k] in row;
    }
  }

  /** What one table contributes to the standings: a tier, or nothing. */
  function TableTier(table: Table): (entry: Option<Tier>)
    ensures entry.Some? ==> entry.value.tier != "" && entry.value.rows != []
    ensures entry.Some? ==> forall cells :: cells in entry.value.rows ==> |cells| >= MinCells
  {
    if |table.rows| < MinRows then None
    else if SkipsHeader(HeaderTexts(table.rows[0])) then None
    else
      var rows := KeptRows(table.rows[1..]);
      if rows == [] then None else Some(Tier(TierLabel(table.siblings), rows))
  }

  /**
   * A table yields a tier exactly when it has at least two rows, some header cell names
   * "School" or "GP", and some row after the header has at least `MinCells` `td` cells;
   * the tier's rows are then those rows after the header, in order.
   */
  lemma TableTierIff(table: Table)
    ensures TableTier(table).Some? <==>
      && |table.rows| >= MinRows
      && (exists c :: c in table.rows[0] && NamesStandingsColumn(c.text))
      && (exists j :: 1 <= j < |table.rows| && |DataTexts(table.rows[j])| >= MinCells)
    ensures TableTier(table).Some? ==>
      TableTier(table).value == Tier(TierLabel(table.siblings), KeptRows(table.rows[1..]))
  {
    if |table.rows| >= MinRows {
      HeaderAccepted(table.rows[0]);
      var rest := table.rows[1..];
      KeptRowsNonEmpty(rest);
      assert forall j :: 1 <= j < |table.rows| ==> table.rows[j] == rest[j - 1];
    }
  }

  /** The entries of a list of tables, in table order. */
  function StandingsOf(tables: seq<Table>): (standings: seq<Tier>)
    ensures |standings| <= |tables|
    ensures forall e :: e in standings ==>
      e.tier != "" && e.rows != [] && forall cells :: cells in e.rows ==> |cells| >= MinCells
  {
    if tables == [] then [] else Contribution(tables[0]) + StandingsOf(tables[1..])
  }

  /** The table's tier as a list of at most one entry. */
  function Contribution(table: Table): (entries: seq<Tier>)
    ensures |entries| <= 1
    ensures forall e :: e in entries ==> TableTier(table) == Some(e)
    ensures TableTier(table).Some? ==> entries == [TableTier(table).value]
  {
    match TableTier(table)
    case Some(e) => [e]
    case None => []
  }

  /** Reading tables commutes with concatenation: entries come out in document order. */
  lemma {:induction false} StandingsAppend(a: seq<Table>, b: seq<Table>)
    ensures StandingsOf(a + b) == StandingsOf(a) + StandingsOf(b)
  {
    if a == [] {
      assert a + b == b;
    } else {
      assert (a + b)[1..] == a[1..] + b;
      StandingsAppend(a[1..], b);
    }
  }

  lemma SingleTable(table: Table)
    ensures StandingsOf([table]) == if TableTier(table).Some? then [TableTier(table).value] else []
  {
    assert [table][1..] == [];
  }

  /** A table that yields no tier leaves the standings of the rest of the page unchanged. */
  lemma RejectedTableContributesNothing(before: seq<Table>, table: Table, after: seq<Table>)
    requires TableTier(table).None?
    ensures StandingsOf(before + [table] + after) == StandingsOf(before) + StandingsOf(after)
  {
    StandingsAppend(before + [table], after);
    StandingsAppend(before, [table]);
  }

  /** Every entry comes from one of the page's tables, and every table that yields a tier is present. */
  lemma {:induction false} StandingsMembership(tables: seq<Table>, e: Tier)
    ensures e in StandingsOf(tables) <==> exists i :: 0 <= i < |tables| && TableTier(tables[i]) == Some(e)
  {
    if tables != [] {
      StandingsMembership(tables[1..], e);
      if exists i :: 0 <= i < |tables| && TableTier(tables[i]) == Some(e) {
        var i :| 0 <= i < |tables| && TableTier(tables[i]) == Some(e);
        if i > 0 {
          assert tables[1..][i - 1] == tables[i];
        }
      }
      if exists i :: 0 <= i < |tables[1..]| && TableTier(tables[1..][i]) == Some(e) {
        var i :| 0 <= i < |tables[1..]| && TableTier(tables[1..][i]) == Some(e);
        assert tables[i + 1] == tables[1..][i];
      }
    }
  }

  /** Absent or empty page text yields no standings; otherwise the page's tables are read. */
  function StandingsPage(html: Option<string>, soup: Soup): (standings: seq<Tier>)
    ensures html == None || html == Some("") ==> standings == []
    ensures html.Some? ==> |standings| <= |soup(html.value).tables|
    ensures forall e :: e in standings ==>
      e.tier != "" && e.rows != [] && forall cells :: cells in e.rows ==> |cells| >= MinCells
  {
    if html == None || html == Some("") then [] else StandingsOf(soup(html.value).tables)
  }

  /** The table loop of `parse_standings`, over an already parsed page. */
  method ExtractStandings(tables: seq<Table>) returns (standings: seq<Tier>)
    ensures standings == StandingsOf(tables)
  {
    standings := [];
    for i := 0 to |tables|
      invariant standings == StandingsOf(tables[..i])
    {
      var table := tables[i];
      assert tables[..i + 1] == tables[..i] + [table];
      StandingsAppend(tables[..i], [table]);
      SingleTable(table);
      var entry := ReadTable(table);
      if entry.Some? {
        standings := standings + [entry.value];
      }
    }
    assert tables[..|tables|] == tables;
  }

  /**
   * The body of the table loop of `parse_standings` for one table; each `continue`
   * of the loop is a return of `None` here.
   */
  method ReadTable(table: Table) returns (entry: Option<Tier>)
    ensures entry == TableTier(table)
  {
    // walk back through the preceding siblings for a heading
    var tier: Option<string> := None;
    var k := 0;
    while k < |table.siblings|
      invariant 0 <= k <= |table.siblings|
      invariant forall j :: 0 <= j < k ==> table.siblings[j] == ""
    {
      var text := table.siblings[k];
      if text != "" {
        tier := Some(text);
        break;
      }
      k := k + 1;
    }
    assert k == FirstLabelled(table.siblings);
    assert tier == if k < |table.siblings| then Some(table.siblings[k]) else None;

    var rows := table.rows;
    if |rows| < MinRows {
      return None;
    }

    var headers := HeaderTexts(rows[0]);
    var joined := Join(headers);
    if headers == [] || (!Contains(joined, "School") && !Contains(joined, "GP")) {
      return None;
    }

    var name := if tier.Some? then tier.value else DefaultTier;
    assert name == TierLabel(table.siblings);
    var kept := KeepDataRows(rows[1..]);

    if kept == [] {
      return None;
    }
    return Some(Tier(name, kept));
  }

  /** `parse_standings(leagueid)`: fetch the league's standings page and read its tables. */
  method ParseStandings(leagueId: int, net: Network, soup: Soup) returns (standings: seq<Tier>)
    ensures standings == StandingsPage(FetchResult(net, StandingsUrl(leagueId)), soup)
    ensures FetchResult(net, StandingsUrl(leagueId)) in {None, Some("")} ==> standings == []
  {
    var url := StandingsUrl(leagueId);
    var html, _ := Fetch(url, net);
    if html == None || html == Some("") {
      return [];
    }
    var document := soup(html.value);
    standings := ExtractStandings(document.tables);
  }

  /**
   * A table headed "School | GP | W | L" (`ScenarioHeader`) under a heading, with two four-cell team rows,
   * yields one tier named by the heading holding both rows.
   */
  lemma {:induction false} OneTierScenario(heading: string, first: seq<string>, second: seq<string>)
    requires heading != "" && |first| == 4 && |second| == 4
    ensures StandingsOf([Table([heading], [ScenarioHeader(), TdRow(first), TdRow(second)])])
         == [Tier(heading, [first, second])]
  {
    var header := ScenarioHeader();
    var table := Table([heading], [header, TdRow(first), TdRow(second)]);
    ScenarioHeaderAccepted();
    TwoTeamRowsKept(first, second);
    assert table.rows[1..] == [TdRow(first), TdRow(second)];
    assert FirstLabelled([heading]) == 0;
    assert TableTier(table) == Some(Tier(heading, [first, second]));
    SingleTable(table);
  }

  function ScenarioHeader(): Row
  {
    [Cell(Th, "School"), Cell(Th, "GP"), Cell(Th, "W"), Cell(Th, "L")]
  }

  lemma ScenarioHeaderAccepted()
    ensures !SkipsHeader(HeaderTexts(ScenarioHeader()))
  {
    var headers := HeaderTexts(ScenarioHeader());
    SkipsHeaderPerCell(headers);
    assert headers[0] == "School";
    assert NamesStandingsColumn(headers[0]);
  }

  lemma TwoTeamRowsKept(first: seq<string>, second: seq<string>)
    requires |first| >= MinCells && |second| >= MinCells
    ensures KeptRows([TdRow(first), TdRow(second)]) == [first, second]
  {
    TdRowTexts(first);
    TdRowTexts(second);
    KeptRowsAppend([TdRow(first)], [TdRow(second)]);
    assert [TdRow(first), TdRow(second)] == [TdRow(first)] + [TdRow(second)];
    assert |[TdRow(first)][1..]| == 0 && |[TdRow(second)][1..]| == 0;
  }
}
