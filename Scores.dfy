/**
 * `parse_scores`: every `tr` of the scores page, in document order, whose `td` cells
 * number at least `MinCells` becomes one game row. No table grouping, no header test.
 */
module Scores {
  import opened Wrappers
  import opened Html
  import opened Fetcher
  import opened Site

  /** Absent or empty page text yields no games; otherwise every row of the page is filtered. */
  function ScoresPage(html: Option<string>, soup: Soup): (games: seq<seq<string>>)
    ensures html == None || html == Some("") ==> games == []
    ensures html.Some? ==> |games| <= |soup(html.value).rows|
    ensures forall cells :: cells in games ==> |cells| >= MinCells
  {
    if html == None || html == Some("") then [] else KeptRows(soup(html.value).rows)
  }

  /** `parse_scores(leagueid, schoolid)`: fetch the league's scores page for one school and keep its game rows. */
  method ParseScores(leagueId: int, schoolId: int, net: Network, soup: Soup) returns (games: seq<seq<string>>)
    ensures games == ScoresPage(FetchResult(net, ScoresUrl(leagueId, schoolId)), soup)
    ensures FetchResult(net, ScoresUrl(leagueId, schoolId)) in {None, Some("")} ==> games == []
    ensures forall cells :: cells in games ==> |cells| >= MinCells
  {
    var url := ScoresUrl(leagueId, schoolId);
    var html, _ := Fetch(url, net);
    if html == None || html == Some("") {
      return [];
    }
    var document := soup(html.value);
    games := KeepDataRows(document.rows);
  }

  /**
   * A page whose only row is a game row of `td` cells, with no header row at all,
   * yields exactly that row.
   */
  lemma ScoresWithoutHeader(game: seq<string>)
    requires |game| >= MinCells
    ensures KeptRows([TdRow(game)]) == [game]
  {
    TdRowTexts(game);
    var rows: seq<Row> := [TdRow(game)];
    assert rows[1..] == [];
  }
}
