/**
 * `scrape_league`: the snapshot record of one league, built from its configuration
 * and the results of the two parsers.
 */
module League {
  import opened Wrappers
  import opened Html
  import opened Fetcher
  import opened Site
  import opened Standings
  import opened Scores

  /** One entry of the static league table. */
  datatype LeagueConfig = LeagueConfig(leagueId: int, displayLabel: string, schoolId: int)

  /** The record written to the league's JSON file (`displayLabel` is its "label" key). `updated` is the UTC time stamp text. */
  datatype Snapshot = Snapshot(
    displayLabel: string,
    leagueId: int,
    schoolId: int,
    updated: string,
    standings: seq<Tier>,
    scores: seq<seq<string>>)

  /**
   * Scrape one league. Both pages are fetched independently; `updated` is the
   * clock reading formatted by the caller.
   */
  method ScrapeLeague(config: LeagueConfig, net: Network, soup: Soup, updated: string)
    returns (snapshot: Snapshot)
    ensures snapshot.displayLabel == config.displayLabel
    ensures snapshot.leagueId == config.leagueId
    ensures snapshot.schoolId == config.schoolId
    ensures snapshot.updated == updated
    ensures snapshot.standings == StandingsPage(FetchResult(net, StandingsUrl(config.leagueId)), soup)
    ensures snapshot.scores == ScoresPage(FetchResult(net, ScoresUrl(config.leagueId, config.schoolId)), soup)
  {
    var standings := ParseStandings(config.leagueId, net, soup);
    var scores := ParseScores(config.leagueId, config.schoolId, net, soup);
    snapshot := Snapshot(config.displayLabel, config.leagueId, config.schoolId, updated, standings, scores);
  }

  /**
   * When every attempt on both pages fails, the snapshot is still complete, with
   * empty standings and empty scores.
   */
  lemma AllFetchesFailed(config: LeagueConfig, net: Network, soup: Soup)
    requires forall url, k :: net(url, k) == Failed
    ensures StandingsPage(FetchResult(net, StandingsUrl(config.leagueId)), soup) == []
    ensures ScoresPage(FetchResult(net, ScoresUrl(config.leagueId, config.schoolId)), soup) == []
  {
    FetchResultMeaning(net, StandingsUrl(config.leagueId));
    FetchResultMeaning(net, ScoresUrl(config.leagueId, config.schoolId));
  }
}
