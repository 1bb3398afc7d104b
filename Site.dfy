/** The fixed host and the two page addresses built from a league's identifiers. */
module Site {
  import opened Text

  const BaseUrl: string := "https://www.hssaa.ca"

  const StandingsPath: string := "/displayStandings.php?leagueid="

  const ScoresPath: string := "/viewScores.php?leagueid="

  const SchoolParam: string := "&schoolid="

  /** The standings page of a league. */
  function StandingsUrl(leagueId: int): (url: string)
    ensures BaseUrl + StandingsPath <= url
    ensures IsNumeral(url[|BaseUrl + StandingsPath|..])
         && ParseDecimal(url[|BaseUrl + StandingsPath|..]) == leagueId
  {
    DecimalRoundTrip(leagueId);
    var url := BaseUrl + StandingsPath + Decimal(leagueId);
    assert url[|BaseUrl + StandingsPath|..] == Decimal(leagueId);
    url
  }

  /** The scores page of a league, restricted to one school. */
  function ScoresUrl(leagueId: int, schoolId: int): (url: string)
    ensures BaseUrl + ScoresPath <= url
    ensures var p := |BaseUrl + ScoresPath|;
            var q := p + |Decimal(leagueId)|;
            && q + |SchoolParam| <= |url|
            && '&' !in url[p..q]
            && url[q..q + |SchoolParam|] == SchoolParam
            && IsNumeral(url[p..q]) && ParseDecimal(url[p..q]) == leagueId
            && IsNumeral(url[q + |SchoolParam|..]) && ParseDecimal(url[q + |SchoolParam|..]) == schoolId
  {
    DecimalRoundTrip(leagueId);
    DecimalRoundTrip(schoolId);
    DecimalHasNoAmpersand(leagueId);
    var prefix, league, school := BaseUrl + ScoresPath, Decimal(leagueId), Decimal(schoolId);
    var url := prefix + league + SchoolParam + school;
    assert url[|prefix|..|prefix| + |league|] == league;
    assert url[|prefix| + |league|..|prefix| + |league| + |SchoolParam|] == SchoolParam;
    assert url[|prefix| + |league| + |SchoolParam|..] == school;
    url
  }

  /** Distinct leagues are fetched from distinct standings pages. */
  lemma StandingsUrlInjective(a: int, b: int)
    ensures StandingsUrl(a) == StandingsUrl(b) <==> a == b
  {
    if StandingsUrl(a) == StandingsUrl(b) {
      CancelPrefix(BaseUrl + StandingsPath, Decimal(a), Decimal(b));
      DecimalInjective(a, b);
    }
  }

  lemma CancelPrefix(p: string, x: string, y: string)
    requires p + x == p + y
    ensures x == y
  {
    assert x == (p + x)[|p|..];
    assert y == (p + y)[|p|..];
  }

  lemma AgreeAt(u: string, v: string, u': string, v': string)
    requires u + v == u' + v' && |u| < |u'| && v != []
    ensures u'[|u|] == v[0]
  {
    assert (u + v)[|u|] == v[0];
  }

  /** A numeral never contains `&`, so the first `&` ends it. */
  lemma SplitAtAmpersand(u: string, v: string, u': string, v': string)
    requires '&' !in u && '&' !in u'
    requires v != [] && v[0] == '&' && v' != [] && v'[0] == '&'
    requires u + v == u' + v'
    ensures u == u' && v == v'
  {
    if |u| < |u'| {
      AgreeAt(u, v, u', v');
    } else if |u'| < |u| {
      AgreeAt(u', v', u, v);
    } else {
      assert u == (u + v)[..|u|];
      assert u' == (u' + v')[..|u'|];
      assert v == (u + v)[|u|..];
      assert v' == (u' + v')[|u'|..];
    }
  }

  lemma DecimalHasNoAmpersand(n: int)
    ensures '&' !in Decimal(n)
  {
    var d := Decimal(n);
    forall i | 0 <= i < |d| ensures d[i] != '&' {
    }
  }

  lemma Regroup(p: string, u: string, q: string, v: string)
    ensures p + u + q + v == p + (u + (q + v))
  {
  }

  /** A prefix, a numeral, a separator starting with `&` and a numeral: the text determines both numbers. */
  lemma NumberPairInjective(p: string, q: string, a: int, s: int, b: int, t: int)
    requires q != [] && q[0] == '&'
    requires p + Decimal(a) + q + Decimal(s) == p + Decimal(b) + q + Decimal(t)
    ensures a == b && s == t
  {
    var da, ds, db, dt := Decimal(a), Decimal(s), Decimal(b), Decimal(t);
    Regroup(p, da, q, ds);
    Regroup(p, db, q, dt);
    CancelPrefix(p, da + (q + ds), db + (q + dt));
    DecimalHasNoAmpersand(a);
    DecimalHasNoAmpersand(b);
    SplitAtAmpersand(da, q + ds, db, q + dt);
    CancelPrefix(q, ds, dt);
    DecimalInjective(a, b);
    DecimalInjective(s, t);
  }

  /** The scores address determines both the league and the school. */
  lemma ScoresUrlInjective(a: int, s: int, b: int, t: int)
    ensures ScoresUrl(a, s) == ScoresUrl(b, t) <==> a == b && s == t
  {
    if ScoresUrl(a, s) == ScoresUrl(b, t) {
      NumberPairInjective(BaseUrl + ScoresPath, SchoolParam, a, s, b, t);
    }
  }
}
