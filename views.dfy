/**
 * The catalogue queries behind the archive's pages
 * (daiseihai/archive/views.py), as functions over the tables of a
 * `Catalog`: the visible-video feed, a team's feed, the team and
 * tournament listings, a tournament's per-date part numbering, and the
 * bookmark feed of one video.
 */
module Views {
  import opened Wrappers
  import opened Sorting
  import opened Archive

  // ---------------------------------------------------------------------
  // VideoViewMixin.get_videos

  predicate IsVisible(v: Video) {
    v.isVisible
  }

  /** `(date, order)` strictly before: the Meta ordering with no ties. */
  predicate VideoStrictlyBefore(a: Video, b: Video) {
    a.date < b.date || (a.date == b.date && a.order < b.order)
  }

  /** `get_videos` of the mixin: the visible videos, in the Meta ordering. */
  function VisibleVideos(db: Catalog): (r: seq<Video>)
    ensures forall v :: v in r <==> v in db.videos && v.isVisible
    ensures multiset(r) == multiset(Filter(db.videos, IsVisible))
  {
    var f := Filter(db.videos, IsVisible);
    var r := SortBy(f, VideoBefore);
    MultisetMembers(r, f);
    r
  }

  /** A selection of distinct videos from a table keeps the table's uniqueness. */
  lemma UniqueVideosSelection(table: seq<Video>, s: seq<Video>)
    requires UniqueVideos(table) && Distinct(s)
    requires forall v :: v in s ==> v in table
    ensures UniqueVideos(s)
  {
    forall i, j | 0 <= i < j < |s|
      ensures s[i].id != s[j].id && (s[i].date, s[i].order) != (s[j].date, s[j].order)
    {
      assert s[i] in table && s[j] in table;
      var a :| 0 <= a < |table| && table[a] == s[i];
      var b :| 0 <= b < |table| && table[b] == s[j];
      assert a != b;
      if a > b {
        assert table[b].id != table[a].id;
      }
    }
  }

  /**
   * The visible feed is in the Meta ordering and, in a database that
   * enforces `unique_together = ('date', 'order')`, strictly so.
   */
  lemma VisibleVideosOrdered(db: Catalog)
    ensures SortedBy(VisibleVideos(db), VideoBefore)
    ensures UniqueVideos(db.videos) ==>
      SortedBy(VisibleVideos(db), VideoStrictlyBefore) && Distinct(VisibleVideos(db))
  {
    OrderingsArePreorders();
    var f := Filter(db.videos, IsVisible);
    SortBySorted(f, VideoBefore);
    var r := VisibleVideos(db);
    if UniqueVideos(db.videos) {
      DistinctVideos(db.videos);
      FilterDistinct(db.videos, IsVisible);
      PermutationDistinct(f, r);
      UniqueVideosSelection(db.videos, r);
      VideosStrictlyOrdered(r);
    }
  }

  /** The matchups shown under a video (the `matchups` prefetch), in the Meta ordering. */
  function MatchupsOf(db: Catalog, video: Video): (r: seq<Matchup>)
    ensures forall m :: m in r <==> m in db.matchups && m.video == video.id
  {
    var f := Filter(db.matchups, (m: Matchup) => m.video == video.id);
    var r := SortBy(f, MatchupBefore);
    MultisetMembers(r, f);
    r
  }

  /** A selection of distinct matchups from a table keeps the table's uniqueness. */
  lemma UniqueMatchupsSelection(table: seq<Matchup>, s: seq<Matchup>)
    requires UniqueMatchups(table) && Distinct(s)
    requires forall m :: m in s ==> m in table
    ensures UniqueMatchups(s)
  {
    forall i, j | 0 <= i < j < |s|
      ensures s[i].id != s[j].id
        && (s[i].video, s[i].home, s[i].away) != (s[j].video, s[j].home, s[j].away)
        && (s[i].video, s[i].order) != (s[j].video, s[j].order)
    {
      assert s[i] in table && s[j] in table;
      var a :| 0 <= a < |table| && table[a] == s[i];
      var b :| 0 <= b < |table| && table[b] == s[j];
      assert a != b;
    }
  }

  /**
   * A video's matchups come in `order`, and under the `(video, order)`
   * constraint no two share one.
   */
  lemma MatchupsOfOrdered(db: Catalog, video: Video)
    ensures SortedBy(MatchupsOf(db, video), MatchupBefore)
    ensures UniqueMatchups(db.matchups) ==>
      forall i, j :: 0 <= i < j < |MatchupsOf(db, video)| ==>
        MatchupsOf(db, video)[i].order < MatchupsOf(db, video)[j].order
  {
    OrderingsArePreorders();
    var p := (m: Matchup) => m.video == video.id;
    var f := Filter(db.matchups, p);
    SortBySorted(f, MatchupBefore);
    var r := MatchupsOf(db, video);
    if UniqueMatchups(db.matchups) {
      assert Distinct(db.matchups);
      FilterDistinct(db.matchups, p);
      PermutationDistinct(f, r);
      UniqueMatchupsSelection(db.matchups, r);
      MatchupsStrictlyOrdered(r, video.id);
    }
  }

  // ---------------------------------------------------------------------
  // TeamDetailView.get_videos

  predicate Plays(m: Matchup, team: Id) {
    m.home == team || m.away == team
  }

  /** The matchups of `video` in which `team` plays home or away. */
  function Appearances(db: Catalog, video: Video, team: Id): nat {
    Count(db.matchups, (m: Matchup) => m.video == video.id && Plays(m, team))
  }

  function Repeat(v: Video, n: nat): (r: seq<Video>)
    ensures |r| == n && forall x :: x in r ==> x == v
  {
    seq(n, _ => v)
  }

  /**
   * The rows of the join of `vs` with the matchups filtered on the team:
   * each video once for every matchup the team plays in it.
   */
  function JoinRows(vs: seq<Video>, db: Catalog, team: Id): seq<Video> {
    if |vs| == 0 then []
    else Repeat(vs[0], Appearances(db, vs[0], team)) + JoinRows(vs[1..], db, team)
  }

  /** The team feed as written: the joined rows, newest first. */
  function TeamFeedAsWritten(db: Catalog, team: Id): seq<Video> {
    Reverse(JoinRows(VisibleVideos(db), db, team))
  }

  predicate InTeamFeed(db: Catalog, team: Id, v: Video) {
    Appearances(db, v, team) > 0
  }

  /** The team feed: each visible video the team plays in, once, newest first. */
  function TeamFeed(db: Catalog, team: Id): seq<Video> {
    Reverse(Filter(VisibleVideos(db), v => InTeamFeed(db, team, v)))
  }

  lemma AppearancesPositive(db: Catalog, video: Video, team: Id)
    ensures Appearances(db, video, team) > 0 <==>
      exists m :: m in db.matchups && m.video == video.id && Plays(m, team)
  {
    CountPositive(db.matchups, (m: Matchup) => m.video == video.id && Plays(m, team));
  }

  /** A video is in the team's feed exactly when it is visible and the team plays in it. */
  lemma TeamFeedMembers(db: Catalog, team: Id)
    ensures forall v :: v in TeamFeed(db, team) <==>
      v in db.videos && v.isVisible
      && exists m :: m in db.matchups && m.video == v.id && Plays(m, team)
  {
    var f := Filter(VisibleVideos(db), v => InTeamFeed(db, team, v));
    ReverseMembers(f);
    forall v ensures v in TeamFeed(db, team) <==>
      v in db.videos && v.isVisible
      && exists m :: m in db.matchups && m.video == v.id && Plays(m, team)
    {
      AppearancesPositive(db, v, team);
    }
  }

  /** The team feed is newest first, with no video twice. */
  lemma TeamFeedNewestFirst(db: Catalog, team: Id)
    requires UniqueVideos(db.videos)
    ensures var r := TeamFeed(db, team);
      Distinct(r) && forall i, j :: 0 <= i < j < |r| ==> VideoStrictlyBefore(r[j], r[i])
  {
    var p := v => InTeamFeed(db, team, v);
    var vs := VisibleVideos(db);
    VisibleVideosOrdered(db);
    FilterSorted(vs, p, VideoStrictlyBefore);
    FilterDistinct(vs, p);
    var f := Filter(vs, p);
    ReverseMembers(f);
    ReverseSorted(f, VideoStrictlyBefore);
  }

  lemma {:induction false} JoinRowsMembers(vs: seq<Video>, db: Catalog, team: Id)
    ensures forall v :: v in JoinRows(vs, db, team) <==> v in vs && InTeamFeed(db, team, v)
  {
    if |vs| > 0 {
      JoinRowsMembers(vs[1..], db, team);
      var n := Appearances(db, vs[0], team);
      if n > 0 {
        assert vs[0] in Repeat(vs[0], n) by { assert Repeat(vs[0], n)[0] == vs[0]; }
      }
      assert vs == [vs[0]] + vs[1..];
    }
  }

  /** The feed as written shows the same videos as the corrected one. */
  lemma TeamFeedAsWrittenMembers(db: Catalog, team: Id)
    ensures forall v :: v in TeamFeedAsWritten(db, team) <==> v in TeamFeed(db, team)
  {
    JoinRowsMembers(VisibleVideos(db), db, team);
    ReverseMembers(JoinRows(VisibleVideos(db), db, team));
    ReverseMembers(Filter(VisibleVideos(db), v => InTeamFeed(db, team, v)));
  }

  /**
   * A team playing twice within one video (two matchups of that video)
   * gets that video twice in its feed as written.
   */
  lemma TeamFeedDuplicateExample()
    ensures var v := Video(1, 1, "", 20180727, 1, None, None, None, None, true, None, None);
      var db := Catalog([], [], [], [], [v],
        [Matchup(1, 1, 1, 2, 1), Matchup(2, 1, 3, 1, 2)], []);
      TeamFeedAsWritten(db, 1) == [v, v] && TeamFeed(db, 1) == [v]
  {
    var v := Video(1, 1, "", 20180727, 1, None, None, None, None, true, None, None);
    var ms := [Matchup(1, 1, 1, 2, 1), Matchup(2, 1, 3, 1, 2)];
    var db := Catalog([], [], [], [], [v], ms, []);
    assert Filter([v], IsVisible) == [v];
    assert VisibleVideos(db) == [v];
    var p := (m: Matchup) => m.video == v.id && Plays(m, 1);
    assert Count(ms, p) == 2 by {
      assert ms[1..] == [Matchup(2, 1, 3, 1, 2)];
      assert ms[1..][1..] == [];
    }
    assert Repeat(v, 2) == [v, v];
    assert JoinRows([v], db, 1) == [v, v] by {
      assert [v][1..] == [];
    }
    assert Filter([v], x => InTeamFeed(db, 1, x)) == [v];
  }

  // ---------------------------------------------------------------------
  // TeamListView.get_queryset

  datatype TeamRow = TeamRow(team: Team, videoCount: nat)

  /** `Count('home_games') + Count('away_games')`, without the inflation of the double join. */
  function GameCount(db: Catalog, team: Team): nat {
    Count(db.matchups, (m: Matchup) => m.home == team.id)
      + Count(db.matchups, (m: Matchup) => m.away == team.id)
  }

  function TeamRows(ts: seq<Team>, db: Catalog): (r: seq<TeamRow>)
    ensures |r| == |ts|
    ensures forall i :: 0 <= i < |ts| ==> r[i] == TeamRow(ts[i], GameCount(db, ts[i]))
  {
    seq(|ts|, i requires 0 <= i < |ts| => TeamRow(ts[i], GameCount(db, ts[i])))
  }

  /** Every team, in slug order, annotated with its game count. */
  function AnnotatedTeams(db: Catalog): seq<TeamRow> {
    TeamRows(SortBy(db.teams, TeamBefore), db)
  }

  /** The team list as written: `video_count > -1`. */
  function TeamListAsWritten(db: Catalog): seq<TeamRow> {
    Filter(AnnotatedTeams(db), (r: TeamRow) => r.videoCount > -1)
  }

  /** The team list: the teams with at least one game. */
  function TeamList(db: Catalog): seq<TeamRow> {
    Filter(AnnotatedTeams(db), (r: TeamRow) => r.videoCount > 0)
  }

  predicate TeamRowBefore(a: TeamRow, b: TeamRow) {
    TeamBefore(a.team, b.team)
  }

  lemma AnnotatedTeamsContents(db: Catalog)
    ensures forall r :: r in AnnotatedTeams(db) <==>
      r.team in db.teams && r.videoCount == GameCount(db, r.team)
    ensures SortedBy(AnnotatedTeams(db), TeamRowBefore)
  {
    var ts := SortBy(db.teams, TeamBefore);
    OrderingsArePreorders();
    SortBySorted(db.teams, TeamBefore);
    var rows := AnnotatedTeams(db);
    forall r ensures r in rows <==> r.team in db.teams && r.videoCount == GameCount(db, r.team) {
      assert r.team in db.teams <==> r.team in multiset(ts);
      if r.team in ts {
        var i :| 0 <= i < |ts| && ts[i] == r.team;
        assert r.videoCount == GameCount(db, r.team) ==> rows[i] == r;
      }
    }
    forall i, j | 0 <= i < j < |rows| ensures TeamRowBefore(rows[i], rows[j]) {
      assert rows[i].team == ts[i] && rows[j].team == ts[j];
    }
  }

  /** As written, the filter keeps every team, with or without games. */
  lemma TeamListAsWrittenKeepsAll(db: Catalog)
    ensures TeamListAsWritten(db) == AnnotatedTeams(db)
    ensures |TeamListAsWritten(db)| == |db.teams|
  {
    FilterAll(AnnotatedTeams(db), (r: TeamRow) => r.videoCount > -1);
  }

  /** A team with no matchups is listed as written, and not by the corrected list. */
  lemma TeamListAsWrittenExample()
    ensures var t := Team(3, "/gd/", "gd", "#000000", "#ffffff", false);
      var db := Catalog([], [], [], [t], [], [], []);
      TeamListAsWritten(db) == [TeamRow(t, 0)] && TeamList(db) == []
  {
    var t := Team(3, "/gd/", "gd", "#000000", "#ffffff", false);
    var db := Catalog([], [], [], [t], [], [], []);
    assert SortBy([t], TeamBefore) == [t];
    assert AnnotatedTeams(db) == [TeamRow(t, 0)];
  }

  /** A team is listed exactly when it plays in some matchup; the list is in slug order. */
  lemma TeamListMembers(db: Catalog)
    ensures forall r :: r in TeamList(db) <==>
      r.team in db.teams && r.videoCount == GameCount(db, r.team)
      && exists m :: m in db.matchups && Plays(m, r.team.id)
    ensures SortedBy(TeamList(db), TeamRowBefore)
  {
    AnnotatedTeamsContents(db);
    FilterSorted(AnnotatedTeams(db), (r: TeamRow) => r.videoCount > 0, TeamRowBefore);
    forall t: Team ensures GameCount(db, t) > 0 <==> exists m :: m in db.matchups && Plays(m, t.id) {
      CountPositive(db.matchups, (m: Matchup) => m.home == t.id);
      CountPositive(db.matchups, (m: Matchup) => m.away == t.id);
    }
  }

  // ---------------------------------------------------------------------
  // TournamentListView.get_queryset

  datatype TournamentRow = TournamentRow(tournament: Tournament, videoCount: nat)

  /** `Count('videos')`; the corrected count takes only visible videos. */
  function VideoCount(db: Catalog, t: Tournament, visibleOnly: bool): nat {
    Count(db.videos, (v: Video) => v.tournament == t.id && (visibleOnly ==> v.isVisible))
  }

  function TournamentRows(ts: seq<Tournament>, db: Catalog, visibleOnly: bool): (r: seq<TournamentRow>)
    ensures |r| == |ts|
    ensures forall i :: 0 <= i < |ts| ==> r[i] == TournamentRow(ts[i], VideoCount(db, ts[i], visibleOnly))
  {
    seq(|ts|, i requires 0 <= i < |ts| => TournamentRow(ts[i], VideoCount(db, ts[i], visibleOnly)))
  }

  /** Tournaments with a positive count, latest first. */
  function Tournaments(db: Catalog, visibleOnly: bool): seq<TournamentRow> {
    Filter(TournamentRows(SortBy(db.tournaments, TournamentBefore), db, visibleOnly),
           (r: TournamentRow) => r.videoCount > 0)
  }

  /** The tournament list as written: every video counts, visible or not. */
  function TournamentListAsWritten(db: Catalog): seq<TournamentRow> {
    Tournaments(db, false)
  }

  /** The tournament list: only visible videos count. */
  function TournamentList(db: Catalog): seq<TournamentRow> {
    Tournaments(db, true)
  }

  predicate TournamentRowBefore(a: TournamentRow, b: TournamentRow) {
    TournamentBefore(a.tournament, b.tournament)
  }

  /**
   * A tournament is listed exactly when it has a (visible, when
   * `visibleOnly`) video, with that count; the list is latest first.
   */
  lemma TournamentsMembers(db: Catalog, visibleOnly: bool)
    ensures forall r :: r in Tournaments(db, visibleOnly) <==>
      r.tournament in db.tournaments && r.videoCount == VideoCount(db, r.tournament, visibleOnly)
      && exists v :: v in db.videos && v.tournament == r.tournament.id && (visibleOnly ==> v.isVisible)
    ensures SortedBy(Tournaments(db, visibleOnly), TournamentRowBefore)
  {
    var ts := SortBy(db.tournaments, TournamentBefore);
    OrderingsArePreorders();
    SortBySorted(db.tournaments, TournamentBefore);
    RowsMembers(db, ts, visibleOnly);
    RowsSorted(db, ts, visibleOnly);
    FilterSorted(TournamentRows(ts, db, visibleOnly), (r: TournamentRow) => r.videoCount > 0, TournamentRowBefore);
    forall t: Tournament ensures VideoCount(db, t, visibleOnly) > 0 <==>
      exists v :: v in db.videos && v.tournament == t.id && (visibleOnly ==> v.isVisible)
    {
      CountPositive(db.videos, (v: Video) => v.tournament == t.id && (visibleOnly ==> v.isVisible));
    }
  }

  /** The rows of a reordering of the tournaments: each tournament once, with its count. */
  lemma RowsMembers(db: Catalog, ts: seq<Tournament>, visibleOnly: bool)
    requires multiset(ts) == multiset(db.tournaments)
    ensures forall r :: r in TournamentRows(ts, db, visibleOnly) <==>
      r.tournament in db.tournaments && r.videoCount == VideoCount(db, r.tournament, visibleOnly)
  {
    var rows := TournamentRows(ts, db, visibleOnly);
    forall r ensures r in rows <==>
      r.tournament in db.tournaments && r.videoCount == VideoCount(db, r.tournament, visibleOnly)
    {
      assert r.tournament in db.tournaments <==> r.tournament in multiset(ts);
      if r.tournament in ts {
        var i :| 0 <= i < |ts| && ts[i] == r.tournament;
        assert r.videoCount == VideoCount(db, r.tournament, visibleOnly) ==> rows[i] == r;
      }
    }
  }

  /** Rows keep the order of their tournaments. */
  lemma RowsSorted(db: Catalog, ts: seq<Tournament>, visibleOnly: bool)
    requires SortedBy(ts, TournamentBefore)
    ensures SortedBy(TournamentRows(ts, db, visibleOnly), TournamentRowBefore)
  {
    var rows := TournamentRows(ts, db, visibleOnly);
    forall i, j | 0 <= i < j < |rows| ensures TournamentRowBefore(rows[i], rows[j]) {
      assert rows[i].tournament == ts[i] && rows[j].tournament == ts[j];
    }
  }

  /**
   * One visible and two hidden videos (the second tournament of the
   * tournament-list test): the list as written shows a count of three, the
   * corrected one a count of one.
   */
  lemma TournamentListCountExample(t: Tournament)
    requires t.id == 2
    ensures var db := Catalog([], [], [t], [], [
        Video(1, 2, "", 1, 1, None, None, None, None, true, None, None),
        Video(2, 2, "", 1, 2, None, None, None, None, false, None, None),
        Video(3, 2, "", 1, 3, None, None, None, None, false, None, None)], [], []);
      TournamentListAsWritten(db) == [TournamentRow(t, 3)]
      && TournamentList(db) == [TournamentRow(t, 1)]
  {
    var vs := [
        Video(1, 2, "", 1, 1, None, None, None, None, true, None, None),
        Video(2, 2, "", 1, 2, None, None, None, None, false, None, None),
        Video(3, 2, "", 1, 3, None, None, None, None, false, None, None)];
    var db := Catalog([], [], [t], [], vs, [], []);
    assert vs[1..] == [vs[1], vs[2]] && vs[1..][1..] == [vs[2]] && vs[1..][1..][1..] == [];
    assert SortBy([t], TournamentBefore) == [t];
    assert VideoCount(db, t, false) == 3;
    assert VideoCount(db, t, true) == 1;
    assert TournamentRows([t], db, false) == [TournamentRow(t, 3)];
    assert TournamentRows([t], db, true) == [TournamentRow(t, 1)];
  }

  /** A tournament whose only video is hidden is listed as written, and not by the corrected list. */
  lemma TournamentListHiddenExample(t: Tournament)
    requires t.id == 3
    ensures var db := Catalog([], [], [t], [],
        [Video(1, 3, "", 1, 1, None, None, None, None, false, None, None)], [], []);
      TournamentListAsWritten(db) == [TournamentRow(t, 1)] && TournamentList(db) == []
  {
    var vs := [Video(1, 3, "", 1, 1, None, None, None, None, false, None, None)];
    var db := Catalog([], [], [t], [], vs, [], []);
    assert vs[1..] == [];
    assert SortBy([t], TournamentBefore) == [t];
    assert TournamentRows([t], db, false) == [TournamentRow(t, 1)];
    assert TournamentRows([t], db, true) == [TournamentRow(t, 0)];
  }

  // ---------------------------------------------------------------------
  // TournamentDetailView.get_videos

  /** A video with its `part` and `part_count` annotations. */
  datatype Part = Part(video: Video, part: nat, partCount: nat)

  /** The visible videos of one tournament, in the Meta ordering. */
  function TournamentVideos(db: Catalog, t: Tournament): (r: seq<Video>)
    ensures forall v :: v in r <==> v in db.videos && v.isVisible && v.tournament == t.id
  {
    Filter(VisibleVideos(db), InTournament(t.id))
  }

  function InTournament(id: Id): Video -> bool {
    (v: Video) => v.tournament == id
  }

  function OnDate(d: Date): Video -> bool {
    (v: Video) => v.date == d
  }

  /**
   * `part` is the row number within the video's date, in the order of the
   * queryset; `part_count` is the size of that date's partition.
   */
  function TournamentDetail(db: Catalog, t: Tournament): (r: seq<Part>)
    ensures |r| == |TournamentVideos(db, t)|
    ensures forall i :: 0 <= i < |r| ==> r[i].video == TournamentVideos(db, t)[i]
  {
    Parts(TournamentVideos(db, t))
  }

  /** Each video with its row number within its date and the size of that date's run. */
  function Parts(vs: seq<Video>): (r: seq<Part>)
    ensures |r| == |vs|
    ensures forall i :: 0 <= i < |vs| ==> r[i].video == vs[i]
  {
    seq(|vs|, i requires 0 <= i < |vs| =>
      Part(vs[i], Count(vs[..i], OnDate(vs[i].date)) + 1, Count(vs, OnDate(vs[i].date))))
  }

  /** The visible videos of a tournament on a date, counted in the table itself. */
  function PeersInTable(db: Catalog, t: Tournament, d: Date): nat {
    Count(db.videos, (v: Video) => v.isVisible && v.tournament == t.id && v.date == d)
  }

  /** `part_count` is the number of visible videos of the tournament on that date. */
  lemma PartCountIsPeers(db: Catalog, t: Tournament)
    ensures forall i :: 0 <= i < |TournamentDetail(db, t)| ==>
      TournamentDetail(db, t)[i].partCount == PeersInTable(db, t, TournamentDetail(db, t)[i].video.date)
  {
    var r := TournamentDetail(db, t);
    var vs := TournamentVideos(db, t);
    var inT := InTournament(t.id);
    forall i | 0 <= i < |r| ensures r[i].partCount == PeersInTable(db, t, r[i].video.date) {
      var d := r[i].video.date;
      var both := (v: Video) => v.tournament == t.id && v.date == d;
      var all := (v: Video) => v.isVisible && v.tournament == t.id && v.date == d;
      CountOfFilter(VisibleVideos(db), inT, OnDate(d), both);
      CountPermutation(VisibleVideos(db), Filter(db.videos, IsVisible), both);
      CountOfFilter(db.videos, IsVisible, both, all);
    }
  }

  /** Parts are numbered from 1 up to the date's count. */
  lemma PartsInRange(db: Catalog, t: Tournament)
    ensures forall i :: 0 <= i < |TournamentDetail(db, t)| ==>
      1 <= TournamentDetail(db, t)[i].part <= TournamentDetail(db, t)[i].partCount
  {
    var r := TournamentDetail(db, t);
    var vs := TournamentVideos(db, t);
    forall i | 0 <= i < |r| ensures r[i].part <= r[i].partCount {
      CountPrefix(vs, i, OnDate(vs[i].date));
      CountPrefixBound(vs, i + 1, OnDate(vs[i].date));
    }
  }

  /** Videos of one date get distinct parts, increasing along the queryset. */
  lemma PartsDistinct(db: Catalog, t: Tournament)
    ensures var r := TournamentDetail(db, t);
      forall i, j :: 0 <= i < j < |r| && r[i].video.date == r[j].video.date ==> r[i].part < r[j].part
  {
    var r := TournamentDetail(db, t);
    var vs := TournamentVideos(db, t);
    forall i, j | 0 <= i < j < |r| && r[i].video.date == r[j].video.date
      ensures r[i].part < r[j].part
    {
      var p := OnDate(vs[i].date);
      CountPrefix(vs, i, p);
      CountPrefixMonotone(vs, i + 1, j, p);
    }
  }

  /**
   * With `(date, order)` unique, parts within a date increase with `order`:
   * the tie order the window leaves open is taken to be the queryset's.
   */
  lemma PartsFollowOrder(db: Catalog, t: Tournament)
    requires UniqueVideos(db.videos)
    ensures var r := TournamentDetail(db, t);
      forall i, j :: (0 <= i < |r| && 0 <= j < |r| && r[i].video.date == r[j].video.date
        && r[i].video.order < r[j].video.order) ==> r[i].part < r[j].part
  {
    var r := TournamentDetail(db, t);
    var vs := TournamentVideos(db, t);
    VisibleVideosOrdered(db);
    FilterSorted(VisibleVideos(db), InTournament(t.id), VideoStrictlyBefore);
    assert SortedBy(vs, VideoStrictlyBefore);
    StrictIndexOrder(vs);
    PartsDistinct(db, t);
  }

  /** In a strictly ordered list, a smaller `order` on the same date comes first. */
  lemma StrictIndexOrder(vs: seq<Video>)
    requires SortedBy(vs, VideoStrictlyBefore)
    ensures forall i, j :: (0 <= i < |vs| && 0 <= j < |vs| && vs[i].date == vs[j].date
      && vs[i].order < vs[j].order) ==> i < j
  {
  }

  /**
   * The tournament-detail test: one video on the 27th, two on the 28th and
   * a hidden one on the 29th give `(1/1)`, `(1/2)`, `(2/2)` and no entry
   * for the 29th.
   */
  lemma TournamentDetailExample(db: Catalog, t: Tournament, v1: Video, v2: Video, v3: Video, v4: Video)
    requires t.id == 1 && db.videos == [v1, v2, v3, v4]
    requires v1.tournament == 1 && v1.date == 20180727 && v1.order == 1 && v1.isVisible
    requires v2.tournament == 1 && v2.date == 20180728 && v2.order == 1 && v2.isVisible
    requires v3.tournament == 1 && v3.date == 20180728 && v3.order == 2 && v3.isVisible
    requires v4.tournament == 1 && v4.date == 20180729 && v4.order == 1 && !v4.isVisible
    ensures var r := TournamentDetail(db, t);
      |r| == 3 && r[0] == Part(v1, 1, 1) && r[1] == Part(v2, 1, 2) && r[2] == Part(v3, 2, 2)
  {
    ExampleTournamentVideos(db, t, v1, v2, v3, v4);
    PartsThree(v1, v2, v3);
  }

  /** One video on a day followed by two on the next: `(1/1)`, `(1/2)`, `(2/2)`. */
  lemma PartsThree(v1: Video, v2: Video, v3: Video)
    requires v1.date < v2.date == v3.date
    ensures Parts([v1, v2, v3]) == [Part(v1, 1, 1), Part(v2, 1, 2), Part(v3, 2, 2)]
  {
    var vs := [v1, v2, v3];
    PartCounts(v1, v2, v3);
    var r := Parts(vs);
    assert r[0] == Part(v1, Count(vs[..0], OnDate(v1.date)) + 1, Count(vs, OnDate(v1.date)));
    assert r[1] == Part(v2, Count(vs[..1], OnDate(v2.date)) + 1, Count(vs, OnDate(v2.date)));
    assert r[2] == Part(v3, Count(vs[..2], OnDate(v3.date)) + 1, Count(vs, OnDate(v3.date)));
  }

  lemma ExampleTournamentVideos(db: Catalog, t: Tournament, v1: Video, v2: Video, v3: Video, v4: Video)
    requires db.videos == [v1, v2, v3, v4]
    requires v1.isVisible && v2.isVisible && v3.isVisible && !v4.isVisible
    requires VideoStrictlyBefore(v1, v2) && VideoStrictlyBefore(v2, v3)
    requires v1.tournament == v2.tournament == v3.tournament == t.id
    ensures TournamentVideos(db, t) == [v1, v2, v3]
  {
    VisibleThree(v1, v2, v3, v4);
    SortThreeVideos(v1, v2, v3);
    VisibleVideosAre(db, [v1, v2, v3]);
    ThreeInTournament(t.id, v1, v2, v3);
  }

  lemma ThreeInTournament(id: Id, v1: Video, v2: Video, v3: Video)
    requires v1.tournament == v2.tournament == v3.tournament == id
    ensures Filter([v1, v2, v3], InTournament(id)) == [v1, v2, v3]
  {
    var vs := [v1, v2, v3];
    forall x | x in vs ensures InTournament(id)(x) {
      assert x == v1 || x == v2 || x == v3;
    }
    FilterAll(vs, InTournament(id));
  }

  lemma VisibleVideosAre(db: Catalog, vs: seq<Video>)
    requires Filter(db.videos, IsVisible) == vs && SortBy(vs, VideoBefore) == vs
    ensures VisibleVideos(db) == vs
  {
  }

  lemma VisibleThree(v1: Video, v2: Video, v3: Video, v4: Video)
    requires v1.isVisible && v2.isVisible && v3.isVisible && !v4.isVisible
    ensures Filter([v1, v2, v3, v4], IsVisible) == [v1, v2, v3]
  {
    assert [v4][1..] == [];
    assert Filter([v4], IsVisible) == [];
    assert [v3, v4][1..] == [v4];
    assert Filter([v3, v4], IsVisible) == [v3];
    assert [v2, v3, v4][1..] == [v3, v4];
    assert Filter([v2, v3, v4], IsVisible) == [v2, v3];
    assert [v1, v2, v3, v4][1..] == [v2, v3, v4];
  }

  lemma SortThreeVideos(v1: Video, v2: Video, v3: Video)
    requires VideoStrictlyBefore(v1, v2) && VideoStrictlyBefore(v2, v3)
    ensures SortBy([v1, v2, v3], VideoBefore) == [v1, v2, v3]
  {
    var s := [v1, v2, v3];
    assert SortedBy(s, VideoBefore);
    SortSortedIdentity(s, VideoBefore);
  }

  lemma PartCounts(v1: Video, v2: Video, v3: Video)
    requires v1.date < v2.date == v3.date
    ensures var vs := [v1, v2, v3];
      Count(vs[..0], OnDate(v1.date)) == 0 && Count(vs, OnDate(v1.date)) == 1
      && Count(vs[..1], OnDate(v2.date)) == 0 && Count(vs, OnDate(v2.date)) == 2
      && Count(vs[..2], OnDate(v3.date)) == 1 && Count(vs, OnDate(v3.date)) == 2
  {
    var vs := [v1, v2, v3];
    var p1, p2 := OnDate(v1.date), OnDate(v2.date);
    assert OnDate(v3.date) == p2;
    assert p1(v1) && !p1(v2) && !p1(v3) && !p2(v1) && p2(v2) && p2(v3);
    assert vs[..1] == [v1] && vs[..2] == [v1, v2];
    assert vs[1..] == [v2, v3] && vs[1..][1..] == [v3] && vs[1..][1..][1..] == [];
    assert [v1][1..] == [] && [v1, v2][1..] == [v2] && [v2][1..] == [];
    assert Count([v3], p1) == 0 && Count([v2, v3], p1) == 0;
    assert Count([v3], p2) == 1 && Count([v2, v3], p2) == 2;
    assert Count([v2], p2) == 1 && Count([v1, v2], p2) == 1;
  }

  // ---------------------------------------------------------------------
  // VideoBookmarkView

  /** `get_bookmark_dict`: the position (in microseconds) and the name. */
  datatype BookmarkDict = BookmarkDict(position: int, name: string)

  function AsDict(b: VideoBookmark): BookmarkDict {
    BookmarkDict(b.position, b.name)
  }

  /** `get_queryset`: the bookmarks of video `pk`, in position order. */
  function BookmarksOf(db: Catalog, pk: Id): (r: seq<VideoBookmark>)
    ensures forall b :: b in r <==> b in db.bookmarks && b.video == pk
    ensures multiset(r) == multiset(Filter(db.bookmarks, (b: VideoBookmark) => b.video == pk))
  {
    var f := Filter(db.bookmarks, (b: VideoBookmark) => b.video == pk);
    var r := SortBy(f, BookmarkBefore);
    MultisetMembers(r, f);
    r
  }

  /** The JSON list served for video `pk`. */
  function BookmarkFeed(db: Catalog, pk: Id): (r: seq<BookmarkDict>)
    ensures |r| == |BookmarksOf(db, pk)|
    ensures forall i :: 0 <= i < |r| ==> r[i] == AsDict(BookmarksOf(db, pk)[i])
  {
    var bs := BookmarksOf(db, pk);
    seq(|bs|, i requires 0 <= i < |bs| => AsDict(bs[i]))
  }

  /**
   * The feed holds one entry for each bookmark of the video and nothing
   * else, in ascending position.
   */
  lemma BookmarkFeedContents(db: Catalog, pk: Id)
    ensures |BookmarkFeed(db, pk)| == Count(db.bookmarks, (b: VideoBookmark) => b.video == pk)
    ensures forall d :: d in BookmarkFeed(db, pk) <==>
      exists b :: b in db.bookmarks && b.video == pk && AsDict(b) == d
    ensures forall i, j :: 0 <= i < j < |BookmarkFeed(db, pk)| ==>
      BookmarkFeed(db, pk)[i].position <= BookmarkFeed(db, pk)[j].position
  {
    FeedLength(db, pk);
    FeedMembers(db, pk);
    FeedInPositionOrder(db, pk);
  }

  lemma FeedLength(db: Catalog, pk: Id)
    ensures |BookmarkFeed(db, pk)| == Count(db.bookmarks, (b: VideoBookmark) => b.video == pk)
  {
    var p := (b: VideoBookmark) => b.video == pk;
    CountFilter(db.bookmarks, p);
    assert |multiset(BookmarksOf(db, pk))| == |Filter(db.bookmarks, p)|;
  }

  lemma FeedMembers(db: Catalog, pk: Id)
    ensures forall d :: d in BookmarkFeed(db, pk) <==>
      exists b :: b in db.bookmarks && b.video == pk && AsDict(b) == d
  {
    var bs := BookmarksOf(db, pk);
    var r := BookmarkFeed(db, pk);
    forall d ensures d in r <==> exists b :: b in db.bookmarks && b.video == pk && AsDict(b) == d {
      if exists b :: b in db.bookmarks && b.video == pk && AsDict(b) == d {
        var b :| b in db.bookmarks && b.video == pk && AsDict(b) == d;
        var i :| 0 <= i < |bs| && bs[i] == b;
        assert r[i] == d;
      }
      if d in r {
        var i :| 0 <= i < |r| && r[i] == d;
        assert bs[i] in bs;
      }
    }
  }

  lemma FeedInPositionOrder(db: Catalog, pk: Id)
    ensures forall i, j :: 0 <= i < j < |BookmarkFeed(db, pk)| ==>
      BookmarkFeed(db, pk)[i].position <= BookmarkFeed(db, pk)[j].position
  {
    var bs := BookmarksOf(db, pk);
    OrderingsArePreorders();
    SortBySorted(Filter(db.bookmarks, (b: VideoBookmark) => b.video == pk), BookmarkBefore);
    assert SortedBy(bs, BookmarkBefore);
  }

  /**
   * A video with no bookmarks, or a key that names no video (the
   * bookmarks' foreign keys all name videos), gets an empty list.
   */
  lemma BookmarkFeedEmpty(db: Catalog, pk: Id)
    requires forall b :: b in db.bookmarks ==> exists v :: v in db.videos && v.id == b.video
    requires (forall v :: v in db.videos ==> v.id != pk)
      || (forall b :: b in db.bookmarks ==> b.video != pk)
    ensures BookmarkFeed(db, pk) == []
  {
  }

  /** The three bookmarks of the bookmark test come back in position order. */
  lemma BookmarkFeedExample(v: Video)
    requires v.id == 1
    ensures var db := Catalog([], [], [], [], [v], [], [
        VideoBookmark(1, 1, 809_132_000, "/a/ - /u/"),
        VideoBookmark(2, 1, 18_394_948_000, "Draw"),
        VideoBookmark(3, 1, 5_892_160_000, "/ck/ - /gd/")]);
      var feed := BookmarkFeed(db, 1);
      |feed| == 3
      && feed[0] == BookmarkDict(809_132_000, "/a/ - /u/")
      && feed[1] == BookmarkDict(5_892_160_000, "/ck/ - /gd/")
      && feed[2] == BookmarkDict(18_394_948_000, "Draw")
  {
    var a := VideoBookmark(1, 1, 809_132_000, "/a/ - /u/");
    var b := VideoBookmark(2, 1, 18_394_948_000, "Draw");
    var c := VideoBookmark(3, 1, 5_892_160_000, "/ck/ - /gd/");
    var bs := [a, b, c];
    var db := Catalog([], [], [], [], [v], [], bs);
    FilterAll(bs, (x: VideoBookmark) => x.video == 1);
    SortThreeBookmarks(a, b, c);
    assert BookmarksOf(db, 1) == [a, c, b];
  }

  lemma SortThreeBookmarks(a: VideoBookmark, b: VideoBookmark, c: VideoBookmark)
    requires a.position <= c.position < b.position
    ensures SortBy([a, b, c], BookmarkBefore) == [a, c, b]
  {
    SortLastSecond(a, b, c, BookmarkBefore);
  }
}
