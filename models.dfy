/**
 * The archive's records (daiseihai/archive/models.py) and the small
 * computations on them: the logo upload path, a video's download link, a
 * team's CSS style, a tournament's label, and the orderings and uniqueness
 * constraints declared in the models' `Meta` classes.
 */
module Archive {
  import opened Wrappers
  import opened Sorting

  /** A primary key. */
  type Id = nat

  /** A calendar date, as a day number whose order is the calendar order. */
  type Date = int

  /**
   * A league (a `League` model referenced by the tournament factory); its
   * fields are not part of this model beyond these.
   */
  datatype League = League(id: Id, name: string, slug: string)

  /** A chat log (a `Chat` model referenced by videos); declared, no behaviour. */
  datatype Chat = Chat(id: Id, date: Date, file: string)

  datatype Tournament = Tournament(
    id: Id, name: string, slug: string, startDate: Date, endDate: Date,
    logo: string, league: Option<Id>)

  /** Colours hold what `ColorField.from_db_value` presents: `#` and hex digits. */
  datatype Team = Team(
    id: Id, name: string, slug: string,
    mainColor: string, secondaryColor: string, longName: bool)

  /**
   * `kind`, `introUrl`, `chat` and `chatStart` are the fields the admin form
   * and the factories use; their type codes live in a constants module that
   * is not part of this model, so `kind` is kept as its code.
   */
  datatype Video = Video(
    id: Id, tournament: Id, kind: string, date: Date, order: nat,
    filename: Option<string>, url: Option<string>, introUrl: Option<string>,
    duration: Option<nat>, isVisible: bool, chat: Option<Id>, chatStart: Option<int>)

  datatype Matchup = Matchup(id: Id, video: Id, home: Id, away: Id, order: nat)

  /** `position` is a duration, in microseconds. */
  datatype VideoBookmark = VideoBookmark(id: Id, video: Id, position: int, name: string)

  /** The tables, as the database holds them (in no particular order). */
  datatype Catalog = Catalog(
    leagues: seq<League>, chats: seq<Chat>, tournaments: seq<Tournament>, teams: seq<Team>,
    videos: seq<Video>, matchups: seq<Matchup>, bookmarks: seq<VideoBookmark>)

  // ---------------------------------------------------------------------
  // _get_tournament_logo_path

  /** The last index of `c` in `s`, or -1 (Python's `str.rfind`). */
  function RFind(s: string, c: char): (i: int)
    ensures -1 <= i < |s|
    ensures i >= 0 ==> s[i] == c
    ensures forall k :: i < k < |s| ==> s[k] != c
  {
    if |s| == 0 then -1 else if s[|s| - 1] == c then |s| - 1 else RFind(s[..|s| - 1], c)
  }

  /**
   * `os.path.splitext` (posixpath): the extension starts at the last `.`
   * after the last `/`, provided some character of the file name before it
   * is not a dot; so leading dots never start an extension.
   */
  function SplitExt(path: string): (string, string) {
    var sep := RFind(path, '/');
    var dot := RFind(path, '.');
    if dot > sep && exists k :: sep + 1 <= k < dot && path[k] != '.' then
      (path[..dot], path[dot..])
    else
      (path, "")
  }

  /** `_get_tournament_logo_path`: `logos/<slug><ext>`. */
  function LogoPath(tournament: Tournament, filename: string): string {
    "logos/" + tournament.slug + SplitExt(filename).1
  }

  /** What the extension is: empty, or a final `.suffix` of a file name that is not all dots. */
  lemma {:induction false} SplitExtShape(path: string)
    ensures SplitExt(path).0 + SplitExt(path).1 == path
    ensures var ext := SplitExt(path).1;
      ext == ""
      || (ext[0] == '.' && '.' !in ext[1..] && '/' !in ext
          && exists k :: 0 <= k < |path| - |ext| && path[k] != '.' && '/' !in path[k..])
  {
    var sep := RFind(path, '/');
    var dot := RFind(path, '.');
    var ext := SplitExt(path).1;
    if ext != "" {
      assert ext == path[dot..];
      var k :| sep + 1 <= k < dot && path[k] != '.';
      assert '/' !in path[k..] by {
        forall m | 0 <= m < |path[k..]| ensures path[k..][m] != '/' { assert path[k..][m] == path[k + m]; }
      }
      assert '.' !in ext[1..] by {
        forall m | 0 <= m < |ext[1..]| ensures ext[1..][m] != '.' { assert ext[1..][m] == path[dot + 1 + m]; }
      }
      assert '/' !in ext by {
        forall m | 0 <= m < |ext| ensures ext[m] != '/' { assert ext[m] == path[dot + m]; }
      }
    }
  }

  /** The logo path is `logos/`, the slug, and then the file's extension. */
  lemma {:induction false} LogoPathShape(tournament: Tournament, filename: string)
    ensures var p := LogoPath(tournament, filename);
      var ext := p[|"logos/" + tournament.slug|..];
      p == "logos/" + tournament.slug + ext
      && (ext == "" || (ext[0] == '.' && '.' !in ext[1..] && '/' !in ext))
      && filename == filename[..|filename| - |ext|] + ext
  {
    SplitExtShape(filename);
  }

  lemma LogoPathExample(t: Tournament)
    requires t.slug == "summer-cup-2000"
    ensures LogoPath(t, "tournament.png") == "logos/summer-cup-2000.png"
  {
    var a := "tournament.png";
    assert RFind(a, '/') == -1;
    RFindIsLast(a, '.', 10);
    assert a[0] != '.' && a[10..] == ".png";
  }

  /** Only the last suffix is kept. */
  lemma LogoPathDoubleSuffixExample(t: Tournament)
    requires t.slug == "summer-cup-2000"
    ensures LogoPath(t, "archive.tar.gz") == "logos/summer-cup-2000.gz"
  {
    var b := "archive.tar.gz";
    assert RFind(b, '/') == -1;
    RFindIsLast(b, '.', 11);
    assert b[0] != '.' && b[11..] == ".gz";
  }

  /** Leading dots are not an extension, and neither is a missing suffix. */
  lemma LogoPathNoSuffixExamples(t: Tournament)
    requires t.slug == "summer-cup-2000"
    ensures LogoPath(t, ".png") == "logos/summer-cup-2000"
    ensures LogoPath(t, "..png") == "logos/summer-cup-2000"
    ensures LogoPath(t, "logo") == "logos/summer-cup-2000"
  {
    assert RFind(".png", '/') == -1;
    RFindIsLast(".png", '.', 0);
    assert RFind("..png", '/') == -1;
    RFindIsLast("..png", '.', 1);
    assert RFind("logo", '.') == -1;
  }

  // ---------------------------------------------------------------------
  // Video.link, Team.style, Tournament.__str__

  /** Python truthiness of an optional string: present and non-empty. */
  predicate Truthy(s: Option<string>) {
    s.Some? && s.value != ""
  }

  /**
   * `Video.link`: the explicit URL when it is non-empty, otherwise
   * `urljoin(settings.VIDEO_URL, filename)`; `urljoin` is left abstract as `join`.
   */
  function Link(video: Video, videoUrl: string, join: (string, Option<string>) -> string): (r: string)
    ensures Truthy(video.url) ==> r == video.url.value
    ensures !Truthy(video.url) ==> r == join(videoUrl, video.filename)
  {
    if Truthy(video.url) then video.url.value else join(videoUrl, video.filename)
  }

  /** The filename only matters when there is no usable URL. */
  lemma LinkIgnoresFilename(video: Video, filename: Option<string>, videoUrl: string,
                            join: (string, Option<string>) -> string)
    requires Truthy(video.url)
    ensures Link(video.(filename := filename), videoUrl, join) == Link(video, videoUrl, join)
  {
  }

  /** `Team.style`: the team colours as a CSS declaration list. */
  function Style(team: Team): string {
    "background-color: " + team.mainColor + "; color: " + team.secondaryColor + ";"
  }

  /**
   * The style determines both colours, provided the main colour has no `;`
   * (a colour code never does).
   */
  lemma {:induction false} StyleInjective(a: Team, b: Team)
    requires ';' !in a.mainColor && ';' !in b.mainColor
    requires Style(a) == Style(b)
    ensures a.mainColor == b.mainColor && a.secondaryColor == b.secondaryColor
  {
    var pre := "background-color: ";
    var x := " color: " + a.secondaryColor + ";";
    var y := " color: " + b.secondaryColor + ";";
    assert Style(a) == pre + (a.mainColor + ";" + x);
    assert Style(b) == pre + (b.mainColor + ";" + y);
    assert a.mainColor + ";" + x == Style(a)[|pre|..] == Style(b)[|pre|..] == b.mainColor + ";" + y;
    SplitAtSemicolon(a.mainColor, b.mainColor, x, y);
    assert a.secondaryColor == x[8..|x| - 1];
    assert b.secondaryColor == y[8..|y| - 1];
  }

  /** Text without `;` followed by `;` is determined by the whole. */
  lemma SplitAtSemicolon(a: string, b: string, x: string, y: string)
    requires ';' !in a && ';' !in b
    requires a + ";" + x == b + ";" + y
    ensures a == b && x == y
  {
    var s := a + ";" + x;
    NoShorterPrefix(a, b, x, y);
    NoShorterPrefix(b, a, y, x);
    assert a == s[..|a|] == b;
    assert x == s[|a| + 1..] == y;
  }

  lemma NoShorterPrefix(a: string, b: string, x: string, y: string)
    requires ';' !in b
    requires a + ";" + x == b + ";" + y
    ensures |b| <= |a|
  {
    var s := a + ";" + x;
    assert s[|a|] == ';';
    forall i | 0 <= i < |b| ensures s[i] != ';' {
      assert s[i] == b[i];
    }
  }

  /** `Tournament.__str__`: `name (slug)`. */
  function Label(tournament: Tournament): string {
    tournament.name + " (" + tournament.slug + ")"
  }

  /** The slug in a label: the text after its last `(`, without the closing `)`. */
  function SlugOfLabel(text: string): string {
    var open := RFind(text, '(');
    if open >= 0 && |text| > 0 && text[|text| - 1] == ')' && open < |text| - 1 then
      text[open + 1..|text| - 1]
    else ""
  }

  /** A slug (letters, digits, `-`, `_`) can be read back from the label, whatever the name. */
  lemma {:induction false} LabelNamesSlug(tournament: Tournament)
    requires '(' !in tournament.slug
    ensures SlugOfLabel(Label(tournament)) == tournament.slug
  {
    var l := Label(tournament);
    var n := |tournament.name|;
    assert l[n + 1] == '(';
    assert l[|l| - 1] == ')';
    forall k | n + 1 < k < |l| ensures l[k] != '(' {
      if k < |l| - 1 {
        assert l[k] == tournament.slug[k - n - 2];
      }
    }
    assert RFind(l, '(') == n + 1 by {
      RFindIsLast(l, '(', n + 1);
    }
    assert l[n + 2..|l| - 1] == tournament.slug;
  }

  lemma {:induction false} RFindIsLast(s: string, c: char, i: int)
    requires 0 <= i < |s| && s[i] == c
    requires forall k :: i < k < |s| ==> s[k] != c
    ensures RFind(s, c) == i
    decreases |s|
  {
    if i < |s| - 1 {
      RFindIsLast(s[..|s| - 1], c, i);
    }
  }

  // ---------------------------------------------------------------------
  // Meta orderings and uniqueness constraints

  /** `Video.Meta.ordering = ('date', 'order')`. */
  predicate VideoBefore(a: Video, b: Video) {
    a.date < b.date || (a.date == b.date && a.order <= b.order)
  }

  /** `Matchup.Meta.ordering = ('order',)`. */
  predicate MatchupBefore(a: Matchup, b: Matchup) {
    a.order <= b.order
  }

  /** `VideoBookmark.Meta.ordering = ('position',)`. */
  predicate BookmarkBefore(a: VideoBookmark, b: VideoBookmark) {
    a.position <= b.position
  }

  /** `Tournament.Meta.ordering = ('-start_date',)`: latest first. */
  predicate TournamentBefore(a: Tournament, b: Tournament) {
    a.startDate >= b.startDate
  }

  /** Code-point (lexicographic) order on strings. */
  predicate LexLe(a: string, b: string) {
    if |a| == 0 then true
    else if |b| == 0 then false
    else if a[0] != b[0] then a[0] < b[0]
    else LexLe(a[1..], b[1..])
  }

  /** `Team.Meta.ordering = ('slug',)`. */
  predicate TeamBefore(a: Team, b: Team) {
    LexLe(a.slug, b.slug)
  }

  lemma {:induction false} LexLeTotal(a: string, b: string)
    ensures LexLe(a, b) || LexLe(b, a)
  {
    if |a| > 0 && |b| > 0 && a[0] == b[0] {
      LexLeTotal(a[1..], b[1..]);
    }
  }

  lemma {:induction false} LexLeTransitive(a: string, b: string, c: string)
    requires LexLe(a, b) && LexLe(b, c)
    ensures LexLe(a, c)
  {
    if |a| > 0 && |b| > 0 && |c| > 0 && a[0] == b[0] && b[0] == c[0] {
      LexLeTransitive(a[1..], b[1..], c[1..]);
    }
  }

  lemma {:induction false} LexLeAntisymmetric(a: string, b: string)
    requires LexLe(a, b) && LexLe(b, a)
    ensures a == b
  {
    if |a| > 0 && |b| > 0 {
      LexLeAntisymmetric(a[1..], b[1..]);
      assert a == [a[0]] + a[1..] && b == [b[0]] + b[1..];
    }
  }

  /** Each `Meta.ordering` is a total preorder, so `ORDER BY` on it sorts. */
  lemma OrderingsArePreorders()
    ensures TotalPreorder(VideoBefore)
    ensures TotalPreorder(MatchupBefore)
    ensures TotalPreorder(BookmarkBefore)
    ensures TotalPreorder(TournamentBefore)
    ensures TotalPreorder(TeamBefore)
  {
    forall a: Team, b: Team ensures TeamBefore(a, b) || TeamBefore(b, a) {
      LexLeTotal(a.slug, b.slug);
    }
    forall a: Team, b: Team, c: Team | TeamBefore(a, b) && TeamBefore(b, c) ensures TeamBefore(a, c) {
      LexLeTransitive(a.slug, b.slug, c.slug);
    }
  }

  /** `unique=True` on a slug, and distinct primary keys. */
  ghost predicate UniqueTournaments(ts: seq<Tournament>) {
    forall i, j :: 0 <= i < j < |ts| ==> ts[i].id != ts[j].id && ts[i].slug != ts[j].slug
  }

  ghost predicate UniqueTeams(ts: seq<Team>) {
    forall i, j :: 0 <= i < j < |ts| ==> ts[i].id != ts[j].id && ts[i].slug != ts[j].slug
  }

  /** Distinct keys, and `unique_together = ('date', 'order')` across all tournaments. */
  ghost predicate UniqueVideos(vs: seq<Video>) {
    forall i, j :: 0 <= i < j < |vs| ==>
      vs[i].id != vs[j].id && (vs[i].date, vs[i].order) != (vs[j].date, vs[j].order)
  }

  /** `unique_together = [('video', 'home', 'away'), ('video', 'order')]`. */
  ghost predicate UniqueMatchups(ms: seq<Matchup>) {
    forall i, j :: 0 <= i < j < |ms| ==>
      ms[i].id != ms[j].id
      && (ms[i].video, ms[i].home, ms[i].away) != (ms[j].video, ms[j].home, ms[j].away)
      && (ms[i].video, ms[i].order) != (ms[j].video, ms[j].order)
  }

  ghost predicate UniqueBookmarks(bs: seq<VideoBookmark>) {
    forall i, j :: 0 <= i < j < |bs| ==> bs[i].id != bs[j].id
  }

  /** The constraints the database enforces on every table. */
  ghost predicate ValidCatalog(db: Catalog) {
    UniqueTournaments(db.tournaments) && UniqueTeams(db.teams) && UniqueVideos(db.videos)
    && UniqueMatchups(db.matchups) && UniqueBookmarks(db.bookmarks)
  }

  /**
   * Under the global `(date, order)` constraint, videos sorted by the Meta
   * ordering are strictly increasing: no two share a date and an order.
   */
  lemma VideosStrictlyOrdered(vs: seq<Video>)
    requires UniqueVideos(vs) && SortedBy(vs, VideoBefore)
    ensures forall i, j :: 0 <= i < j < |vs| ==>
      vs[i].date < vs[j].date || (vs[i].date == vs[j].date && vs[i].order < vs[j].order)
  {
  }

  /**
   * Under the `(video, order)` constraint, a video's matchups sorted by
   * order have strictly increasing orders.
   */
  lemma MatchupsStrictlyOrdered(ms: seq<Matchup>, video: Id)
    requires UniqueMatchups(ms) && SortedBy(ms, MatchupBefore)
    requires forall m :: m in ms ==> m.video == video
    ensures forall i, j :: 0 <= i < j < |ms| ==> ms[i].order < ms[j].order
  {
    forall i, j | 0 <= i < j < |ms| ensures ms[i].order < ms[j].order {
      assert ms[i] in ms && ms[j] in ms;
    }
  }

  /** Distinct primary keys make the records themselves distinct. */
  lemma DistinctVideos(vs: seq<Video>)
    requires UniqueVideos(vs)
    ensures Distinct(vs)
  {
  }
}
