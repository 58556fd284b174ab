/**
 * The episode helpers of src/utils/watchProgress.js: reading series, season and episode
 * from a video name, finding the next episode of a series, and grouping a catalog by
 * series and season.
 *
 * The three regular expressions of `parseEpisodeInfo` are written out as matchers. Group 1
 * is lazy (`.+?`), so the engine tries prefixes of one character, two, and so on, and takes
 * the first after which the rest of the pattern matches. After that prefix every repetition
 * is followed by a character its class excludes, so each takes its maximal run and
 * backtracking cannot change the outcome.
 */
module Episodes {
  import opened Wrappers
  import opened Text
  import Sorting
  import ListVideos

  /** `{ series, season, episode }` */
  datatype EpisodeInfo = EpisodeInfo(series: string, season: nat, episode: nat)

  /** `[.\s_-]` */
  predicate IsSeparator(c: char) {
    c == '.' || IsSpace(c) || c == '_' || c == '-'
  }

  /** The end of the maximal run of characters satisfying `p` that starts at `i`. */
  function RunEnd(s: string, i: nat, p: char -> bool): (j: nat)
    requires i <= |s|
    ensures i <= j <= |s|
    decreases |s| - i
  {
    if i == |s| || !p(s[i]) then i else RunEnd(s, i + 1, p)
  }

  /** Every character of the run satisfies `p`, and the one after it, if any, does not. */
  lemma {:induction false} RunEndMeans(s: string, i: nat, p: char -> bool)
    requires i <= |s|
    ensures forall k :: i <= k < RunEnd(s, i, p) ==> p(s[k])
    ensures RunEnd(s, i, p) == |s| || !p(s[RunEnd(s, i, p)])
    decreases |s| - i
  {
    if i < |s| && p(s[i]) {
      RunEndMeans(s, i + 1, p);
    }
  }

  /** A run of digits reads as a digit string. */
  lemma DigitRun(s: string, i: nat)
    requires i <= |s|
    ensures AllDigits(s[i..RunEnd(s, i, IsDigit)])
  {
    RunEndMeans(s, i, IsDigit);
    var j := RunEnd(s, i, IsDigit);
    forall q | 0 <= q < j - i
      ensures IsDigit(s[i..j][q])
    {
      assert s[i..j][q] == s[i + q];
    }
  }

  /** The three captures of a match: the series text and the two digit runs. */
  datatype RawMatch = RawMatch(series: string, season: string, episode: string)

  predicate ValidRaw(m: RawMatch) {
    m.season != [] && AllDigits(m.season) && m.episode != [] && AllDigits(m.episode)
  }

  /** `s` holds `word` at `i`, ignoring the case of ASCII letters (the `i` flag). */
  predicate WordAt(s: string, i: nat, word: string) {
    i + |word| <= |s| && ToLower(s[i..i + |word|]) == word
  }

  datatype Pattern = SxxEyy | SeasonEpisode | NxM

  /** `[.\s_-]*[Ss](\d+)[Ee](\d+)` after a group 1 of `L` characters. */
  function SxxEyyAt(name: string, L: nat): (r: Option<RawMatch>)
    requires L <= |name|
    ensures r.Some? ==> ValidRaw(r.value) && r.value.series == name[..L]
  {
    var i := RunEnd(name, L, IsSeparator);
    if i < |name| && (name[i] == 'S' || name[i] == 's') then
      var j := RunEnd(name, i + 1, IsDigit);
      if j > i + 1 && j < |name| && (name[j] == 'E' || name[j] == 'e') then
        var k := RunEnd(name, j + 1, IsDigit);
        if k > j + 1 then
          DigitRun(name, i + 1);
          DigitRun(name, j + 1);
          Some(RawMatch(name[..L], name[i + 1..j], name[j + 1..k]))
        else None
      else None
    else None
  }

  /** `[.\s_-]*Season\s*(\d+)\s*Episode\s*(\d+)`, case-insensitive, after a group 1 of `L` characters. */
  function SeasonEpisodeAt(name: string, L: nat): (r: Option<RawMatch>)
    requires L <= |name|
    ensures r.Some? ==> ValidRaw(r.value) && r.value.series == name[..L]
  {
    var i := RunEnd(name, L, IsSeparator);
    if WordAt(name, i, "season") then
      var a := RunEnd(name, i + 6, IsSpace);
      var b := RunEnd(name, a, IsDigit);
      var c := RunEnd(name, b, IsSpace);
      if b > a && WordAt(name, c, "episode") then
        var d := RunEnd(name, c + 7, IsSpace);
        var e := RunEnd(name, d, IsDigit);
        if e > d then
          DigitRun(name, a);
          DigitRun(name, d);
          Some(RawMatch(name[..L], name[a..b], name[d..e]))
        else None
      else None
    else None
  }

  /** `[.\s_-]*(\d+)x(\d+)` after a group 1 of `L` characters. */
  function NxMAt(name: string, L: nat): (r: Option<RawMatch>)
    requires L <= |name|
    ensures r.Some? ==> ValidRaw(r.value) && r.value.series == name[..L]
  {
    var i := RunEnd(name, L, IsSeparator);
    var j := RunEnd(name, i, IsDigit);
    if j > i && j < |name| && name[j] == 'x' then
      var k := RunEnd(name, j + 1, IsDigit);
      if k > j + 1 then
        DigitRun(name, i);
        DigitRun(name, j + 1);
        Some(RawMatch(name[..L], name[i..j], name[j + 1..k]))
      else None
    else None
  }

  function MatchAt(p: Pattern, name: string, L: nat): (r: Option<RawMatch>)
    requires L <= |name|
    ensures r.Some? ==> ValidRaw(r.value) && r.value.series == name[..L]
  {
    match p
    case SxxEyy => SxxEyyAt(name, L)
    case SeasonEpisode => SeasonEpisodeAt(name, L)
    case NxM => NxMAt(name, L)
  }

  /** `^(.+?)` followed by pattern `p`: the shortest group 1, from `L` characters on, free of line terminators. */
  function LazySearch(p: Pattern, name: string, L: nat): (r: Option<RawMatch>)
    requires L >= 1
    ensures r.Some? ==> ValidRaw(r.value)
    decreases |name| - L
  {
    if L > |name| || IsLineTerminator(name[L - 1]) then None
    else
      match MatchAt(p, name, L)
      case Some(m) => Some(m)
      case None => LazySearch(p, name, L + 1)
  }

  /** Group 1 of `L` characters is the shortest, from `from` on, after which pattern `p` matches. */
  predicate ShortestFrom(p: Pattern, name: string, from: nat, L: nat)
    requires 1 <= from
  {
    && from <= L <= |name|
    && (forall k :: from - 1 <= k < L ==> !IsLineTerminator(name[k]))
    && (forall L' :: from <= L' < L ==> MatchAt(p, name, L').None?)
    && MatchAt(p, name, L).Some?
  }

  /** `LazySearch` returns the match of the shortest group 1 whose prefix holds no line terminator. */
  lemma {:induction false} LazySearchIsShortest(p: Pattern, name: string, from: nat)
    requires from >= 1
    ensures LazySearch(p, name, from).Some? ==>
      exists L :: ShortestFrom(p, name, from, L) && LazySearch(p, name, from) == MatchAt(p, name, L)
    decreases |name| - from
  {
    if from <= |name| && !IsLineTerminator(name[from - 1]) {
      if MatchAt(p, name, from).None? {
        LazySearchIsShortest(p, name, from + 1);
        if LazySearch(p, name, from).Some? {
          var L :| ShortestFrom(p, name, from + 1, L) && LazySearch(p, name, from + 1) == MatchAt(p, name, L);
          assert ShortestFrom(p, name, from, L);
        }
      } else {
        assert ShortestFrom(p, name, from, from);
      }
    }
  }

  /** `.replace(/[._]/g, ' ')` */
  function DotsToSpaces(s: string): (r: string)
    ensures |r| == |s|
    ensures forall i :: 0 <= i < |s| ==> r[i] == if s[i] == '.' || s[i] == '_' then ' ' else s[i]
  {
    seq(|s|, i requires 0 <= i < |s| => if s[i] == '.' || s[i] == '_' then ' ' else s[i])
  }

  /** `r` is `s[a..b]`, and everything of `s` outside that slice is a `\s` character. */
  predicate TrimmedAt(s: string, r: string, a: nat, b: nat) {
    && a <= b <= |s| && r == s[a..b]
    && (forall k :: 0 <= k < a ==> IsSpace(s[k]))
    && (forall k :: b <= k < |s| ==> IsSpace(s[k]))
  }

  /**
   * `String.prototype.trim`: the slice of `s` left after dropping `\s` characters at both ends,
   * so it neither starts nor ends with one.
   */
  function Trim(s: string): (r: string)
    ensures exists a: nat, b: nat :: TrimmedAt(s, r, a, b)
    ensures r == [] || (!IsSpace(r[0]) && !IsSpace(r[|r| - 1]))
    decreases |s|
  {
    if s != [] && IsSpace(s[0]) then
      var r := Trim(s[1..]);
      assert exists a: nat, b: nat :: TrimmedAt(s, r, a, b) by {
        var a: nat, b: nat :| TrimmedAt(s[1..], r, a, b);
        TrimmedAtDropFirst(s, r, a, b);
      }
      r
    else if s != [] && IsSpace(s[|s| - 1]) then
      var r := Trim(s[..|s| - 1]);
      assert exists a: nat, b: nat :: TrimmedAt(s, r, a, b) by {
        var a: nat, b: nat :| TrimmedAt(s[..|s| - 1], r, a, b);
        TrimmedAtDropLast(s, r, a, b);
      }
      r
    else
      assert TrimmedAt(s, s, 0, |s|);
      s
  }

  lemma TrimmedAtDropFirst(s: string, r: string, a: nat, b: nat)
    requires s != [] && IsSpace(s[0]) && TrimmedAt(s[1..], r, a, b)
    ensures TrimmedAt(s, r, a + 1, b + 1)
  {
    assert s[1..][a..b] == s[a + 1..b + 1];
    forall k | 0 <= k < a + 1
      ensures IsSpace(s[k])
    {
      if k > 0 {
        assert s[k] == s[1..][k - 1];
      }
    }
    forall k | b + 1 <= k < |s|
      ensures IsSpace(s[k])
    {
      assert s[k] == s[1..][k - 1];
    }
  }

  lemma TrimmedAtDropLast(s: string, r: string, a: nat, b: nat)
    requires s != [] && IsSpace(s[|s| - 1]) && TrimmedAt(s[..|s| - 1], r, a, b)
    ensures TrimmedAt(s, r, a, b)
  {
    assert s[..|s| - 1][a..b] == s[a..b];
    forall k | 0 <= k < a
      ensures IsSpace(s[k])
    {
      assert s[k] == s[..|s| - 1][k];
    }
    forall k | b <= k < |s|
      ensures IsSpace(s[k])
    {
      if k < |s| - 1 {
        assert s[k] == s[..|s| - 1][k];
      }
    }
  }

  /** The series name: group 1 with dots and underscores as spaces, trimmed. */
  function SeriesName(raw: string): string {
    Trim(DotsToSpaces(raw))
  }

  function InfoOf(m: RawMatch): EpisodeInfo
    requires ValidRaw(m)
  {
    EpisodeInfo(SeriesName(m.series), DecimalValue(m.season), DecimalValue(m.episode))
  }

  /**
   * `parseEpisodeInfo(name)`: the three patterns in order; the first that matches decides, and
   * the name is no episode when none matches.
   */
  function ParseEpisodeInfo(name: string): (r: Option<EpisodeInfo>)
    ensures r.None? <==>
      LazySearch(SxxEyy, name, 1).None? && LazySearch(SeasonEpisode, name, 1).None? && LazySearch(NxM, name, 1).None?
    ensures LazySearch(SxxEyy, name, 1).Some? ==> r == Some(InfoOf(LazySearch(SxxEyy, name, 1).value))
    ensures LazySearch(SxxEyy, name, 1).None? && LazySearch(SeasonEpisode, name, 1).Some? ==>
      r == Some(InfoOf(LazySearch(SeasonEpisode, name, 1).value))
    ensures LazySearch(SxxEyy, name, 1).None? && LazySearch(SeasonEpisode, name, 1).None? && LazySearch(NxM, name, 1).Some?
      ==> r == Some(InfoOf(LazySearch(NxM, name, 1).value))
  {
    match LazySearch(SxxEyy, name, 1)
    case Some(m) => Some(InfoOf(m))
    case None =>
      match LazySearch(SeasonEpisode, name, 1)
      case Some(m) => Some(InfoOf(m))
      case None =>
        match LazySearch(NxM, name, 1)
        case Some(m) => Some(InfoOf(m))
        case None => None
  }

  // ---------------------------------------------------------------- reading a conventional name

  /** No `S` or `s` directly followed by a digit: group 1 cannot end early at such a letter. */
  predicate NoSeasonMarker(series: string) {
    forall p :: 0 <= p < |series| - 1 && (series[p] == 'S' || series[p] == 's') ==> !IsDigit(series[p + 1])
  }

  /** With group 1 shorter than the series, the first pattern finds nothing. */
  lemma SxxEyyNotBefore(name: string, n: nat, L: nat)
    requires 1 <= L < n < |name|
    requires !IsSeparator(name[n - 1]) && NoSeasonMarker(name[..n]) && !IsDigit(name[n])
    ensures SxxEyyAt(name, L).None?
  {
    var i := RunEnd(name, L, IsSeparator);
    RunEndMeans(name, L, IsSeparator);
    assert i < n;
    if name[i] == 'S' || name[i] == 's' {
      if i + 1 < n {
        assert name[..n][i] == name[i] && name[..n][i + 1] == name[i + 1];
      }
      assert RunEnd(name, i + 1, IsDigit) == i + 1;
    }
  }

  /**
   * `name` reads `<series><separator>S<digits>E<digits>...`: the series is `name[..n]`, the
   * season digits `name[n + 2..j]` and the episode digits `name[j + 1..k]`.
   */
  predicate ConventionalLayout(name: string, n: nat, j: nat, k: nat) {
    && 1 <= n && n + 2 < j && j + 1 < k <= |name|
    && IsSeparator(name[n]) && (name[n + 1] == 'S' || name[n + 1] == 's')
    && (forall q :: n + 2 <= q < j ==> IsDigit(name[q]))
    && (name[j] == 'E' || name[j] == 'e')
    && (forall q :: j + 1 <= q < k ==> IsDigit(name[q]))
    && (k == |name| || !IsDigit(name[k]))
  }

  /** A series that cannot end group 1 early: no line terminator, no trailing separator, no `S<digit>`. */
  predicate PlainSeries(name: string, n: nat)
    requires 1 <= n <= |name|
  {
    && !IsSeparator(name[n - 1])
    && NoSeasonMarker(name[..n])
    && forall q :: 0 <= q < n ==> !IsLineTerminator(name[q])
  }

  /** With group 1 the whole series, the first pattern captures the season and episode digits. */
  lemma SxxEyyAtSeries(name: string, n: nat, j: nat, k: nat)
    requires ConventionalLayout(name, n, j, k)
    ensures SxxEyyAt(name, n) == Some(RawMatch(name[..n], name[n + 2..j], name[j + 1..k]))
  {
    RunEndOver(name, n, n + 1, IsSeparator);
    RunEndOver(name, n + 2, j, IsDigit);
    RunEndOver(name, j + 1, k, IsDigit);
    SxxEyyAtRuns(name, n, n + 1, j, k);
  }

  /** The first pattern, read off the three runs it takes. */
  lemma SxxEyyAtRuns(name: string, L: nat, i: nat, j: nat, k: nat)
    requires L <= i < j < k <= |name|
    requires RunEnd(name, L, IsSeparator) == i && (name[i] == 'S' || name[i] == 's')
    requires RunEnd(name, i + 1, IsDigit) == j && j > i + 1 && (name[j] == 'E' || name[j] == 'e')
    requires RunEnd(name, j + 1, IsDigit) == k && k > j + 1
    ensures SxxEyyAt(name, L) == Some(RawMatch(name[..L], name[i + 1..j], name[j + 1..k]))
  {
  }

  /**
   * A name laid out as a series, one separator, `S<digits>E<digits>` and a rest that does not
   * continue the episode number reads back as that series, season and episode.
   */
  lemma ParseConventionalName(name: string, n: nat, j: nat, k: nat)
    requires ConventionalLayout(name, n, j, k) && PlainSeries(name, n)
    ensures ParseEpisodeInfo(name)
      == Some(EpisodeInfo(SeriesName(name[..n]), DecimalValue(name[n + 2..j]), DecimalValue(name[j + 1..k])))
  {
    forall L | 1 <= L < n
      ensures MatchAt(SxxEyy, name, L).None?
    {
      SxxEyyNotBefore(name, n, L);
    }
    SxxEyyAtSeries(name, n, j, k);
    LazyFirstAt(SxxEyy, name, n);
  }

  /** The example of the source's comment: `Boston.Legal.S01E02.mkv` is season 1, episode 2 of Boston Legal. */
  lemma BostonLegalExample()
    ensures ParseEpisodeInfo("Boston.Legal.S01E02.mkv") == Some(EpisodeInfo("Boston Legal", 1, 2))
  {
    BostonLegalLayout();
    ParseConventionalName("Boston.Legal.S01E02.mkv", 12, 16, 19);
    BostonLegalSeries();
    BostonLegalNumbers();
  }

  lemma BostonLegalNumbers()
    ensures AllDigits("01") && DecimalValue("01") == 1
    ensures AllDigits("02") && DecimalValue("02") == 2
  {
    assert "01"[..1] == "0" && "0"[..0] == "";
    assert "02"[..1] == "0";
  }

  lemma BostonLegalLayout()
    ensures var name := "Boston.Legal.S01E02.mkv";
      && ConventionalLayout(name, 12, 16, 19) && PlainSeries(name, 12)
      && name[..12] == "Boston.Legal" && name[14..16] == "01" && name[17..19] == "02"
  {
    var name := "Boston.Legal.S01E02.mkv";
    assert name[..12] == "Boston.Legal" && name[14..16] == "01" && name[17..19] == "02";
    BostonLegalPlain();
  }

  lemma BostonLegalPlain()
    ensures PlainSeries("Boston.Legal.S01E02.mkv", 12)
  {
    var name := "Boston.Legal.S01E02.mkv";
    var series := "Boston.Legal";
    assert name[..12] == series;
    forall q | 0 <= q < 12
      ensures !IsLineTerminator(name[q])
    {
      assert name[q] in series;
    }
    assert NoSeasonMarker(series) by {
      forall p | 0 <= p < |series| - 1 && (series[p] == 'S' || series[p] == 's')
        ensures !IsDigit(series[p + 1])
      {
        assert p == 2;
      }
    }
  }

  lemma BostonLegalSeries()
    ensures SeriesName("Boston.Legal") == "Boston Legal"
  {
    var d := "Boston Legal";
    BostonLegalDots();
    assert !IsSpace(d[0]) && !IsSpace(d[|d| - 1]);
  }

  lemma BostonLegalDots()
    ensures DotsToSpaces("Boston.Legal") == "Boston Legal"
  {
    var d := DotsToSpaces("Boston.Legal");
    forall i | 0 <= i < 12
      ensures d[i] == "Boston Legal"[i]
    {
    }
  }

  /** A run over `[i, j)` that stops at `j` ends at `j`. */
  lemma {:induction false} RunEndOver(s: string, i: nat, j: nat, p: char -> bool)
    requires i <= j <= |s|
    requires forall k :: i <= k < j ==> p(s[k])
    requires j == |s| || !p(s[j])
    ensures RunEnd(s, i, p) == j
    decreases j - i
  {
    if i < j {
      RunEndOver(s, i + 1, j, p);
    }
  }

  /** When `L` is the first length that matches and its prefix is clean, the lazy search returns it. */
  lemma LazyFirstAt(p: Pattern, name: string, L: nat)
    requires 1 <= L <= |name|
    requires forall k :: 0 <= k < L ==> !IsLineTerminator(name[k])
    requires forall L' :: 1 <= L' < L ==> MatchAt(p, name, L').None?
    requires MatchAt(p, name, L).Some?
    ensures LazySearch(p, name, 1) == MatchAt(p, name, L)
  {
    LazyFrom(p, name, L, 1);
  }

  lemma {:induction false} LazyFrom(p: Pattern, name: string, L: nat, from: nat)
    requires 1 <= from <= L <= |name|
    requires forall k :: 0 <= k < L ==> !IsLineTerminator(name[k])
    requires forall L' :: from <= L' < L ==> MatchAt(p, name, L').None?
    requires MatchAt(p, name, L).Some?
    ensures LazySearch(p, name, from) == MatchAt(p, name, L)
    decreases L - from
  {
    if from < L {
      LazyFrom(p, name, L, from + 1);
    }
  }

  // ---------------------------------------------------------------- next episode

  /** A catalog video together with the episode information read from its name. */
  datatype Episode = Episode(video: ListVideos.VideoEntry, info: EpisodeInfo)

  /** `a.series.toLowerCase() === b.series.toLowerCase()` */
  predicate SameSeries(a: string, b: string) {
    ToLower(a) == ToLower(b)
  }

  /** The videos of `all` whose names parse into the series `series`, in catalog order (lines 215-217). */
  function SeriesEpisodes(all: seq<ListVideos.VideoEntry>, series: string): seq<Episode> {
    if all == [] then []
    else
      var prev := SeriesEpisodes(all[..|all| - 1], series);
      var v := all[|all| - 1];
      match ParseEpisodeInfo(v.name)
      case Some(info) => if SameSeries(info.series, series) then prev + [Episode(v, info)] else prev
      case None => prev
  }

  lemma {:induction false} SeriesEpisodesMembers(all: seq<ListVideos.VideoEntry>, series: string, ep: Episode)
    ensures ep in SeriesEpisodes(all, series) <==>
      ep.video in all && ParseEpisodeInfo(ep.video.name) == Some(ep.info) && SameSeries(ep.info.series, series)
  {
    if all != [] {
      var init, last := all[..|all| - 1], all[|all| - 1];
      SeriesEpisodesMembers(init, series, ep);
      assert all == init + [last];
      assert ep.video in all <==> ep.video in init || ep.video == last;
      var prev := SeriesEpisodes(init, series);
      var parsed := ParseEpisodeInfo(last.name);
      assert ep.video == last ==> ParseEpisodeInfo(ep.video.name) == parsed;
      if parsed.Some? && SameSeries(parsed.value.series, series) {
        assert SeriesEpisodes(all, series) == prev + [Episode(last, parsed.value)];
        assert ep in prev + [Episode(last, parsed.value)] <==> ep in prev || ep == Episode(last, parsed.value);
      } else {
        assert SeriesEpisodes(all, series) == prev;
      }
    }
  }

  /** By season, then by episode (lines 218-221). */
  function SeasonThenEpisode(a: Episode, b: Episode): bool {
    a.info.season < b.info.season || (a.info.season == b.info.season && a.info.episode <= b.info.episode)
  }

  lemma SeasonThenEpisodeIsPreorder()
    ensures Sorting.TotalPreorder(SeasonThenEpisode)
  {
  }

  /** `findIndex(v => v.key === key)`: the first position holding `key`, or -1. */
  function IndexOfKey(eps: seq<Episode>, key: string): (r: int)
    ensures -1 <= r < |eps|
    ensures r >= 0 ==> eps[r].video.key == key
    ensures forall j :: 0 <= j < |eps| && (r == -1 || j < r) ==> eps[j].video.key != key
  {
    if eps == [] then -1
    else if eps[0].video.key == key then 0
    else
      var r := IndexOfKey(eps[1..], key);
      if r == -1 then -1 else r + 1
  }

  /** The series of `current`, sorted by season and episode. */
  function SortedSeries(all: seq<ListVideos.VideoEntry>, series: string): (r: seq<Episode>)
    ensures Sorting.SortedBy(r, SeasonThenEpisode)
    ensures multiset(r) == multiset(SeriesEpisodes(all, series))
  {
    SeasonThenEpisodeIsPreorder();
    Sorting.Sort(SeriesEpisodes(all, series), SeasonThenEpisode)
  }

  /** `findNextEpisode(currentVideo, allVideos)`: the episode after the current one in its series. */
  function FindNextEpisode(current: ListVideos.VideoEntry, all: seq<ListVideos.VideoEntry>): (r: Option<Episode>)
    ensures ParseEpisodeInfo(current.name).None? ==> r.None?
  {
    match ParseEpisodeInfo(current.name)
    case None => None
    case Some(info) =>
      var sv := SortedSeries(all, info.series);
      var idx := IndexOfKey(sv, current.key);
      if 0 <= idx < |sv| - 1 then Some(sv[idx + 1]) else None
  }

  /** `a` comes strictly before `b` in season and episode order. */
  predicate StrictlyBefore(a: Episode, b: Episode) {
    !SeasonThenEpisode(b, a)
  }

  /**
   * A next episode exists only for a parseable current name whose key is among the series'
   * videos. It belongs to the same series (ignoring case) and was parsed from its own name.
   * It follows the first series video holding the current key in the sorted series, so it
   * comes no earlier than that video and no video of the series lies strictly between the two.
   */
  lemma FindNextEpisodeSpec(current: ListVideos.VideoEntry, all: seq<ListVideos.VideoEntry>)
    ensures ParseEpisodeInfo(current.name).None? ==> FindNextEpisode(current, all).None?
    ensures FindNextEpisode(current, all).Some? ==>
      var info := ParseEpisodeInfo(current.name).value;
      var next := FindNextEpisode(current, all).value;
      var sv := SortedSeries(all, info.series);
      && next.video in all
      && ParseEpisodeInfo(next.video.name) == Some(next.info)
      && SameSeries(next.info.series, info.series)
      && (exists i :: 0 <= i < |sv| - 1 && sv[i].video.key == current.key
            && (forall j :: 0 <= j < i ==> sv[j].video.key != current.key)
            && next == sv[i + 1])
      && exists at :: at in SeriesEpisodes(all, info.series) && at.video.key == current.key
           && SeasonThenEpisode(at, next)
           && forall ep :: ep in SeriesEpisodes(all, info.series) ==> !(StrictlyBefore(at, ep) && StrictlyBefore(ep, next))
  {
    if FindNextEpisode(current, all).Some? {
      var info := ParseEpisodeInfo(current.name).value;
      var series := SeriesEpisodes(all, info.series);
      var sv := SortedSeries(all, info.series);
      var idx := IndexOfKey(sv, current.key);
      var at, next := sv[idx], sv[idx + 1];
      Sorting.SameElements(sv, series, next);
      Sorting.SameElements(sv, series, at);
      SeriesEpisodesMembers(all, info.series, next);
      assert SeasonThenEpisode(at, next);
      NoneBetweenNeighbours(sv, series, idx);
    }
  }

  /** In a sorted permutation of `series`, no episode of `series` lies strictly between two neighbours. */
  lemma NoneBetweenNeighbours(sv: seq<Episode>, series: seq<Episode>, idx: nat)
    requires idx + 1 < |sv|
    requires Sorting.SortedBy(sv, SeasonThenEpisode) && multiset(sv) == multiset(series)
    ensures forall ep :: ep in series ==> !(StrictlyBefore(sv[idx], ep) && StrictlyBefore(ep, sv[idx + 1]))
  {
    forall ep | ep in series
      ensures !(StrictlyBefore(sv[idx], ep) && StrictlyBefore(ep, sv[idx + 1]))
    {
      Sorting.SameElements(sv, series, ep);
      var j :| 0 <= j < |sv| && sv[j] == ep;
      if j <= idx {
        assert j == idx || SeasonThenEpisode(sv[j], sv[idx]);
      } else {
        assert j == idx + 1 || SeasonThenEpisode(sv[idx + 1], sv[j]);
      }
    }
  }

  /**
   * For a parseable current name there is no next episode exactly when no series video holds
   * the current key or the first one that does is the last of the sorted series; in the
   * latter case no video of the series comes strictly after it.
   */
  lemma FindNextEpisodeNone(current: ListVideos.VideoEntry, all: seq<ListVideos.VideoEntry>)
    requires ParseEpisodeInfo(current.name).Some?
    ensures var info := ParseEpisodeInfo(current.name).value;
      var sv := SortedSeries(all, info.series);
      FindNextEpisode(current, all).None? <==>
        (forall ep :: ep in SeriesEpisodes(all, info.series) ==> ep.video.key != current.key)
        || (sv != [] && sv[|sv| - 1].video.key == current.key
            && forall j :: 0 <= j < |sv| - 1 ==> sv[j].video.key != current.key)
    ensures var info := ParseEpisodeInfo(current.name).value;
      FindNextEpisode(current, all).None? ==>
        forall at :: at in SeriesEpisodes(all, info.series) && at.video.key == current.key ==>
          exists last :: last in SeriesEpisodes(all, info.series) && last.video.key == current.key
            && forall ep :: ep in SeriesEpisodes(all, info.series) ==> !StrictlyBefore(last, ep)
  {
    var info := ParseEpisodeInfo(current.name).value;
    var series := SeriesEpisodes(all, info.series);
    var sv := SortedSeries(all, info.series);
    var idx := IndexOfKey(sv, current.key);
    if idx >= 0 {
      Sorting.SameElements(sv, series, sv[idx]);
      if FindNextEpisode(current, all).None? {
        var last := sv[idx];
        assert idx == |sv| - 1;
        forall ep | ep in series
          ensures !StrictlyBefore(last, ep)
        {
          Sorting.SameElements(sv, series, ep);
          var j :| 0 <= j < |sv| && sv[j] == ep;
          assert j == idx || SeasonThenEpisode(ep, last);
        }
      }
    } else {
      forall ep | ep in series
        ensures ep.video.key != current.key
      {
        Sorting.SameElements(sv, series, ep);
      }
    }
  }

  // ---------------------------------------------------------------- grouping by series

  /** Series name, then season number, then that season's episodes. */
  type Grouped = map<string, map<nat, seq<Episode>>>

  /** `grouped[info.series][info.season].push(...)`, creating the levels that are missing. */
  function AddEpisode(g: Grouped, ep: Episode): (r: Grouped)
    ensures ep.info.series in r && ep.info.season in r[ep.info.series]
  {
    var seasons := if ep.info.series in g then g[ep.info.series] else map[];
    var eps := if ep.info.season in seasons then seasons[ep.info.season] else [];
    g[ep.info.series := seasons[ep.info.season := eps + [ep]]]
  }

  /** The first loop of `groupVideosBySeries` over the videos seen so far, before sorting. */
  function Group(videos: seq<ListVideos.VideoEntry>): (r: (Grouped, seq<ListVideos.VideoEntry>))
    ensures r.1 == Unparsed(videos)
  {
    if videos == [] then (map[], [])
    else
      var prev := Group(videos[..|videos| - 1]);
      var v := videos[|videos| - 1];
      match ParseEpisodeInfo(v.name)
      case Some(info) => (AddEpisode(prev.0, Episode(v, info)), prev.1)
      case None => (prev.0, prev.1 + [v])
  }

  /** The videos whose names do not parse as an episode, in input order. */
  function Unparsed(videos: seq<ListVideos.VideoEntry>): (r: seq<ListVideos.VideoEntry>)
    ensures forall v :: v in r <==> v in videos && ParseEpisodeInfo(v.name).None?
  {
    if videos == [] then []
    else
      var init, v := videos[..|videos| - 1], videos[|videos| - 1];
      assert videos == init + [v];
      Unparsed(init) + (if ParseEpisodeInfo(v.name).None? then [v] else [])
  }

  /** Every episode sits under its own series and season, and no season is empty. */
  ghost predicate WellGrouped(g: Grouped) {
    forall series, season | series in g && season in g[series] ::
      g[series][season] != []
      && forall ep | ep in g[series][season] :: ep.info.series == series && ep.info.season == season
  }

  /**
   * An episode is grouped exactly when its video is in the input and its name parses to its
   * information. This states membership, not multiplicity: the catalog's videos have distinct
   * keys (`ListVideos.CatalogKeysDistinct`), so no episode is filed twice there.
   */
  ghost predicate GroupedExactly(g: Grouped, videos: seq<ListVideos.VideoEntry>) {
    forall ep: Episode ::
      (ep.info.series in g && ep.info.season in g[ep.info.series] && ep in g[ep.info.series][ep.info.season])
      <==> (ep.video in videos && ParseEpisodeInfo(ep.video.name) == Some(ep.info))
  }

  lemma AddEpisodeKeeps(g: Grouped, ep: Episode)
    requires WellGrouped(g)
    ensures WellGrouped(AddEpisode(g, ep))
    ensures forall e: Episode ::
      (e.info.series in AddEpisode(g, ep) && e.info.season in AddEpisode(g, ep)[e.info.series]
        && e in AddEpisode(g, ep)[e.info.series][e.info.season])
      <==> (e == ep || (e.info.series in g && e.info.season in g[e.info.series] && e in g[e.info.series][e.info.season]))
  {
  }

  /**
   * Grouping puts every video whose name parses into its series and season, keeps every other
   * video, in order, in `ungrouped`, and nothing else.
   */
  lemma {:induction false} GroupSpec(videos: seq<ListVideos.VideoEntry>)
    ensures WellGrouped(Group(videos).0)
    ensures GroupedExactly(Group(videos).0, videos)
    ensures Group(videos).1 == Unparsed(videos)
  {
    if videos != [] {
      var init := videos[..|videos| - 1];
      var v := videos[|videos| - 1];
      assert videos == init + [v];
      GroupSpec(init);
      var prev := Group(init);
      match ParseEpisodeInfo(v.name)
      case Some(info) =>
        AddEpisodeKeeps(prev.0, Episode(v, info));
      case None =>
    }
  }

  /** `(a, b) => a.episodeInfo.episode - b.episodeInfo.episode` */
  function ByEpisode(a: Episode, b: Episode): bool {
    a.info.episode <= b.info.episode
  }

  lemma ByEpisodeIsPreorder()
    ensures Sorting.TotalPreorder(ByEpisode)
  {
  }

  /** The second loop: each season's episodes sorted by episode number. */
  function SortSeasons(g: Grouped): (r: Grouped)
    ensures r.Keys == g.Keys
    ensures forall series | series in g :: r[series].Keys == g[series].Keys
    ensures forall series, season | series in g && season in g[series] ::
      Sorting.SortedBy(r[series][season], ByEpisode)
      && multiset(r[series][season]) == multiset(g[series][season])
  {
    ByEpisodeIsPreorder();
    map series | series in g :: map season | season in g[series] :: Sorting.Sort(g[series][season], ByEpisode)
  }

  /** Sorting the seasons moves episodes within their season only. */
  lemma SortSeasonsKeepsGroups(g: Grouped, videos: seq<ListVideos.VideoEntry>)
    requires WellGrouped(g) && GroupedExactly(g, videos)
    ensures WellGrouped(SortSeasons(g)) && GroupedExactly(SortSeasons(g), videos)
  {
    var r := SortSeasons(g);
    forall series, season | series in r && season in r[series]
      ensures forall ep :: ep in r[series][season] <==> ep in g[series][season]
    {
      forall ep
        ensures ep in r[series][season] <==> ep in g[series][season]
      {
        Sorting.SameElements(r[series][season], g[series][season], ep);
      }
    }
  }

  /** The body of the first loop for a video whose name parses: create the missing levels, then push. */
  method PushEpisode(g: Grouped, ep: Episode) returns (grouped: Grouped)
    ensures grouped == AddEpisode(g, ep)
  {
    var series, season := ep.info.series, ep.info.season;
    grouped := g;
    if series !in grouped {
      grouped := grouped[series := map[]];
    }
    var seasons := grouped[series];
    ghost var seasons0 := seasons;
    assert seasons == if series in g then g[series] else map[];
    if season !in seasons {
      seasons := seasons[season := []];
    }
    ghost var eps := if season in seasons0 then seasons0[season] else [];
    assert seasons[season := seasons[season] + [ep]] == seasons0[season := eps + [ep]];
    grouped := grouped[series := seasons[season := seasons[season] + [ep]]];
    assert grouped == g[series := seasons[season := seasons[season] + [ep]]];
  }

  /** `groupVideosBySeries(videos)` */
  method GroupVideosBySeries(videos: seq<ListVideos.VideoEntry>) returns (grouped: Grouped, ungrouped: seq<ListVideos.VideoEntry>)
    ensures grouped == SortSeasons(Group(videos).0)
    ensures ungrouped == Group(videos).1
  {
    grouped, ungrouped := map[], [];
    for i := 0 to |videos|
      invariant (grouped, ungrouped) == Group(videos[..i])
    {
      var video := videos[i];
      assert videos[..i + 1][..i] == videos[..i];
      assert videos[..i + 1][i] == video;
      var info := ParseEpisodeInfo(video.name);
      if info.Some? {
        grouped := PushEpisode(grouped, Episode(video, info.value));
      } else {
        ungrouped := ungrouped + [video];
      }
    }
    assert videos[..|videos|] == videos;
    grouped := SortSeasons(grouped);
  }

  /**
   * The result of `groupVideosBySeries`: every episode under its series and season, each
   * season sorted by episode number, and exactly the unparseable videos left ungrouped.
   */
  lemma GroupVideosBySeriesSpec(videos: seq<ListVideos.VideoEntry>)
    ensures var grouped := SortSeasons(Group(videos).0);
      && WellGrouped(grouped) && GroupedExactly(grouped, videos)
      && (forall series, season | series in grouped && season in grouped[series] ::
            Sorting.SortedBy(grouped[series][season], ByEpisode))
    ensures Group(videos).1 == Unparsed(videos)
  {
    GroupSpec(videos);
    SortSeasonsKeepsGroups(Group(videos).0, videos);
  }
}
