/**
 * The watch-progress store of src/utils/watchProgress.js: a map from video key to the last
 * playback position saved for it, and the most-recent-first list of watched keys. The two
 * local-storage entries the source reads and rewrites are the two fields of `ProgressStore`.
 */
module WatchProgress {
  import opened Wrappers
  import opened Text
  import Sorting

  /** What the store keeps per video: position and duration in seconds, percent watched, save time. */
  datatype ProgressRecord = ProgressRecord(currentTime: real, duration: real, percent: real, updatedAt: int)

  /** `WATCHED_THRESHOLD * 100`: a video at 90 percent or more counts as watched. */
  const WatchedPercent: real := 90.0
  /** How many keys the recently-watched list keeps. */
  const RecentLimit: nat := 20

  /** `Math.round`: the nearest integer, halves rounded up. */
  function Round(x: real): (r: int)
    ensures x - 0.5 < r as real <= x + 0.5
  {
    (x + 0.5).Floor
  }

  function Min(a: int, b: int): (r: int)
    ensures r <= a && r <= b && (r == a || r == b)
  {
    if a <= b then a else b
  }

  /** `recent.filter(key => key !== videoKey)`. */
  function Without(list: seq<string>, videoKey: string): seq<string> {
    if list == [] then []
    else
      var init := Without(list[..|list| - 1], videoKey);
      if list[|list| - 1] != videoKey then init + [list[|list| - 1]] else init
  }

  /** The filter keeps every other key and drops every occurrence of `videoKey`. */
  lemma {:induction false} WithoutMembers(list: seq<string>, videoKey: string, x: string)
    ensures x in Without(list, videoKey) <==> x in list && x != videoKey
  {
    if list != [] {
      var init := list[..|list| - 1];
      WithoutMembers(init, videoKey, x);
      assert list == init + [list[|list| - 1]];
    }
  }

  /** `sub` is `list` with some positions removed: `pick` names, in increasing order, the positions kept. */
  predicate Picks(list: seq<string>, sub: seq<string>, pick: seq<nat>) {
    && |pick| == |sub|
    && (forall i :: 0 <= i < |pick| ==> pick[i] < |list| && list[pick[i]] == sub[i])
    && (forall i, j :: 0 <= i < j < |pick| ==> pick[i] < pick[j])
  }

  lemma PicksKeep(list: seq<string>, sub: seq<string>, pick: seq<nat>, x: string)
    requires Picks(list, sub, pick)
    ensures Picks(list + [x], sub + [x], pick + [|list|])
  {
    var l', s', p' := list + [x], sub + [x], pick + [|list|];
    forall i | 0 <= i < |p'|
      ensures p'[i] < |l'| && l'[p'[i]] == s'[i]
    {
      if i < |pick| {
        assert p'[i] == pick[i] && s'[i] == sub[i];
      }
    }
  }

  lemma PicksDrop(list: seq<string>, sub: seq<string>, pick: seq<nat>, x: string)
    requires Picks(list, sub, pick)
    ensures Picks(list + [x], sub, pick)
  {
    var l' := list + [x];
    forall i | 0 <= i < |pick|
      ensures pick[i] < |l'| && l'[pick[i]] == sub[i]
    {
    }
  }

  /** The filter keeps the other keys in their old relative order: it is `list` with positions removed. */
  lemma {:induction false} WithoutIsSubsequence(list: seq<string>, videoKey: string)
    ensures exists pick: seq<nat> :: Picks(list, Without(list, videoKey), pick)
  {
    if list == [] {
      var none: seq<nat> := [];
      assert Picks(list, Without(list, videoKey), none);
    } else {
      var init, last := list[..|list| - 1], list[|list| - 1];
      assert list == init + [last];
      WithoutIsSubsequence(init, videoKey);
      var pick: seq<nat> :| Picks(init, Without(init, videoKey), pick);
      if last != videoKey {
        PicksKeep(init, Without(init, videoKey), pick, last);
        assert Picks(list, Without(list, videoKey), pick + [|init|]);
      } else {
        PicksDrop(init, Without(init, videoKey), pick, last);
        assert Picks(list, Without(list, videoKey), pick);
      }
    }
  }

  /** The list `updateRecentlyWatched(videoKey)` writes: `videoKey` moved to the front, at most 20 kept. */
  function Bump(list: seq<string>, videoKey: string): seq<string> {
    var front := [videoKey] + Without(list, videoKey);
    if |front| > RecentLimit then front[..RecentLimit] else front
  }

  /**
   * After a bump the list starts with the key, holds it exactly once, holds only keys it
   * held before, keeps the others in their filtered order, and has at most 20 keys.
   */
  lemma BumpSpec(list: seq<string>, videoKey: string)
    ensures var r := Bump(list, videoKey);
      && 1 <= |r| <= RecentLimit
      && r[0] == videoKey
      && videoKey !in r[1..]
      && (forall x :: x in r[1..] ==> x in list)
      && r[1..] == Without(list, videoKey)[..|r| - 1]
  {
    var r := Bump(list, videoKey);
    var w := Without(list, videoKey);
    WithoutMembers(list, videoKey, videoKey);
    assert r[1..] == w[..|r| - 1];
    forall x | x in r[1..]
      ensures x in list && x != videoKey
    {
      WithoutMembers(list, videoKey, x);
    }
  }

  /** `(currentTime / duration) * 100` */
  function PercentOf(currentTime: real, duration: real): real
    requires duration != 0.0
  {
    currentTime / duration * 100.0
  }

  /** One "continue watching" item (lines 149-155). */
  datatype InProgressItem = InProgressItem(
    videoKey: string, percent: real, currentTime: real, duration: real, updatedAt: int)

  function ItemOf(videoKey: string, rec: ProgressRecord): InProgressItem {
    InProgressItem(videoKey, rec.percent, rec.currentTime, rec.duration, rec.updatedAt)
  }

  /** Started but not finished: more than 5 and less than 90 percent. */
  predicate InProgress(rec: ProgressRecord) {
    5.0 < rec.percent < 90.0
  }

  /** `b.updatedAt - a.updatedAt`: the most recently saved first. */
  function MoreRecentFirst(a: InProgressItem, b: InProgressItem): bool {
    a.updatedAt >= b.updatedAt
  }

  lemma MoreRecentFirstIsPreorder()
    ensures Sorting.TotalPreorder(MoreRecentFirst)
  {
  }

  class ProgressStore {
    /** The `videoWatchProgress` entry: records by video key. */
    var progress: map<string, ProgressRecord>
    /** The `recentlyWatched` entry: video keys, most recent first. */
    var recent: seq<string>

    constructor ()
      ensures progress == map[] && recent == []
    {
      progress := map[];
      recent := [];
    }

    /** `updateRecentlyWatched(videoKey)` (lines 108-126). */
    method UpdateRecentlyWatched(videoKey: string)
      modifies this
      ensures recent == Bump(old(recent), videoKey)
      ensures progress == old(progress)
    {
      var kept: seq<string> := [];
      for i := 0 to |recent|
        invariant kept == Without(recent[..i], videoKey)
      {
        assert recent[..i + 1][..i] == recent[..i];
        if recent[i] != videoKey {
          kept := kept + [recent[i]];
        }
      }
      assert recent[..|recent|] == recent;
      kept := [videoKey] + kept;
      if |kept| > RecentLimit {
        kept := kept[..RecentLimit];
      }
      recent := kept;
    }

    /**
     * `saveProgress(videoKey, currentTime, duration)` (lines 39-53); `now` is `Date.now()`.
     * An empty key or a zero duration changes nothing.
     */
    method SaveProgress(videoKey: string, currentTime: real, duration: real, now: int)
      modifies this
      ensures videoKey == "" || duration == 0.0 ==> progress == old(progress) && recent == old(recent)
      ensures videoKey != "" && duration != 0.0 ==>
        && progress == old(progress)[videoKey := ProgressRecord(currentTime, duration, PercentOf(currentTime, duration), now)]
        && recent == Bump(old(recent), videoKey)
    {
      if videoKey == "" || duration == 0.0 {
        return;
      }
      progress := progress[videoKey := ProgressRecord(currentTime, duration, PercentOf(currentTime, duration), now)];
      UpdateRecentlyWatched(videoKey);
    }

    /** `getProgress(videoKey)`: the record, or null (`None`). */
    function GetProgress(videoKey: string): (r: Option<ProgressRecord>)
      reads this
      ensures r.Some? <==> videoKey in progress
      ensures r.Some? ==> r.value == progress[videoKey]
    {
      if videoKey in progress then Some(progress[videoKey]) else None
    }

    /** `getProgressPercent(videoKey)`: the rounded percent, at most 100, and 0 without a record. */
    function GetProgressPercent(videoKey: string): (r: int)
      reads this
      ensures videoKey !in progress ==> r == 0
      ensures r <= 100
      ensures videoKey in progress && progress[videoKey].percent >= 0.0 ==> 0 <= r
      ensures videoKey in progress && progress[videoKey].percent <= 99.5 ==>
        progress[videoKey].percent - 0.5 < r as real <= progress[videoKey].percent + 0.5
      ensures videoKey in progress && progress[videoKey].percent > 99.5 ==> r == 100
    {
      match GetProgress(videoKey)
      case None => 0
      case Some(rec) => Min(100, Round(rec.percent))
    }

    /** `isWatched(videoKey)`: a record at 90 percent or more. */
    predicate IsWatched(videoKey: string)
      reads this
      ensures IsWatched(videoKey) <==> videoKey in progress && progress[videoKey].percent >= 90.0
    {
      match GetProgress(videoKey)
      case None => false
      case Some(rec) => rec.percent >= WatchedPercent
    }

    /** `markAsWatched(videoKey, duration)`: saves the end of the video as its position. */
    method MarkAsWatched(videoKey: string, duration: real, now: int)
      modifies this
      ensures videoKey == "" || duration == 0.0 ==> progress == old(progress) && recent == old(recent)
      ensures videoKey != "" && duration != 0.0 ==>
        && progress == old(progress)[videoKey := ProgressRecord(duration, duration, 100.0, now)]
        && IsWatched(videoKey)
        && recent == Bump(old(recent), videoKey)
    {
      assert duration != 0.0 ==> PercentOf(duration, duration) == 100.0 by {
        if duration != 0.0 {
          assert duration / duration == 1.0;
        }
      }
      SaveProgress(videoKey, duration, duration, now);
    }

    /** `clearProgress(videoKey)`: forgets that one record, present or not. */
    method ClearProgress(videoKey: string)
      modifies this
      ensures progress == old(progress) - {videoKey}
      ensures recent == old(recent)
    {
      progress := progress - {videoKey};
    }

    /**
     * `getInProgressVideos()` (lines 145-157): the records between 5 and 90 percent, each once,
     * most recently saved first.
     */
    method GetInProgressVideos() returns (items: seq<InProgressItem>)
      ensures Sorting.SortedBy(items, MoreRecentFirst)
      ensures forall it :: it in items <==>
        it.videoKey in progress && InProgress(progress[it.videoKey]) && it == ItemOf(it.videoKey, progress[it.videoKey])
      ensures forall i, j :: 0 <= i < j < |items| ==> items[i].videoKey != items[j].videoKey
    {
      var picked := PickInProgress();
      MoreRecentFirstIsPreorder();
      items := Sorting.Sort(picked, MoreRecentFirst);
      forall it
        ensures it in items <==> it in picked
      {
        Sorting.SameElements(items, picked, it);
      }
      Sorting.PermutationKeepsKeysDistinct(items, picked, (it: InProgressItem) => it.videoKey);
    }

    /** The `filter` and `map` of `getInProgressVideos` over the records, one item per key. */
    method PickInProgress() returns (picked: seq<InProgressItem>)
      ensures forall it :: it in picked <==>
        it.videoKey in progress && InProgress(progress[it.videoKey]) && it == ItemOf(it.videoKey, progress[it.videoKey])
      ensures forall i, j :: 0 <= i < j < |picked| ==> picked[i].videoKey != picked[j].videoKey
    {
      var rest := progress.Keys;
      picked := [];
      while rest != {}
        invariant rest <= progress.Keys
        invariant forall it :: it in picked <==>
          it.videoKey in progress && it.videoKey !in rest && InProgress(progress[it.videoKey])
          && it == ItemOf(it.videoKey, progress[it.videoKey])
        invariant forall i, j :: 0 <= i < j < |picked| ==> picked[i].videoKey != picked[j].videoKey
        invariant forall i :: 0 <= i < |picked| ==> picked[i].videoKey !in rest
        decreases |rest|
      {
        var k :| k in rest;
        if InProgress(progress[k]) {
          picked := picked + [ItemOf(k, progress[k])];
        }
        rest := rest - {k};
      }
    }
  }

  // ---------------------------------------------------------------- formatTime

  /** JavaScript's `%` on numbers: the remainder takes the sign of the dividend. */
  function JsRem(x: real, y: real): (r: real)
    requires y > 0.0
    ensures 0.0 <= x ==> 0.0 <= r < y
  {
    var q := x / y;
    var t := if q >= 0.0 then q.Floor else -((-q).Floor);
    if 0.0 <= x then
      RemainderBounds(x, y, q, t as real);
      x - y * t as real
    else
      x - y * t as real
  }

  lemma RemainderBounds(x: real, y: real, q: real, t: real)
    requires y > 0.0 && q == x / y && 0.0 <= x && q - 1.0 < t <= q
    ensures 0.0 <= x - y * t < y
  {
    var d := q - t;
    assert y * d < y by {
      assert y * d < y * 1.0;
    }
    assert 0.0 <= y * d;
    assert x - y * t == y * d;
  }

  /** `String(n)` for an integer. */
  function IntToString(n: int): string {
    if n < 0 then "-" + NatToDecimal(-n) else NatToDecimal(n)
  }

  /** `.toString().padStart(2, '0')`. */
  function Pad2(s: string): (r: string)
    ensures |r| == if |s| >= 2 then |s| else 2
    ensures EndsWith(r, s)
    ensures forall i :: 0 <= i < |r| - |s| ==> r[i] == '0'
  {
    if |s| >= 2 then s else seq(2 - |s|, _ => '0') + s
  }

  /** `formatTime(seconds)`: `M:SS`, or `H:MM:SS` from one hour on; `0:00` for zero. */
  function FormatTime(seconds: real): (r: string)
    ensures seconds == 0.0 ==> r == "0:00"
  {
    if seconds == 0.0 then "0:00"
    else
      var hrs := (seconds / 3600.0).Floor;
      var mins := (JsRem(seconds, 3600.0) / 60.0).Floor;
      var secs := JsRem(seconds, 60.0).Floor;
      ClockText(hrs, mins, secs)
  }

  /** The template literals of `formatTime`: the hours field only when it is positive. */
  function ClockText(hrs: int, mins: int, secs: int): string {
    if hrs > 0 then IntToString(hrs) + ":" + Pad2(IntToString(mins)) + ":" + Pad2(IntToString(secs))
    else IntToString(mins) + ":" + Pad2(IntToString(secs))
  }

  /**
   * Reads clock text back as seconds: the fields are separated by `:`, the first is a decimal
   * number and every later one two digits below 60, each worth 60 of the field after it.
   */
  function ClockValue(r: string): (v: Option<nat>)
    decreases |r|
  {
    var i := LastIndexOf(r, ':');
    if i < 0 then (if r != [] && AllDigits(r) then Some(DecimalValue(r)) else None)
    else ClockStep(ClockValue(r[..i]), r[i + 1..])
  }

  /** One more field after the clock text read so far: two digits below 60, worth 1/60 of the rest. */
  function ClockStep(head: Option<nat>, field: string): Option<nat> {
    match head
    case Some(h) =>
      if |field| == 2 && AllDigits(field) && DecimalValue(field) < 60 then Some(h * 60 + DecimalValue(field))
      else None
    case None => None
  }

  /** A digit string is a one-field clock text. */
  lemma ClockValueDigits(d: string)
    requires d != [] && AllDigits(d)
    ensures ClockValue(d) == Some(DecimalValue(d))
  {
  }

  /** Appending `:` and a field adds that field to the clock value of the rest, times 60. */
  lemma ClockValueJoin(a: string, b: string)
    requires AllDigits(b)
    ensures ClockValue(a + ":" + b) ==
      match ClockValue(a)
      case Some(head) =>
        if |b| == 2 && DecimalValue(b) < 60 then Some(head * 60 + DecimalValue(b)) else None
      case None => None
  {
    var u := a + ":" + b;
    assert ':' !in b;
    LastIndexOfJoin(a, ':', b);
    assert u[..|a|] == a;
    assert u[|a| + 1..] == b;
    ClockValueAt(u, |a|);
  }

  /** Clock text whose last `:` is at `i` splits there. */
  lemma ClockValueAt(r: string, i: nat)
    requires i < |r| && LastIndexOf(r, ':') == i
    ensures ClockValue(r) == ClockStep(ClockValue(r[..i]), r[i + 1..])
  {
  }

  /**
   * `formatTime` round-trips: reading the printed text of a positive time back as a clock
   * gives its whole seconds.
   */
  lemma FormatTimeReadsBack(seconds: real)
    requires seconds > 0.0
    ensures ClockValue(FormatTime(seconds)).Some? && ClockValue(FormatTime(seconds)).value == seconds.Floor
  {
    ClockFields(seconds);
    var hrs := (seconds / 3600.0).Floor;
    var mins := (JsRem(seconds, 3600.0) / 60.0).Floor;
    var secs := JsRem(seconds, 60.0).Floor;
    assert FormatTime(seconds) == ClockText(hrs, mins, secs);
    ClockTextReadsBack(hrs, mins, secs);
  }

  /** The number of `:` separators in clock text: one for `M:SS`, two for `H:MM:SS`. */
  function Colons(r: string): nat {
    multiset(r)[':']
  }

  /** `formatTime` prints `M:SS` below an hour and `H:MM:SS` from one hour on. */
  lemma FormatTimeShape(seconds: real)
    requires seconds > 0.0
    ensures Colons(FormatTime(seconds)) == if seconds < 3600.0 then 1 else 2
  {
    ClockFields(seconds);
    var hrs := (seconds / 3600.0).Floor;
    var mins := (JsRem(seconds, 3600.0) / 60.0).Floor;
    var secs := JsRem(seconds, 60.0).Floor;
    assert FormatTime(seconds) == ClockText(hrs, mins, secs);
    assert hrs > 0 <==> seconds >= 3600.0 by {
      if seconds >= 3600.0 {
        assert seconds / 3600.0 >= 1.0;
      } else {
        assert seconds / 3600.0 < 1.0;
      }
    }
    ClockTextShape(hrs, mins, secs);
  }

  /** The hours field and its separator appear only when the hours are positive. */
  lemma ClockTextShape(hrs: nat, mins: nat, secs: nat)
    ensures Colons(ClockText(hrs, mins, secs)) == if hrs > 0 then 2 else 1
  {
    DigitsHaveNoColon(IntToString(hrs));
    DigitsHaveNoColon(IntToString(mins));
    DigitsHaveNoColon(Pad2(IntToString(mins)));
    DigitsHaveNoColon(Pad2(IntToString(secs)));
  }

  lemma DigitsHaveNoColon(d: string)
    requires forall i :: 0 <= i < |d| ==> d[i] == '0' || IsDigit(d[i])
    ensures Colons(d) == 0
  {
    assert ':' !in d;
  }

  /** The printed fields read back as the time they stand for. */
  lemma ClockTextReadsBack(hrs: nat, mins: nat, secs: nat)
    requires mins < 60 && secs < 60
    ensures ClockValue(ClockText(hrs, mins, secs)).Some?
    ensures ClockValue(ClockText(hrs, mins, secs)).value == hrs * 3600 + mins * 60 + secs
  {
    assert IntToString(mins) == NatToDecimal(mins) && IntToString(secs) == NatToDecimal(secs);
    if hrs > 0 {
      assert IntToString(hrs) == NatToDecimal(hrs);
      HoursClock(hrs, mins, secs);
    } else {
      MinutesClock(mins, secs);
    }
  }

  /** `H:MM:SS` reads back as its three fields. */
  lemma HoursClock(hrs: nat, mins: nat, secs: nat)
    requires mins < 60 && secs < 60
    ensures var u := NatToDecimal(hrs) + ":" + Pad2(NatToDecimal(mins)) + ":" + Pad2(NatToDecimal(secs));
      ClockValue(u).Some? && ClockValue(u).value == hrs * 3600 + mins * 60 + secs
  {
    var hm := NatToDecimal(hrs) + ":" + Pad2(NatToDecimal(mins));
    var ss := Pad2(NatToDecimal(secs));
    var v := hrs * 60 + mins;
    HoursMinutesClock(hrs, mins);
    Pad2Value(secs);
    ClockValueAppend(hm, ss, v);
  }

  /** `H:MM` reads back as its two fields. */
  lemma HoursMinutesClock(hrs: nat, mins: nat)
    requires mins < 60
    ensures var u := NatToDecimal(hrs) + ":" + Pad2(NatToDecimal(mins));
      ClockValue(u).Some? && ClockValue(u).value == hrs * 60 + mins
  {
    var h, m := NatToDecimal(hrs), Pad2(NatToDecimal(mins));
    DecimalRoundTrip(hrs);
    ClockValueDigits(h);
    Pad2Value(mins);
    ClockValueJoin(h, m);
  }

  /** A clock text followed by `:` and a two-digit field below 60. */
  lemma ClockValueAppend(a: string, b: string, v: nat)
    requires ClockValue(a).Some? && ClockValue(a).value == v
    requires |b| == 2 && AllDigits(b) && DecimalValue(b) < 60
    ensures ClockValue(a + ":" + b).Some? && ClockValue(a + ":" + b).value == v * 60 + DecimalValue(b)
  {
    ClockValueJoin(a, b);
  }

  /** `M:SS` reads back as its two fields. */
  lemma MinutesClock(mins: nat, secs: nat)
    requires secs < 60
    ensures var u := NatToDecimal(mins) + ":" + Pad2(NatToDecimal(secs));
      ClockValue(u).Some? && ClockValue(u).value == mins * 60 + secs
  {
    var m, ss := NatToDecimal(mins), Pad2(NatToDecimal(secs));
    DecimalRoundTrip(mins);
    ClockValueDigits(m);
    Pad2Value(secs);
    ClockValueJoin(m, ss);
  }

  /** The clock fields `formatTime` prints: whole hours, minutes and seconds of a non-negative time. */
  lemma ClockFields(seconds: real)
    requires seconds >= 0.0
    ensures var hrs := (seconds / 3600.0).Floor;
      var mins := (JsRem(seconds, 3600.0) / 60.0).Floor;
      var secs := JsRem(seconds, 60.0).Floor;
      && 0 <= hrs && 0 <= mins < 60 && 0 <= secs < 60
      && hrs * 3600 + mins * 60 + secs == seconds.Floor
  {
    var hrs := (seconds / 3600.0).Floor;
    var r1 := JsRem(seconds, 3600.0);
    assert r1 == seconds - 3600.0 * hrs as real;
    var mins := (r1 / 60.0).Floor;
    var secs := JsRem(seconds, 60.0).Floor;
    var m := (seconds / 60.0).Floor;
    assert JsRem(seconds, 60.0) == seconds - 60.0 * m as real;
    assert m == hrs * 60 + mins by {
      assert (seconds / 60.0) == hrs as real * 60.0 + r1 / 60.0;
    }
    assert seconds.Floor == m * 60 + secs by {
      assert seconds == m as real * 60.0 + JsRem(seconds, 60.0);
    }
  }

  /** A two-digit field prints as exactly two digits that read back as the field. */
  lemma Pad2Value(n: nat)
    requires n < 100
    ensures |Pad2(NatToDecimal(n))| == 2
    ensures AllDigits(Pad2(NatToDecimal(n))) && DecimalValue(Pad2(NatToDecimal(n))) == n
  {
    var d := NatToDecimal(n);
    DecimalRoundTrip(n);
    if n < 10 {
      assert Pad2(d) == ['0'] + d;
      assert Pad2(d)[..1] == ['0'];
    } else {
      assert d == NatToDecimal(n / 10) + [DigitChar(n % 10)];
    }
  }
}
