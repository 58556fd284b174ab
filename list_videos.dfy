/**
 * The catalog builder of netlify/functions/list-videos.js: classifies every listed object
 * by extension, groups files by base name into a video, its subtitles and its poster, and
 * emits one catalog entry per base name that has a video, newest upload first.
 */
module ListVideos {
  import opened Wrappers
  import opened Text
  import Sorting
  import StorageConfig

  const VideoExtensions: seq<string> := ["mp4", "webm", "ogg", "mov", "avi", "mkv", "m4v"]
  const SubtitleExtensions: seq<string> := ["srt", "vtt", "ass", "ssa"]
  const ImageExtensions: seq<string> := ["jpg", "jpeg", "png", "webp"]

  /** One object of the storage listing (`Key`, `Size`, `LastModified` in epoch milliseconds). */
  datatype StorageObject = StorageObject(key: string, size: nat, lastModified: int)

  // ---------------------------------------------------------------- file names

  /** `key.split('/').pop()`: the last path segment. */
  function FileName(key: string): string {
    AfterLast(key, '/')
  }

  /** `filename.split('.').pop().toLowerCase()`: with no dot, the whole name. */
  function Extension(filename: string): string {
    ToLower(AfterLast(filename, '.'))
  }

  /**
   * `filename.replace(/\.[^.]+$/, '')`: removes the last dot together with the non-empty,
   * dot-free text after it; a name without a dot, or ending in a dot, is kept.
   */
  function StripExtension(filename: string): (r: string)
    ensures |r| <= |filename| && r == filename[..|r|]
  {
    var tail := AfterLast(filename, '.');
    if 0 < |tail| < |filename| then
      var stem := filename[..|filename| - |tail| - 1];
      assert stem == filename[..|stem|];
      stem
    else filename
  }

  /** Stripping the extension of `stem + "." + ext` (with `ext` non-empty and dot-free) gives `stem`. */
  lemma StripExtensionOfJoin(stem: string, ext: string)
    requires ext != [] && '.' !in ext
    ensures StripExtension(stem + "." + ext) == stem
  {
    AfterLastOfJoin(stem, '.', ext);
    assert (stem + "." + ext)[..|stem|] == stem;
  }

  /** `.replace(/-poster$/, '')`. */
  function StripPosterSuffix(name: string): string {
    if EndsWith(name, "-poster") then name[..|name| - 7] else name
  }

  /** The base name that groups a video with its subtitles and poster. */
  function BaseName(filename: string): string {
    StripPosterSuffix(StripExtension(filename))
  }

  datatype Role = VideoFile | SubtitleFile | PosterFile | Ignored

  /**
   * The branch of the listing loop a file takes: by extension, and an image only when its
   * name contains `-poster`.
   */
  function RoleOf(filename: string): (r: Role)
    ensures r == VideoFile <==> Extension(filename) in VideoExtensions
    ensures r == SubtitleFile <==> Extension(filename) in SubtitleExtensions
    ensures r == PosterFile <==> Extension(filename) in ImageExtensions && Contains(filename, "-poster")
  {
    var ext := Extension(filename);
    if ext in VideoExtensions then VideoFile
    else if ext in SubtitleExtensions then SubtitleFile
    else if ext in ImageExtensions && Contains(filename, "-poster") then PosterFile
    else Ignored
  }

  /** Length of the maximal run of decimal digits at the start of `s`. */
  function LeadingDigits(s: string): (n: nat)
    ensures n <= |s| && AllDigits(s[..n])
    ensures n == |s| || !IsDigit(s[n])
  {
    if s != [] && IsDigit(s[0]) then
      var n := 1 + LeadingDigits(s[1..]);
      assert s[..n] == [s[0]] + s[1..][..n - 1];
      n
    else 0
  }

  /**
   * The capture of `/^\d+-(.+)$/`: the text after an upload-timestamp prefix `<digits>-`.
   * `.` refuses line terminators, so the capture must hold none.
   */
  function TimestampedRest(filename: string): (r: Option<string>)
    ensures r.Some? <==>
      exists n: nat :: 1 <= n && n + 1 < |filename| && AllDigits(filename[..n]) && filename[n] == '-'
        && (forall i :: n + 1 <= i < |filename| ==> !IsLineTerminator(filename[i]))
    ensures r.Some? ==> EndsWith(filename, r.value) && |r.value| + 1 < |filename|
  {
    var n := LeadingDigits(filename);
    if 1 <= n && n + 1 < |filename| && filename[n] == '-'
       && forall i :: n + 1 <= i < |filename| ==> !IsLineTerminator(filename[i])
    then Some(filename[n + 1..])
    else
      None
  }

  /** `.replace(/_/g, ' ')`. */
  function UnderscoresToSpaces(s: string): string {
    seq(|s|, i requires 0 <= i < |s| => if s[i] == '_' then ' ' else s[i])
  }

  /**
   * The catalog's display name: with a timestamp prefix, the rest with underscores as
   * spaces; otherwise the file name as it is; in both cases without its final extension.
   */
  function DisplayName(filename: string): (r: string)
    ensures |r| <= |filename|
    ensures TimestampedRest(filename).None? ==> r == filename[..|r|]
    ensures TimestampedRest(filename).Some? ==> forall i | 0 <= i < |r| :: r[i] != '_'
  {
    match TimestampedRest(filename)
    case Some(rest) => StripExtension(UnderscoresToSpaces(rest))
    case None => StripExtension(filename)
  }

  /** A digit run followed by a non-digit: the run is exactly the leading digits. */
  lemma {:induction false} LeadingDigitsOfJoin(digits: string, rest: string)
    requires AllDigits(digits) && rest != [] && !IsDigit(rest[0])
    ensures LeadingDigits(digits + rest) == |digits|
  {
    if digits != [] {
      assert (digits + rest)[1..] == digits[1..] + rest;
      LeadingDigitsOfJoin(digits[1..], rest);
    }
  }

  /** A timestamp, a dash and a plain non-empty rest: the listing's pattern captures the rest. */
  lemma TimestampedRestOfJoin(digits: string, rest: string)
    requires digits != [] && AllDigits(digits) && rest != []
    requires forall i :: 0 <= i < |rest| ==> !IsLineTerminator(rest[i])
    ensures TimestampedRest(digits + "-" + rest) == Some(rest)
  {
    var name := digits + "-" + rest;
    assert name == digits + ("-" + rest);
    LeadingDigitsOfJoin(digits, "-" + rest);
    assert name[|digits|] == '-';
    assert name[|digits| + 1..] == rest;
    assert forall i :: |digits| + 1 <= i < |name| ==> name[i] == rest[i - |digits| - 1];
  }

  /** `.replace(/_/g, ' ')` works character by character, so it distributes over concatenation. */
  lemma UnderscoresToSpacesJoin(a: string, b: string)
    ensures UnderscoresToSpaces(a + b) == UnderscoresToSpaces(a) + UnderscoresToSpaces(b)
  {
  }

  /** Without a timestamp prefix, `stem.ext` is displayed as `stem`. */
  lemma DisplayNameOfPlain(stem: string, ext: string)
    requires ext != [] && '.' !in ext
    requires TimestampedRest(stem + "." + ext).None?
    ensures DisplayName(stem + "." + ext) == stem
  {
    StripExtensionOfJoin(stem, ext);
  }

  /** Turning underscores into spaces keeps the extension's dot, so stripping still removes `.ext`. */
  lemma StripUnderscoredJoin(stem: string, ext: string)
    requires ext != [] && '.' !in ext
    ensures StripExtension(UnderscoresToSpaces(stem + "." + ext)) == UnderscoresToSpaces(stem)
  {
    UnderscoresToSpacesJoin(stem + ".", ext);
    UnderscoresToSpacesJoin(stem, ".");
    var e := UnderscoresToSpaces(ext);
    assert '.' !in e by {
      forall i | 0 <= i < |e| ensures e[i] != '.' {
        assert ext[i] != '.';
      }
    }
    assert UnderscoresToSpaces(stem + "." + ext) == UnderscoresToSpaces(stem) + "." + e;
    StripExtensionOfJoin(UnderscoresToSpaces(stem), e);
  }

  /**
   * With one, `<digits>-stem.ext` is displayed as `stem` with its underscores as spaces: the
   * prefix goes first, then the extension.
   */
  lemma DisplayNameOfTimestamped(digits: string, stem: string, ext: string)
    requires digits != [] && AllDigits(digits)
    requires ext != [] && '.' !in ext
    requires forall i :: 0 <= i < |stem| ==> !IsLineTerminator(stem[i])
    requires forall i :: 0 <= i < |ext| ==> !IsLineTerminator(ext[i])
    ensures DisplayName(digits + "-" + stem + "." + ext) == UnderscoresToSpaces(stem)
  {
    var rest := stem + "." + ext;
    assert digits + "-" + stem + "." + ext == digits + "-" + rest;
    forall i | 0 <= i < |rest| ensures !IsLineTerminator(rest[i]) {
      if i > |stem| { assert rest[i] == ext[i - |stem| - 1]; }
    }
    TimestampedRestOfJoin(digits, rest);
    StripUnderscoredJoin(stem, ext);
  }

  /** A name ending in `.` has an empty extension, which `/\.[^.]+$/` does not strip. */
  lemma DisplayNameEndingInDot(f: string)
    requires f != [] && f[|f| - 1] == '.'
    ensures TimestampedRest(f).None? ==> DisplayName(f) == f
    ensures TimestampedRest(f).Some? ==> DisplayName(f) == UnderscoresToSpaces(TimestampedRest(f).value)
  {
    assert AfterLast(f, '.') == [];
    if TimestampedRest(f).Some? {
      var rest := TimestampedRest(f).value;
      var u := UnderscoresToSpaces(rest);
      assert rest[|rest| - 1] == f[|f| - 1];
      assert u[|u| - 1] == '.';
      assert AfterLast(u, '.') == [];
    }
  }

  /** A name without a dot keeps all of it: only the timestamp prefix and the underscores change. */
  lemma DisplayNameWithoutDot(f: string)
    requires '.' !in f
    ensures TimestampedRest(f).None? ==> DisplayName(f) == f
    ensures TimestampedRest(f).Some? ==> DisplayName(f) == UnderscoresToSpaces(TimestampedRest(f).value)
  {
    AfterLastAbsent(f, '.');
    if TimestampedRest(f).Some? {
      var rest := TimestampedRest(f).value;
      var u := UnderscoresToSpaces(rest);
      assert '.' !in u by {
        forall i | 0 <= i < |u| ensures u[i] != '.' {
          assert rest[i] == f[|f| - |rest| + i];
        }
      }
      AfterLastAbsent(u, '.');
    }
  }

  /** `getContentType(filename)`: the MIME type for the seven video extensions, else `video/mp4`. */
  function ContentType(filename: string): (r: string)
    ensures Extension(filename) !in VideoExtensions ==> r == "video/mp4"
    ensures Extension(filename) == "mp4" ==> r == "video/mp4"
    ensures Extension(filename) == "webm" ==> r == "video/webm"
    ensures Extension(filename) == "ogg" ==> r == "video/ogg"
    ensures Extension(filename) == "mov" ==> r == "video/quicktime"
    ensures Extension(filename) == "avi" ==> r == "video/x-msvideo"
    ensures Extension(filename) == "mkv" ==> r == "video/x-matroska"
    ensures Extension(filename) == "m4v" ==> r == "video/x-m4v"
  {
    match Extension(filename)
    case "mp4" => "video/mp4"
    case "webm" => "video/webm"
    case "ogg" => "video/ogg"
    case "mov" => "video/quicktime"
    case "avi" => "video/x-msvideo"
    case "mkv" => "video/x-matroska"
    case "m4v" => "video/x-m4v"
    case _ => "video/mp4"
  }

  // ---------------------------------------------------------------- subtitle language

  /** Case-insensitive `\.srt$`. */
  predicate EndsWithSrt(f: string) {
    |f| >= 4 && f[|f| - 4] == '.' && LowerChar(f[|f| - 3]) == 's'
    && LowerChar(f[|f| - 2]) == 'r' && LowerChar(f[|f| - 1]) == 't'
  }

  /**
   * `[a-z]{n}[,_.]?([A-Za-z]+)?` matched against the whole of `middle`, in the order the
   * regular-expression engine tries it (separator present first); the result is the
   * capture the source returns: the full name if captured, else the code.
   */
  function CodeThenName(middle: string, n: nat): (r: Option<string>)
    ensures r.Some? ==> r.value != [] && AllLetters(r.value)
  {
    if |middle| < n || !AllLetters(middle[..n]) then None
    else
      var rest := middle[n..];
      if rest != [] && (rest[0] == ',' || rest[0] == '_' || rest[0] == '.')
         && (rest[1..] == [] || AllLetters(rest[1..])) then
        (if rest[1..] == [] then (if n == 0 then None else Some(middle[..n])) else Some(rest[1..]))
      else if rest == [] || AllLetters(rest) then
        (if rest == [] then (if n == 0 then None else Some(middle[..n])) else Some(rest))
      else None
  }

  /** The first pattern, `/[_.]([a-z]{2,3})[,_.]?([A-Za-z]+)?\.srt$/i`, tried at position `p`. */
  function LanguagePatternOneAt(f: string, p: nat): (r: Option<string>)
    ensures r.Some? ==> r.value != [] && AllLetters(r.value) && EndsWithSrt(f)
  {
    if !EndsWithSrt(f) || p + 1 > |f| - 4 || (f[p] != '_' && f[p] != '.') then None
    else
      var middle := f[p + 1..|f| - 4];
      match CodeThenName(middle, 3)
      case Some(lang) => Some(lang)
      case None => CodeThenName(middle, 2)
  }

  /** The second pattern, `/[_-]([A-Za-z]+)\.srt$/i`, tried at position `p`. */
  function LanguagePatternTwoAt(f: string, p: nat): (r: Option<string>)
    ensures r.Some? ==> r.value != [] && AllLetters(r.value) && EndsWithSrt(f)
  {
    if !EndsWithSrt(f) || p + 1 > |f| - 4 || (f[p] != '_' && f[p] != '-') then None
    else
      var middle := f[p + 1..|f| - 4];
      if middle != [] && AllLetters(middle) then Some(middle) else None
  }

  predicate NoMatchOneBetween(f: string, from: nat, p: nat) {
    forall q: nat :: from <= q < p ==> LanguagePatternOneAt(f, q).None?
  }

  /**
   * The leftmost match of a pattern at or after `from`: the search `String.prototype.match`
   * performs for an unanchored regular expression.
   */
  function LeftmostOne(f: string, from: nat): (r: Option<string>)
    ensures r.Some? ==> r.value != [] && AllLetters(r.value) && EndsWithSrt(f)
    decreases |f| - from
  {
    if from >= |f| then None
    else if LanguagePatternOneAt(f, from).Some? then LanguagePatternOneAt(f, from)
    else LeftmostOne(f, from + 1)
  }

  /** The search finds a match exactly when there is one, and then the first one. */
  lemma {:induction false} LeftmostOneMeans(f: string, from: nat)
    ensures LeftmostOne(f, from).Some? <==> exists p: nat :: from <= p < |f| && LanguagePatternOneAt(f, p).Some?
    ensures LeftmostOne(f, from).Some? ==> exists p: nat ::
      from <= p < |f| && LeftmostOne(f, from) == LanguagePatternOneAt(f, p) && NoMatchOneBetween(f, from, p)
    decreases |f| - from
  {
    if from < |f| {
      if LanguagePatternOneAt(f, from).Some? {
        assert NoMatchOneBetween(f, from, from);
      } else {
        LeftmostOneMeans(f, from + 1);
        var r := LeftmostOne(f, from + 1);
        if r.Some? {
          var p: nat :| from + 1 <= p < |f| && r == LanguagePatternOneAt(f, p) && NoMatchOneBetween(f, from + 1, p);
          assert NoMatchOneBetween(f, from, p);
        }
      }
    }
  }

  function LeftmostTwo(f: string, from: nat): (r: Option<string>)
    ensures r.Some? <==> exists p: nat :: from <= p < |f| && LanguagePatternTwoAt(f, p).Some?
    ensures r.Some? ==> exists p: nat :: from <= p < |f| && r == LanguagePatternTwoAt(f, p)
    decreases |f| - from
  {
    if from >= |f| then None
    else if LanguagePatternTwoAt(f, from).Some? then LanguagePatternTwoAt(f, from)
    else LeftmostTwo(f, from + 1)
  }

  /**
   * `extractLanguage(filename)`: the two patterns in order, each at its leftmost match,
   * preferring the full-name capture; `'Unknown'` when neither matches.
   */
  function ExtractLanguage(filename: string): (r: string)
    ensures r == "Unknown" || (r != [] && AllLetters(r))
    ensures !EndsWithSrt(filename) ==> r == "Unknown"
    ensures LeftmostOne(filename, 0).Some? ==> r == LeftmostOne(filename, 0).value
    ensures LeftmostOne(filename, 0).None? && LeftmostTwo(filename, 0).Some? ==> r == LeftmostTwo(filename, 0).value
    ensures LeftmostOne(filename, 0).None? && LeftmostTwo(filename, 0).None? ==> r == "Unknown"
  {
    match LeftmostOne(filename, 0)
    case Some(lang) => lang
    case None =>
      match LeftmostTwo(filename, 0)
      case Some(lang) => lang
      case None => "Unknown"
  }

  /**
   * A match is not told apart from no match: a track whose captured name is the word
   * `Unknown` gets the same language as a file neither pattern matches.
   */
  lemma CapturedUnknown()
    ensures ExtractLanguage("a-Unknown.srt") == "Unknown"
    ensures LeftmostTwo("a-Unknown.srt", 0).Some?
  {
    var f := "a-Unknown.srt";
    assert EndsWithSrt(f);
    assert f[2..9] == "Unknown";
    assert AllLetters("Unknown");
    assert LanguagePatternTwoAt(f, 1) == Some("Unknown");
    assert LeftmostTwo(f, 1) == Some("Unknown");
    assert LanguagePatternTwoAt(f, 0).None?;
    assert LeftmostOne(f, 0).None?;
  }

  // ---------------------------------------------------------------- grouping by base name

  datatype Subtitle = Subtitle(key: string, filename: string, language: string)

  /** The `{ video, subtitles, poster }` record the listing loop keeps per base name. */
  datatype FileEntry = FileEntry(video: Option<Listed>, subtitles: seq<Subtitle>, poster: Option<string>)

  const EmptyEntry := FileEntry(None, [], None)

  /**
   * What the handler derives from one item's key: its base name and branch (lines 67-72),
   * its subtitle record (lines 83-87), and the display name and content type its catalog
   * entry gets if it is the chosen video (lines 100-105, 112). All are functions of the key
   * alone, so they are computed here once.
   */
  datatype Listed = Listed(
    item: StorageObject, base: string, role: Role, track: Subtitle, name: string, contentType: string)

  function Classify(item: StorageObject): (r: Listed)
    ensures r.item == item && r.base == KeyBase(item.key)
    ensures r.role == VideoFile <==> Extension(FileName(item.key)) in VideoExtensions
    ensures r.track.key == item.key && r.track.filename == FileName(item.key)
    ensures r.track.language == "Unknown" || (r.track.language != [] && AllLetters(r.track.language))
    ensures Extension(FileName(item.key)) !in VideoExtensions ==> r.contentType == "video/mp4"
  {
    var filename := FileName(item.key);
    Listed(item, BaseName(filename), RoleOf(filename),
           Subtitle(item.key, filename, ExtractLanguage(filename)),
           DisplayName(filename), ContentType(filename))
  }

  function ClassifyAll(items: seq<StorageObject>): (r: seq<Listed>)
    ensures |r| == |items|
  {
    seq(|items|, i requires 0 <= i < |items| => Classify(items[i]))
  }

  /** What one listed item does to its base name's entry (list-videos.js lines 80-90). */
  function AddToEntry(entry: FileEntry, x: Listed): FileEntry {
    match x.role
    case VideoFile => entry.(video := Some(x))
    case SubtitleFile => entry.(subtitles := entry.subtitles + [x.track])
    case PosterFile => entry.(poster := Some(x.item.key))
    case Ignored => entry
  }

  /** The entry for base name `b` after the listing loop has seen `xs`. */
  function EntryFor(xs: seq<Listed>, b: string): FileEntry {
    if xs == [] then EmptyEntry
    else
      var e := EntryFor(xs[..|xs| - 1], b);
      if xs[|xs| - 1].base == b then AddToEntry(e, xs[|xs| - 1]) else e
  }

  /** The base name of every listed item, in listing order. */
  function Bases(xs: seq<Listed>): (r: seq<string>)
    ensures |r| == |xs|
  {
    seq(|xs|, i requires 0 <= i < |xs| => xs[i].base)
  }

  /** `names` without repeats, each at its first occurrence: the order a `Map` keeps its keys in. */
  function FirstSeen(names: seq<string>): seq<string> {
    if names == [] then []
    else
      var prev := FirstSeen(names[..|names| - 1]);
      if names[|names| - 1] in prev then prev else prev + [names[|names| - 1]]
  }

  /** `FirstSeen` repeats nothing. */
  lemma {:induction false} FirstSeenDistinct(names: seq<string>)
    ensures forall i, j :: 0 <= i < j < |FirstSeen(names)| ==> FirstSeen(names)[i] != FirstSeen(names)[j]
  {
    if names != [] {
      FirstSeenDistinct(names[..|names| - 1]);
    }
  }

  /** `FirstSeen` drops nothing but repeats. */
  lemma {:induction false} FirstSeenMembers(names: seq<string>, b: string)
    ensures b in FirstSeen(names) <==> b in names
  {
    if names != [] {
      var init := names[..|names| - 1];
      FirstSeenMembers(init, b);
      assert names == init + [names[|names| - 1]];
    }
  }

  /** The base names in the order the listing first meets them (the `Map`'s insertion order). */
  function BaseNames(xs: seq<Listed>): seq<string> {
    FirstSeen(Bases(xs))
  }

  /**
   * The base names are exactly those of the listed items, each once: the `Map` holds one
   * entry per base name.
   */
  lemma BaseNamesExact(xs: seq<Listed>, b: string)
    ensures b in BaseNames(xs) <==> exists i :: 0 <= i < |xs| && xs[i].base == b
    ensures forall i, j :: 0 <= i < j < |BaseNames(xs)| ==> BaseNames(xs)[i] != BaseNames(xs)[j]
  {
    FirstSeenMembers(Bases(xs), b);
    FirstSeenDistinct(Bases(xs));
    if b in Bases(xs) {
      var i :| 0 <= i < |xs| && Bases(xs)[i] == b;
    }
    if exists i :: 0 <= i < |xs| && xs[i].base == b {
      var i :| 0 <= i < |xs| && xs[i].base == b;
      assert Bases(xs)[i] == b;
    }
  }

  /** The `fileMap` the listing loop builds, as its sequence of `[baseName, entry]` pairs. */
  function FileMapOf(xs: seq<Listed>): seq<(string, FileEntry)> {
    var names := BaseNames(xs);
    seq(|names|, k requires 0 <= k < |names| => (names[k], EntryFor(xs, names[k])))
  }

  /** A base name no listed item has gets no video, subtitle or poster. */
  lemma {:induction false} UnlistedIsEmpty(xs: seq<Listed>, b: string)
    requires b !in Bases(xs)
    ensures EntryFor(xs, b) == EmptyEntry
  {
    if xs != [] {
      var init := xs[..|xs| - 1];
      assert Bases(xs)[|xs| - 1] == xs[|xs| - 1].base;
      assert Bases(init) == Bases(xs)[..|init|];
      UnlistedIsEmpty(init, b);
    }
  }

  /**
   * One turn of the listing loop: the entry of the item's base name is found at `j`, or
   * created at the end when `j` is past the last entry, and the item is applied to it.
   */
  lemma FileMapStep(xs: seq<Listed>, x: Listed, j: nat)
    requires j <= |FileMapOf(xs)|
    requires forall k :: 0 <= k < j ==> FileMapOf(xs)[k].0 != x.base
    requires j < |FileMapOf(xs)| ==> FileMapOf(xs)[j].0 == x.base
    ensures var m := FileMapOf(xs);
      var m1 := if j == |m| then m + [(x.base, EmptyEntry)] else m;
      FileMapOf(xs + [x]) == m1[j := (x.base, AddToEntry(m1[j].1, x))]
  {
    var b := x.base;
    var names := BaseNames(xs);
    var after := xs + [x];
    assert after[..|after| - 1] == xs;
    var m := FileMapOf(xs);
    var m1 := if j == |m| then m + [(b, EmptyEntry)] else m;
    var m2 := m1[j := (b, AddToEntry(m1[j].1, x))];
    assert Bases(after) == Bases(xs) + [b];
    FirstSeenDistinct(Bases(xs));
    assert |m| == |names|;
    assert forall k :: 0 <= k < |names| ==> m[k].0 == names[k];
    if j == |names| {
      FirstSeenMembers(Bases(xs), b);
      UnlistedIsEmpty(xs, b);
    }
    assert |BaseNames(after)| == |m2|;
    forall k | 0 <= k < |m2|
      ensures m2[k] == FileMapOf(after)[k]
    {
    }
  }

  /**
   * `fileMap.has(baseName)` / `fileMap.get(baseName)`: the position of the entry for `b`,
   * or the length of `fileMap` when there is none.
   */
  method FindEntry(fileMap: seq<(string, FileEntry)>, b: string) returns (j: nat)
    ensures j <= |fileMap|
    ensures forall k :: 0 <= k < j ==> fileMap[k].0 != b
    ensures j < |fileMap| ==> fileMap[j].0 == b
  {
    j := 0;
    while j < |fileMap| && fileMap[j].0 != b
      invariant j <= |fileMap|
      invariant forall k :: 0 <= k < j ==> fileMap[k].0 != b
    {
      j := j + 1;
    }
  }

  /** Growing a prefix by one element. */
  lemma PrefixStep<T>(s: seq<T>, i: nat)
    requires i < |s|
    ensures s[..i + 1] == s[..i] + [s[i]]
  {
  }

  /**
   * The listing loop (list-videos.js lines 64-91): for each item, find or create the entry
   * of its base name and apply the item to it.
   */
  method BuildFileMap(xs: seq<Listed>) returns (fileMap: seq<(string, FileEntry)>)
    ensures fileMap == FileMapOf(xs)
  {
    fileMap := [];
    var i := 0;
    while i < |xs|
      invariant 0 <= i <= |xs|
      invariant fileMap == FileMapOf(xs[..i])
    {
      var x := xs[i];
      var j := FindEntry(fileMap, x.base);
      PrefixStep(xs, i);
      FileMapStep(xs[..i], x, j);
      if j == |fileMap| {
        fileMap := fileMap + [(x.base, EmptyEntry)];
      }
      fileMap := fileMap[j := (x.base, AddToEntry(fileMap[j].1, x))];
      i := i + 1;
    }
    assert xs[..i] == xs;
  }

  // ---------------------------------------------------------------- what the grouping keeps

  /**
   * The video of a base name is the LAST video file listed under it: a later video of the
   * same base name replaces an earlier one (`entry.video = item`).
   */
  lemma {:induction false} EntryVideoIsLast(xs: seq<Listed>, b: string)
    ensures EntryFor(xs, b).video.Some? <==>
      exists i :: 0 <= i < |xs| && xs[i].base == b && xs[i].role == VideoFile
    ensures EntryFor(xs, b).video.Some? ==>
      exists i :: 0 <= i < |xs| && xs[i].base == b && xs[i].role == VideoFile
        && EntryFor(xs, b).video.value == xs[i]
        && forall j :: i < j < |xs| ==> !(xs[j].base == b && xs[j].role == VideoFile)
  {
    if xs != [] {
      var init := xs[..|xs| - 1];
      var last := xs[|xs| - 1];
      EntryVideoIsLast(init, b);
      if last.base == b && last.role == VideoFile {
        assert EntryFor(xs, b).video == Some(last);
        assert xs[|xs| - 1] == last;
      } else {
        var v := EntryFor(init, b).video;
        assert EntryFor(xs, b).video == v;
        if v.Some? {
          var i :| 0 <= i < |init| && init[i].base == b && init[i].role == VideoFile && v.value == init[i]
            && forall j :: i < j < |init| ==> !(init[j].base == b && init[j].role == VideoFile);
          assert xs[i] == init[i];
          forall j | i < j < |xs|
            ensures !(xs[j].base == b && xs[j].role == VideoFile)
          {
            if j < |init| {
              assert xs[j] == init[j];
            }
          }
        } else {
          forall i | 0 <= i < |xs|
            ensures !(xs[i].base == b && xs[i].role == VideoFile)
          {
            if i < |init| {
              assert xs[i] == init[i];
            }
          }
        }
      }
    }
  }

  /** Likewise the poster of a base name is the key of the last `-poster` image under it. */
  lemma {:induction false} EntryPosterIsLast(xs: seq<Listed>, b: string)
    ensures EntryFor(xs, b).poster.Some? <==>
      exists i :: 0 <= i < |xs| && xs[i].base == b && xs[i].role == PosterFile
    ensures EntryFor(xs, b).poster.Some? ==>
      exists i :: 0 <= i < |xs| && xs[i].base == b && xs[i].role == PosterFile
        && EntryFor(xs, b).poster.value == xs[i].item.key
        && forall j :: i < j < |xs| ==> !(xs[j].base == b && xs[j].role == PosterFile)
  {
    if xs != [] {
      var init := xs[..|xs| - 1];
      var last := xs[|xs| - 1];
      EntryPosterIsLast(init, b);
      if last.base == b && last.role == PosterFile {
        assert EntryFor(xs, b).poster == Some(last.item.key);
        assert xs[|xs| - 1] == last;
      } else {
        var v := EntryFor(init, b).poster;
        assert EntryFor(xs, b).poster == v;
        if v.Some? {
          var i :| 0 <= i < |init| && init[i].base == b && init[i].role == PosterFile && v.value == init[i].item.key
            && forall j :: i < j < |init| ==> !(init[j].base == b && init[j].role == PosterFile);
          assert xs[i] == init[i];
          forall j | i < j < |xs|
            ensures !(xs[j].base == b && xs[j].role == PosterFile)
          {
            if j < |init| {
              assert xs[j] == init[j];
            }
          }
        } else {
          forall i | 0 <= i < |xs|
            ensures !(xs[i].base == b && xs[i].role == PosterFile)
          {
            if i < |init| {
              assert xs[i] == init[i];
            }
          }
        }
      }
    }
  }

  /** The subtitle records of the subtitle files listed under base name `b`, in listing order. */
  function TracksUnder(xs: seq<Listed>, b: string): seq<Subtitle> {
    if xs == [] then []
    else
      var first := xs[0];
      (if first.base == b && first.role == SubtitleFile then [first.track] else [])
        + TracksUnder(xs[1..], b)
  }

  lemma {:induction false} TracksUnderSnoc(xs: seq<Listed>, x: Listed, b: string)
    ensures TracksUnder(xs + [x], b) ==
      TracksUnder(xs, b) + (if x.base == b && x.role == SubtitleFile then [x.track] else [])
  {
    var t := if x.base == b && x.role == SubtitleFile then [x.track] else [];
    if xs == [] {
      assert [x][1..] == [];
      assert TracksUnder([x], b) == t + TracksUnder([], b);
    } else {
      var h := if xs[0].base == b && xs[0].role == SubtitleFile then [xs[0].track] else [];
      var ys := xs + [x];
      assert ys[0] == xs[0] && ys[1..] == xs[1..] + [x];
      TracksUnderSnoc(xs[1..], x, b);
      calc {
        TracksUnder(ys, b);
        h + TracksUnder(xs[1..] + [x], b);
        h + (TracksUnder(xs[1..], b) + t);
        (h + TracksUnder(xs[1..], b)) + t;
        TracksUnder(xs, b) + t;
      }
    }
  }

  /**
   * Subtitles accumulate: the entry of `b` holds the subtitle record of every subtitle file
   * listed under `b`, each once, in listing order, and nothing else.
   */
  lemma {:induction false} EntrySubtitlesInOrder(xs: seq<Listed>, b: string)
    ensures EntryFor(xs, b).subtitles == TracksUnder(xs, b)
  {
    if xs != [] {
      var init := xs[..|xs| - 1];
      var last := xs[|xs| - 1];
      EntrySubtitlesInOrder(init, b);
      assert xs == init + [last];
      TracksUnderSnoc(init, last, b);
    }
  }

  // ---------------------------------------------------------------- the catalog

  /** One catalog entry (list-videos.js lines 107-116). */
  datatype VideoEntry = VideoEntry(
    key: string, name: string, size: nat, uploaded: int, contentType: string,
    provider: string, subtitles: seq<Subtitle>, poster: Option<string>)

  /** The base name that groups the object stored under `key`. */
  function KeyBase(key: string): string {
    BaseName(FileName(key))
  }

  /** Every classified item carries the base name of its own key. */
  predicate WellClassified(xs: seq<Listed>) {
    forall i :: 0 <= i < |xs| ==> xs[i].base == KeyBase(xs[i].item.key)
  }

  lemma ClassifyAllWellClassified(items: seq<StorageObject>)
    ensures WellClassified(ClassifyAll(items))
  {
  }

  /** The catalog entry of a base name's video (lines 99-116). */
  function VideoOf(x: Listed, e: FileEntry, provider: string): VideoEntry {
    VideoEntry(x.item.key, x.name, x.item.size, x.item.lastModified, x.contentType,
               provider, e.subtitles, e.poster)
  }

  /**
   * What the second loop of the handler (lines 96-98) keeps: the video and entry of every
   * base name that has a video, in map order.
   */
  function Emitted(fileMap: seq<(string, FileEntry)>): seq<(Listed, FileEntry)> {
    if fileMap == [] then []
    else
      var prev := Emitted(fileMap[..|fileMap| - 1]);
      var e := fileMap[|fileMap| - 1].1;
      if e.video.Some? then prev + [(e.video.value, e)] else prev
  }

  /** An entry is emitted exactly when its base name has a video, and nothing else is. */
  lemma {:induction false} EmittedExact(fileMap: seq<(string, FileEntry)>, o: Listed, e: FileEntry)
    ensures (o, e) in Emitted(fileMap) <==>
      exists k :: 0 <= k < |fileMap| && fileMap[k].1 == e && e.video == Some(o)
  {
    if fileMap != [] {
      var init := fileMap[..|fileMap| - 1];
      EmittedExact(init, o, e);
      if exists k :: 0 <= k < |fileMap| && fileMap[k].1 == e && e.video == Some(o) {
        var k :| 0 <= k < |fileMap| && fileMap[k].1 == e && e.video == Some(o);
        if k < |init| {
          assert init[k] == fileMap[k];
        }
      }
    }
  }

  /** Entries whose video lies under their own base name, with no base name twice. */
  predicate KeyedByBase(fileMap: seq<(string, FileEntry)>) {
    && (forall k :: 0 <= k < |fileMap| && fileMap[k].1.video.Some? ==>
          KeyBase(fileMap[k].1.video.value.item.key) == fileMap[k].0)
    && (forall k, l :: 0 <= k < l < |fileMap| ==> fileMap[k].0 != fileMap[l].0)
  }

  /** No two emitted videos share a key. */
  lemma {:induction false} EmittedKeysDistinct(fileMap: seq<(string, FileEntry)>)
    requires KeyedByBase(fileMap)
    ensures forall i, j :: 0 <= i < j < |Emitted(fileMap)| ==>
      Emitted(fileMap)[i].0.item.key != Emitted(fileMap)[j].0.item.key
  {
    if fileMap != [] {
      var init := fileMap[..|fileMap| - 1];
      var e := fileMap[|fileMap| - 1].1;
      assert KeyedByBase(init);
      EmittedKeysDistinct(init);
      var prev := Emitted(init);
      if e.video.Some? {
        var em := prev + [(e.video.value, e)];
        assert Emitted(fileMap) == em;
        forall i | 0 <= i < |prev|
          ensures prev[i].0.item.key != e.video.value.item.key
        {
          EarlierVideoOtherKey(fileMap, prev[i].0, prev[i].1);
        }
        assert forall i :: 0 <= i < |prev| ==> em[i] == prev[i];
      } else {
        assert Emitted(fileMap) == prev;
      }
    }
  }

  /** A video emitted before the last entry of the map lies under another base name, so under another key. */
  lemma EarlierVideoOtherKey(fileMap: seq<(string, FileEntry)>, o: Listed, e: FileEntry)
    requires KeyedByBase(fileMap) && fileMap != [] && fileMap[|fileMap| - 1].1.video.Some?
    requires (o, e) in Emitted(fileMap[..|fileMap| - 1])
    ensures o.item.key != fileMap[|fileMap| - 1].1.video.value.item.key
  {
    var n := |fileMap| - 1;
    var init := fileMap[..n];
    EmittedExact(init, o, e);
    var k :| 0 <= k < n && init[k].1 == e && e.video == Some(o);
    assert fileMap[k] == init[k];
    assert KeyBase(o.item.key) == fileMap[k].0;
    assert KeyBase(fileMap[n].1.video.value.item.key) == fileMap[n].0;
  }

  /** The catalog entries of the emitted videos, in the same order (lines 99-116). */
  function VideosOf(fileMap: seq<(string, FileEntry)>, provider: string): (r: seq<VideoEntry>)
    ensures |r| == |Emitted(fileMap)|
  {
    var em := Emitted(fileMap);
    seq(|em|, i requires 0 <= i < |em| => VideoOf(em[i].0, em[i].1, provider))
  }

  predicate KeysDistinct(videos: seq<VideoEntry>) {
    forall i, j :: 0 <= i < j < |videos| ==> videos[i].key != videos[j].key
  }

  /** `new Date(b.uploaded) - new Date(a.uploaded)`: newer uploads first. */
  function NewerFirst(a: VideoEntry, b: VideoEntry): bool {
    a.uploaded >= b.uploaded
  }

  lemma NewerFirstIsPreorder()
    ensures Sorting.TotalPreorder(NewerFirst)
  {
  }

  /** The `videos` array of a successful listing of the classified items `xs`, newest first. */
  function Catalog(xs: seq<Listed>, provider: string): (r: seq<VideoEntry>)
    ensures Sorting.SortedBy(r, NewerFirst)
    ensures multiset(r) == multiset(VideosOf(FileMapOf(xs), provider))
  {
    NewerFirstIsPreorder();
    Sorting.Sort(VideosOf(FileMapOf(xs), provider), NewerFirst)
  }

  /** Every entry of the built map holds a video listed under its own base name. */
  lemma FileMapKeyedByBase(xs: seq<Listed>)
    requires WellClassified(xs)
    ensures KeyedByBase(FileMapOf(xs))
  {
    var m := FileMapOf(xs);
    var names := BaseNames(xs);
    FirstSeenDistinct(Bases(xs));
    forall k | 0 <= k < |m| && m[k].1.video.Some?
      ensures KeyBase(m[k].1.video.value.item.key) == m[k].0
    {
      EntryVideoIsLast(xs, names[k]);
    }
  }

  /** No two catalog entries share a key: one entry per stored video. */
  lemma CatalogKeysDistinct(xs: seq<Listed>, provider: string)
    requires WellClassified(xs)
    ensures KeysDistinct(Catalog(xs, provider))
  {
    FileMapKeyedByBase(xs);
    var fileMap := FileMapOf(xs);
    EmittedKeysDistinct(fileMap);
    var videos := VideosOf(fileMap, provider);
    assert Sorting.KeysDistinctBy(videos, (v: VideoEntry) => v.key);
    Sorting.PermutationKeepsKeysDistinct(Catalog(xs, provider), videos, (v: VideoEntry) => v.key);
  }

  /** The emitted catalog entries are exactly those of the map entries that have a video. */
  lemma VideosOfExact(fileMap: seq<(string, FileEntry)>, provider: string, v: VideoEntry)
    ensures v in VideosOf(fileMap, provider) <==>
      exists k :: 0 <= k < |fileMap| && fileMap[k].1.video.Some?
        && v == VideoOf(fileMap[k].1.video.value, fileMap[k].1, provider)
  {
    var videos := VideosOf(fileMap, provider);
    var em := Emitted(fileMap);
    if v in videos {
      var i :| 0 <= i < |videos| && videos[i] == v;
      EmittedExact(fileMap, em[i].0, em[i].1);
    }
    if exists k :: 0 <= k < |fileMap| && fileMap[k].1.video.Some?
        && v == VideoOf(fileMap[k].1.video.value, fileMap[k].1, provider)
    {
      var k :| 0 <= k < |fileMap| && fileMap[k].1.video.Some?
        && v == VideoOf(fileMap[k].1.video.value, fileMap[k].1, provider);
      var e := fileMap[k].1;
      EmittedExact(fileMap, e.video.value, e);
      var i :| 0 <= i < |em| && em[i] == (e.video.value, e);
      assert videos[i] == v;
    }
  }

  /**
   * The catalog holds, for every base name that has a video, the entry built from its
   * last video, its subtitles and its poster, and nothing else.
   */
  lemma CatalogExact(xs: seq<Listed>, provider: string, v: VideoEntry)
    ensures v in Catalog(xs, provider) <==>
        exists b :: b in BaseNames(xs) && EntryFor(xs, b).video.Some?
          && v == VideoOf(EntryFor(xs, b).video.value, EntryFor(xs, b), provider)
  {
    var fileMap := FileMapOf(xs);
    Sorting.SameElements(Catalog(xs, provider), VideosOf(fileMap, provider), v);
    VideosOfExact(fileMap, provider, v);
    if exists b :: b in BaseNames(xs) && EntryFor(xs, b).video.Some?
          && v == VideoOf(EntryFor(xs, b).video.value, EntryFor(xs, b), provider)
    {
      var b :| b in BaseNames(xs) && EntryFor(xs, b).video.Some?
          && v == VideoOf(EntryFor(xs, b).video.value, EntryFor(xs, b), provider);
      var k :| 0 <= k < |BaseNames(xs)| && BaseNames(xs)[k] == b;
      assert fileMap[k].1 == EntryFor(xs, b);
    }
  }

  lemma VideosOfSnoc(fileMap: seq<(string, FileEntry)>, p: (string, FileEntry), provider: string)
    ensures VideosOf(fileMap + [p], provider) ==
      VideosOf(fileMap, provider) + (if p.1.video.Some? then [VideoOf(p.1.video.value, p.1, provider)] else [])
  {
    assert (fileMap + [p])[..|fileMap|] == fileMap;
  }

  /** The second loop of the handler (lines 94-117): one entry per base name with a video. */
  method CollectVideos(fileMap: seq<(string, FileEntry)>, provider: string) returns (videos: seq<VideoEntry>)
    ensures videos == VideosOf(fileMap, provider)
  {
    videos := [];
    var i := 0;
    while i < |fileMap|
      invariant 0 <= i <= |fileMap|
      invariant videos == VideosOf(fileMap[..i], provider)
    {
      var entry := fileMap[i].1;
      PrefixStep(fileMap, i);
      VideosOfSnoc(fileMap[..i], fileMap[i], provider);
      if entry.video.Some? {
        videos := videos + [VideoOf(entry.video.value, entry, provider)];
      }
      i := i + 1;
    }
    assert fileMap[..i] == fileMap;
  }

  // ---------------------------------------------------------------- the handler

  /** What the bucket listing returned: its objects, or the error it failed with. */
  datatype Listing = Listing(items: seq<StorageObject>) | ListingFailed(message: string)

  /** The handler's responses, by the body they carry. */
  datatype ListReply =
    | Preflight
    | MethodNotAllowed
    | NoProvider
    | ListFailed(details: string)
    | VideoList(videos: seq<VideoEntry>, count: nat, provider: string,
                availableProviders: StorageConfig.AvailableProviders)
  {
    function StatusCode(): (code: nat)
      ensures code == 200 <==> (this.Preflight? || this.VideoList?)
      ensures code == 405 <==> this.MethodNotAllowed?
      ensures code == 500 <==> (this.NoProvider? || this.ListFailed?)
    {
      match this
      case Preflight => 200
      case MethodNotAllowed => 405
      case NoProvider => 500
      case ListFailed(_) => 500
      case VideoList(_, _, _, _) => 200
    }
  }

  /**
   * `exports.handler` of list-videos.js: the CORS preflight, the method check, the provider
   * resolution, and for a successful listing the catalog, its length, the provider name and
   * the providers with complete credentials.
   */
  method ListVideos(httpMethod: string, preferred: Option<string>, env: StorageConfig.Env, listing: Listing)
    returns (reply: ListReply)
    ensures httpMethod == "OPTIONS" ==> reply == Preflight
    ensures httpMethod != "OPTIONS" && httpMethod != "GET" ==> reply == MethodNotAllowed
    ensures httpMethod == "GET" && StorageConfig.GetStorageClient(preferred, env).None? ==> reply == NoProvider
    ensures httpMethod == "GET" && StorageConfig.GetStorageClient(preferred, env).Some? ==>
      var client := StorageConfig.GetStorageClient(preferred, env).value;
      match listing
      case ListingFailed(message) => reply == ListFailed(message)
      case Listing(items) =>
        && reply.VideoList?
        && reply.videos == Catalog(ClassifyAll(items), client.provider.Name())
        && reply.count == |reply.videos|
        && reply.provider == client.provider.Name()
        && reply.availableProviders == StorageConfig.GetAvailableProviders(env)
  {
    if httpMethod == "OPTIONS" {
      return Preflight;
    }
    if httpMethod != "GET" {
      return MethodNotAllowed;
    }
    var client := StorageConfig.GetStorageClient(preferred, env);
    if client.None? {
      return NoProvider;
    }
    match listing
    case ListingFailed(message) =>
      reply := ListFailed(message);
    case Listing(items) =>
      var provider := client.value.provider.Name();
      var fileMap := BuildFileMap(ClassifyAll(items));
      var videos := CollectVideos(fileMap, provider);
      NewerFirstIsPreorder();
      videos := Sorting.Sort(videos, NewerFirst);
      reply := VideoList(videos, |videos|, provider, StorageConfig.GetAvailableProviders(env));
  }

  // ---------------------------------------------------------------- worked examples

  /** `2_eng,English.srt`: the three-letter code is followed by a full name, which wins. */
  lemma LanguageOfCodeAndName()
    ensures ExtractLanguage("2_eng,English.srt") == "English"
  {
    var f := "2_eng,English.srt";
    assert EndsWithSrt(f);
    assert f[2..|f| - 4] == "eng,English";
    assert LanguagePatternOneAt(f, 0).None?;
    assert CodeThenName("eng,English", 3) == Some("English");
    assert LanguagePatternOneAt(f, 1) == Some("English");
  }

  /** `video.en.srt`: a two-letter code alone. */
  lemma LanguageOfTwoLetterCode()
    ensures ExtractLanguage("video.en.srt") == "en"
  {
    var f := "video.en.srt";
    assert EndsWithSrt(f);
    assert f[6..|f| - 4] == "en";
    assert "en"[..2] == "en" && "en"[2..] == [];
    assert AllLetters("en");
    assert CodeThenName("en", 2) == Some("en");
    assert LanguagePatternOneAt(f, 5) == Some("en");
    assert LeftmostOne(f, 5) == Some("en");
    assert LeftmostOne(f, 4) == LeftmostOne(f, 5);
    assert LeftmostOne(f, 3) == LeftmostOne(f, 4);
    assert LeftmostOne(f, 2) == LeftmostOne(f, 3);
    assert LeftmostOne(f, 1) == LeftmostOne(f, 2);
    assert LeftmostOne(f, 0) == LeftmostOne(f, 1);
  }

  /**
   * `video_english.srt`: the first pattern matches at the underscore with the code `eng`
   * and the name `lish`, so the second pattern, which would give `english`, is never tried.
   */
  lemma LanguageOfFullName()
    ensures ExtractLanguage("video_english.srt") == "lish"
  {
    var f := "video_english.srt";
    assert EndsWithSrt(f);
    assert f[6..|f| - 4] == "english";
    assert "english"[3..] == "lish";
    assert CodeThenName("english", 3) == Some("lish");
    assert LanguagePatternOneAt(f, 5) == Some("lish");
    assert LeftmostOne(f, 5) == Some("lish");
    assert LeftmostOne(f, 4) == LeftmostOne(f, 5);
    assert LeftmostOne(f, 3) == LeftmostOne(f, 4);
    assert LeftmostOne(f, 2) == LeftmostOne(f, 3);
    assert LeftmostOne(f, 1) == LeftmostOne(f, 2);
    assert LeftmostOne(f, 0) == LeftmostOne(f, 1);
  }
}
