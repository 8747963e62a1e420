/**
 The line multiplexer `_GetLanguageText`: the primary dialog file, or a
 synthetic `LANGUAGE=` line when there is none, followed by every mod's
 matching dialog asset, each closed by a sentinel key line.

 The source is a lazy enumerator that also writes the language's
 "currently reading from" field between lines; the parser reads that field
 while it handles the line just yielded. The model therefore tags every
 line with the value the field holds while the line is parsed, and reports
 the value left once the enumerator has run to its end.
 */
module LineSource {
  import opened Wrappers
  import opened Text

  /** A line together with the "currently reading from" value in force for it. */
  datatype Line = Line(origin: string, text: string)

  /** A mod asset: whether its type is the dialog asset type, the name of its
      source (`None` for a missing source or name), and its text lines. */
  datatype Asset = Asset(isDialog: bool, sourceName: Option<string>, lines: seq<string>)

  /** A mod's asset map in enumeration order: virtual path and asset. */
  datatype ModContent = ModContent(entries: seq<(string, Asset)>)

  /** What the enumerator yields before it ends; `failed` says it ended by
      an exception (the path is too short to be sliced). */
  datatype Stream = Stream(lines: seq<Line>, finalOrigin: string, failed: bool)

  const PrimaryOrigin := "Celeste"
  const UnknownSource := "???"
  const Sentinel := "EVEREST_SPLIT_BETWEEN_FILES"
  const SentinelValue := "New file"
  const SentinelLine := Sentinel + "= " + SentinelValue
  const DialogPrefix := "Dialog/"

  /** The dialog path relative to the content root, with forward slashes and
      without its four-character extension; `None` where slicing throws. */
  function AssetPath(path: string, rootLength: nat): (r: Option<string>)
    ensures r.Some? <==> rootLength + 1 <= |path| && |path| - (rootLength + 1) >= 4
    ensures r.Some? ==> |r.value| + rootLength + 5 == |path|
    ensures r.Some? ==> forall i :: 0 <= i < |r.value| ==>
              r.value[i] == (if path[rootLength + 1 + i] == '\\' then '/' else path[rootLength + 1 + i])
  {
    if |path| < rootLength + 1 then None
    else
      var rel := ReplaceChar(path[rootLength + 1..], '\\', '/');
      if |rel| < 4 then None else Some(rel[..|rel| - 4])
  }

  /** Tags each line with `origin`. */
  function Tag(origin: string, texts: seq<string>): (r: seq<Line>)
    ensures |r| == |texts|
    ensures forall i :: 0 <= i < |r| ==> r[i] == Line(origin, texts[i])
  {
    if |texts| == 0 then [] else [Line(origin, texts[0])] + Tag(origin, texts[1..])
  }

  /** Trims every line, as the mod branch does before yielding it. */
  function TrimAll(texts: seq<string>): (r: seq<string>)
    ensures |r| == |texts|
    ensures forall i :: 0 <= i < |r| ==> r[i] == Trim(texts[i])
  {
    seq(|texts|, i requires 0 <= i < |texts| => Trim(texts[i]))
  }

  /** Whether an asset map entry is the overlay for the dialog at `rel`. */
  predicate Matches(entry: (string, Asset), rel: string) {
    entry.1.isDialog && EqualsIgnoreCase(entry.0, rel)
  }

  /** Lines of one overlay asset: its trimmed lines under its source's name,
      then the sentinel key line with no source. */
  function AssetLines(a: Asset): (r: seq<Line>)
    ensures |r| == |a.lines| + 1
    ensures r[|r| - 1] == Line("", SentinelLine)
    ensures forall i :: 0 <= i < |a.lines| ==> r[i] == Line(a.sourceName.GetOr(UnknownSource), Trim(a.lines[i]))
  {
    Tag(a.sourceName.GetOr(UnknownSource), TrimAll(a.lines)) + [Line("", SentinelLine)]
  }

  function EntriesLines(entries: seq<(string, Asset)>, rel: string): seq<Line> {
    if |entries| == 0 then []
    else (if Matches(entries[0], rel) then AssetLines(entries[0].1) else [])
         + EntriesLines(entries[1..], rel)
  }

  function ModsLines(mods: seq<ModContent>, rel: string): seq<Line> {
    if |mods| == 0 then [] else EntriesLines(mods[0].entries, rel) + ModsLines(mods[1..], rel)
  }

  /** Whether an asset map holds an overlay for the dialog at `rel`. */
  predicate HasMatch(entries: seq<(string, Asset)>, rel: string) {
    exists e :: 0 <= e < |entries| && Matches(entries[e], rel)
  }

  /** Whether any mod has an overlay for the dialog at `rel`. */
  predicate AnyOverlay(mods: seq<ModContent>, rel: string) {
    exists m :: 0 <= m < |mods| && HasMatch(mods[m].entries, rel)
  }

  /** `_GetLanguageText(path)`. `primary` is the primary file's lines when the
      game's own languages are loaded and the file exists; `origin` is the
      "currently reading from" value before the enumerator starts. */
  function LanguageText(path: string, rootLength: nat, primary: Option<seq<string>>,
                        loadMods: bool, mods: seq<ModContent>, origin: string): Stream
  {
    var head := if primary.Some? then Tag(PrimaryOrigin, primary.value) else [];
    var origin := if primary.Some? then PrimaryOrigin else origin;
    match AssetPath(path, rootLength)
    case None => Stream(head, origin, true)
    case Some(rel) =>
      if primary.None? && |rel| < |DialogPrefix| then Stream(head, origin, true)
      else
        var head := if primary.Some? then head
                    else [Line(origin, "LANGUAGE=" + ToLower(rel[|DialogPrefix|..]))];
        if !loadMods then Stream(head, origin, false)
        else
          var tail := ModsLines(mods, rel);
          Stream(head + tail, if AnyOverlay(mods, rel) then "" else origin, false)
  }

  /** Every overlay contributes its lines and then a sentinel with no source,
      so the lines of distinct assets never run together. */
  lemma {:induction false} ModsLinesEndWithSentinel(mods: seq<ModContent>, rel: string)
    requires AnyOverlay(mods, rel)
    ensures var r := ModsLines(mods, rel); |r| > 0 && r[|r| - 1] == Line("", SentinelLine)
  {
    var r := ModsLines(mods, rel);
    assert r == EntriesLines(mods[0].entries, rel) + ModsLines(mods[1..], rel);
    if AnyOverlay(mods[1..], rel) {
      ModsLinesEndWithSentinel(mods[1..], rel);
    } else {
      OverlaySplit(mods, rel);
      NoOverlayNoLines(mods[1..], rel);
      var e :| 0 <= e < |mods[0].entries| && Matches(mods[0].entries[e], rel);
      EntriesLinesEndWithSentinel(mods[0].entries, rel, e);
    }
  }

  lemma OverlaySplit(mods: seq<ModContent>, rel: string)
    requires AnyOverlay(mods, rel)
    ensures HasMatch(mods[0].entries, rel) || AnyOverlay(mods[1..], rel)
  {
    var m :| 0 <= m < |mods| && HasMatch(mods[m].entries, rel);
    if m > 0 {
      assert mods[1..][m - 1] == mods[m];
    }
  }

  lemma MatchSplit(entries: seq<(string, Asset)>, rel: string, e: nat)
    requires e < |entries| && Matches(entries[e], rel)
    ensures Matches(entries[0], rel) || HasMatch(entries[1..], rel)
  {
    if e > 0 {
      assert entries[1..][e - 1] == entries[e];
    }
  }

  lemma {:induction false} EntriesLinesEndWithSentinel(entries: seq<(string, Asset)>, rel: string, e: nat)
    requires e < |entries| && Matches(entries[e], rel)
    ensures var r := EntriesLines(entries, rel); |r| > 0 && r[|r| - 1] == Line("", SentinelLine)
    decreases |entries|
  {
    var rest := entries[1..];
    var r := EntriesLines(entries, rel);
    var first := if Matches(entries[0], rel) then AssetLines(entries[0].1) else [];
    assert r == first + EntriesLines(rest, rel);
    MatchSplit(entries, rel, e);
    if HasMatch(rest, rel) {
      var f :| 0 <= f < |rest| && Matches(rest[f], rel);
      EntriesLinesEndWithSentinel(rest, rel, f);
    } else {
      EntriesNoMatchNoLines(rest, rel);
    }
  }

  lemma {:induction false} EntriesNoMatchNoLines(entries: seq<(string, Asset)>, rel: string)
    requires !HasMatch(entries, rel)
    ensures EntriesLines(entries, rel) == []
  {
    if |entries| > 0 {
      forall f | 0 <= f < |entries[1..]| ensures !Matches(entries[1..][f], rel) {
        assert entries[1..][f] == entries[f + 1];
      }
      EntriesNoMatchNoLines(entries[1..], rel);
    }
  }

  lemma {:induction false} NoOverlayNoLines(mods: seq<ModContent>, rel: string)
    requires !AnyOverlay(mods, rel)
    ensures ModsLines(mods, rel) == []
  {
    if |mods| > 0 {
      EntriesNoMatchNoLines(mods[0].entries, rel);
      forall m | 0 <= m < |mods[1..]| ensures !HasMatch(mods[1..][m].entries, rel) {
        assert mods[1..][m] == mods[m + 1];
      }
      NoOverlayNoLines(mods[1..], rel);
    }
  }

  /** Without a primary file the enumerator starts with the synthetic
      language line for the lower-cased name below `Dialog/`; the origin in
      force for it is the one the language object already had. */
  lemma SyntheticLanguageLine(path: string, rootLength: nat, loadMods: bool, mods: seq<ModContent>, origin: string, rel: string)
    requires AssetPath(path, rootLength) == Some(rel) && |rel| >= |DialogPrefix|
    ensures var s := LanguageText(path, rootLength, None, loadMods, mods, origin);
            && !s.failed && |s.lines| > 0
            && s.lines[0] == Line(origin, "LANGUAGE=" + ToLower(rel[|DialogPrefix|..]))
            && (!loadMods ==> |s.lines| == 1 && s.finalOrigin == origin)
  {
  }

  /** With mods loaded and at least one overlay, the enumerator ends with a
      sentinel line and leaves "currently reading from" empty. */
  lemma OverlaysEndWithSentinel(path: string, rootLength: nat, primary: Option<seq<string>>,
                                mods: seq<ModContent>, origin: string, rel: string)
    requires AssetPath(path, rootLength) == Some(rel)
    requires primary.Some? || |rel| >= |DialogPrefix|
    requires AnyOverlay(mods, rel)
    ensures var s := LanguageText(path, rootLength, primary, true, mods, origin);
            && !s.failed && |s.lines| > 0
            && s.lines[|s.lines| - 1] == Line("", SentinelLine)
            && s.finalOrigin == ""
  {
    ModsLinesEndWithSentinel(mods, rel);
  }

  /** The primary file's lines come first, untrimmed, all from the game itself. */
  lemma PrimaryLinesFirst(path: string, rootLength: nat, lines: seq<string>, loadMods: bool,
                          mods: seq<ModContent>, origin: string)
    ensures var s := LanguageText(path, rootLength, Some(lines), loadMods, mods, origin);
            && |s.lines| >= |lines|
            && forall i :: 0 <= i < |lines| ==> s.lines[i] == Line(PrimaryOrigin, lines[i])
  {
  }
}
