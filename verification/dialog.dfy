/**
 The dialog compiler `FromTxt`: a line-by-line state machine that builds a
 language's metadata and its dialog dictionary, followed by a pass that
 resolves inserts and a pass that derives the cleaned (command-free) text.
 `_SetItem` is the single write path into the dialog dictionary and keeps
 the per-key conflict bookkeeping.

 Source: Celeste.Mod.mm/Patches/Language.cs.
 */
module Dialog {
  import opened Wrappers
  import opened Text
  import opened Numbers
  import Dict
  import Markup
  import LineSource
  import Paths

  /** A language with the fields the compiler and the cache format touch.
      A null string is the empty string; `labelText` is `Label`; `fontFaceSize` holds the bits of
      the 32-bit float. */
  datatype Language = Language(
    id: string,
    labelText: string,
    iconPath: string,
    order: int32,
    fontFace: string,
    fontFaceSize: uint32,
    splitRegex: string,
    commaCharacters: string,
    periodCharacters: string,
    lines: int32,
    words: int32,
    filePath: string,
    dialog: Dict.Dict<string, string>,
    cleaned: Dict.Dict<string, string>)

  /** One logged conflict: language, key, previous source, current source. */
  datatype Conflict = Conflict(languageId: string, key: string, previous: string, current: string)

  /** The per-key read counts and last sources. */
  datatype Tables = Tables(readCount: map<string, int>, lineSources: map<string, string>)

  /** The language's "currently reading from" field, its conflict tables
      (`None` when they are null, which turns checking off) and the log. */
  datatype Tracker = Tracker(origin: string, tables: Option<Tables>, warnings: seq<Conflict>)

  /** The language under construction together with its bookkeeping. */
  datatype Ctx = Ctx(lang: Language, tracker: Tracker)

  const UnknownPrevious := "?!?!?!"

  // ---------------------------------------------------------------------
  // _SetItem
  // ---------------------------------------------------------------------

  /** Whether a write of `key` takes part in conflict checking: the tables
      exist, the current source is known and the key is not the sentinel. */
  predicate Counted(c: Ctx, key: string) {
    c.tracker.tables.Some? && c.tracker.origin != "" && key != LineSource.Sentinel
  }

  /** Every counted key has a positive count and is in the dictionary. */
  predicate TablesAgree(c: Ctx) {
    c.tracker.tables.Some? ==>
      forall k :: k in c.tracker.tables.value.readCount ==>
        c.tracker.tables.value.readCount[k] >= 1 && k in c.lang.dialog.values
  }

  /** `_SetItem(language.Dialog, key, value, language)`. */
  function SetItem(c: Ctx, key: string, value: string): (r: Ctx)
    ensures r.lang == c.lang.(dialog := Dict.Set(c.lang.dialog, key, value))
    ensures r.tracker.origin == c.tracker.origin
    ensures !Counted(c, key) ==> r.tracker == c.tracker
    ensures Counted(c, key) ==>
              && r.tracker.tables.Some?
              && r.tracker.tables.value.lineSources == c.tracker.tables.value.lineSources[key := c.tracker.origin]
              && r.tracker.tables.value.readCount.Keys == c.tracker.tables.value.readCount.Keys + {key}
    ensures |c.tracker.warnings| <= |r.tracker.warnings| <= |c.tracker.warnings| + 1
    ensures r.tracker.warnings[..|c.tracker.warnings|] == c.tracker.warnings
  {
    var t := c.tracker;
    var lang := c.lang.(dialog := Dict.Set(c.lang.dialog, key, value));
    if !Counted(c, key) then Ctx(lang, t)
    else
      var tb := t.tables.value;
      var base := if key in tb.readCount then tb.readCount[key]
                  else if key in c.lang.dialog.values then 1 else 0;
      var count := base + 1;
      var previous := if key in tb.lineSources then tb.lineSources[key] else UnknownPrevious;
      var tables := Tables(tb.readCount[key := count], tb.lineSources[key := t.origin]);
      var warnings := if count >= 2 then t.warnings + [Conflict(c.lang.id, key, previous, t.origin)]
                      else t.warnings;
      Ctx(lang, Tracker(t.origin, Some(tables), warnings))
  }

  /** While the tables agree with the dictionary, a counted write is logged
      as a conflict exactly when the key is already defined, and the entry
      names the key's previous source and the current one. */
  lemma SetItemConflictIff(c: Ctx, key: string, value: string)
    requires TablesAgree(c) && Counted(c, key)
    ensures var r := SetItem(c, key, value);
            && (|r.tracker.warnings| == |c.tracker.warnings| + 1 <==> key in c.lang.dialog.values)
            && (key in c.lang.dialog.values ==>
                  r.tracker.warnings[|c.tracker.warnings|]
                  == Conflict(c.lang.id, key,
                              Dict.GetOr(Dict.Dict([], c.tracker.tables.value.lineSources), key, UnknownPrevious),
                              c.tracker.origin))
  {
  }

  /** `SetItem` keeps the tables in agreement with the dictionary. */
  lemma SetItemKeepsAgreement(c: Ctx, key: string, value: string)
    requires TablesAgree(c)
    ensures TablesAgree(SetItem(c, key, value))
  {
  }

  /** A key defined from one source and then from another is logged exactly
      once, naming both sources; the later value wins. */
  lemma TwoSourcesOneConflict(c: Ctx, key: string, v1: string, v2: string, a: string, b: string)
    requires c.tracker.tables.Some? && TablesAgree(c)
    requires key != LineSource.Sentinel && key !in c.lang.dialog.values
    requires key !in c.tracker.tables.value.lineSources
    requires a != "" && b != ""
    ensures var c1 := SetItem(c.(tracker := c.tracker.(origin := a)), key, v1);
            var c2 := SetItem(c1.(tracker := c1.tracker.(origin := b)), key, v2);
            && c2.lang.dialog.values[key] == v2
            && c2.tracker.warnings == c.tracker.warnings + [Conflict(c.lang.id, key, a, b)]
  {
    var c0 := c.(tracker := c.tracker.(origin := a));
    SetItemConflictIff(c0, key, v1);
    SetItemKeepsAgreement(c0, key, v1);
    var c1 := SetItem(c0, key, v1);
    var c1b := c1.(tracker := c1.tracker.(origin := b));
    SetItemConflictIff(c1b, key, v2);
  }

  // ---------------------------------------------------------------------
  // Line handling
  // ---------------------------------------------------------------------

  /** `SplitPair(from, sep)`: the text before the first `sep` and the trimmed
      text after it, or the whole input and nothing when `sep` is absent. */
  function SplitPair(from: string, sep: char): (r: (string, string, bool))
    ensures !r.2 <==> sep !in from
    ensures !r.2 ==> r.0 == from && r.1 == ""
    ensures r.2 ==> exists i :: 0 <= i < |from| && from[i] == sep && sep !in from[..i]
                                && r.0 == from[..i] && r.1 == Trim(from[i + 1..])
  {
    match IndexOf(from, sep)
    case None => (from, "", false)
    case Some(i) =>
      var r := (from[..i], Trim(from[i + 1..]), true);
      assert 0 <= i < |from| && from[i] == sep && sep !in from[..i]
             && r.0 == from[..i] && r.1 == Trim(from[i + 1..]);
      r
  }

  /** The split point is the first separator. */
  lemma SplitPairAt(from: string, sep: char, i: nat)
    requires i < |from| && from[i] == sep && sep !in from[..i]
    ensures SplitPair(from, sep) == (from[..i], Trim(from[i + 1..]), true)
  {
    IndexOfFirst(from, sep, i);
  }

  /** The line after trimming, comment skipping, portrait shorthand and `\#`
      unescaping; `None` when the line is skipped. */
  function Preprocess(raw: string): (r: Option<string>)
    ensures r.Some? ==> |r.value| > 0
    ensures |Trim(raw)| == 0 || Trim(raw)[0] == '#' ==> r.None?
  {
    var line := Trim(raw);
    if |line| == 0 || line[0] == '#' then None
    else
      var line := if '[' in line then Markup.PortraitReplace(line) else line;
      var line := Markup.UnescapeHash(line);
      if |line| == 0 then None else Some(line)
  }

  /** A trimmed, non-comment line without `[` or `\` is kept as it is. */
  lemma PreprocessPlain(raw: string)
    requires |raw| > 0 && !IsWhiteSpace(raw[0]) && !IsWhiteSpace(raw[|raw| - 1])
    requires raw[0] != '#' && '[' !in raw && '\\' !in raw
    ensures Preprocess(raw) == Some(raw)
  {
    TrimOfTrimmed(raw);
    Markup.UnescapeHashPlain(raw);
  }

  /** `^\w+\=`: a key line. */
  predicate IsVariableLine(line: string) {
    var n := WordPrefix(line);
    0 < n < |line| && line[n] == '='
  }

  /** The state of `FromTxt` between lines. `bound` says the local language
      reference is set (a `LANGUAGE=` line was seen); `entry` is the text
      accumulated for `nextKey`. */
  datatype Parser = Parser(ctx: Ctx, bound: bool, nextKey: string, entry: string,
                           prevLine: string, lastAdded: string)

  /** What the compiler takes from the machine it runs on: the platform,
      whose path rules name the file, and `float.Parse` under the invariant
      culture (the code passes `CultureInfo.InvariantCulture`), as the
      float's bits. The parser itself is a parameter. */
  datatype Host = Host(platform: Paths.Platform, parseSingle: string -> Option<uint32>)

  /** What each line of one file sees: the file name of its path, which a
      `LANGUAGE=` line records, and the host's float parser. */
  datatype Env = Env(fileName: string, parseSingle: string -> Option<uint32>)

  /** The line environment of the file at `path`: `Path.GetFileName(path)`. */
  function EnvOf(host: Host, path: string): (r: Env)
    ensures r.fileName == Paths.FileName(host.platform, path) && r.parseSingle == host.parseSingle
  {
    Env(Paths.FileName(host.platform, path), host.parseSingle)
  }

  /** Why compilation throws: a null language reference, `int.Parse` or
      `float.Parse` rejecting text, a path too short to slice, or an insert
      whose resolution does not end within the fuel given. */
  datatype Error = NullLanguage | BadInteger(text: string) | BadSingle(text: string)
                 | BadPath | Diverges(key: string)

  function WithOrigin(st: Parser, origin: string): (r: Parser)
    ensures r.ctx.tracker.origin == origin
    ensures r.ctx.lang == st.ctx.lang && r.bound == st.bound && r.nextKey == st.nextKey
    ensures r.entry == st.entry && r.prevLine == st.prevLine && r.lastAdded == st.lastAdded
  {
    st.(ctx := st.ctx.(tracker := st.ctx.tracker.(origin := origin)))
  }

  function WithLang(st: Parser, lang: Language): Parser {
    st.(ctx := st.ctx.(lang := lang))
  }

  /** Ends the open key, if any, by writing its text; the key stays open. */
  function Commit(st: Parser): (r: Result<Parser, Error>)
    ensures r.Failure? <==> st.nextKey != "" && !st.bound
    ensures r.Success? ==> r.value.nextKey == st.nextKey && r.value.entry == st.entry
                           && r.value.bound == st.bound
  {
    if st.nextKey == "" then Success(st)
    else if !st.bound then Failure(NullLanguage)
    else Success(st.(ctx := SetItem(st.ctx, st.nextKey, st.entry)))
  }

  /** What a key line does, by its case-insensitive name. */
  datatype Directive = SetLanguage | SetIcon | SetOrder | SetFont | SetSplitRegex
                     | SetCommas | SetPeriods | OpenKey

  function Classify(cmd: string): Directive {
    if EqualsIgnoreCase(cmd, "language") then SetLanguage
    else if EqualsIgnoreCase(cmd, "icon") then SetIcon
    else if EqualsIgnoreCase(cmd, "order") then SetOrder
    else if EqualsIgnoreCase(cmd, "font") then SetFont
    else if EqualsIgnoreCase(cmd, "SPLIT_REGEX") then SetSplitRegex
    else if EqualsIgnoreCase(cmd, "commas") then SetCommas
    else if EqualsIgnoreCase(cmd, "periods") then SetPeriods
    else OpenKey
  }

  /** The directive names that set language metadata instead of opening a key. */
  predicate IsMetadata(cmd: string) {
    Classify(cmd) != OpenKey
  }

  /** The effect of `cmd=arg` once the previous key has been committed. */
  function Apply(env: Env, st: Parser, cmd: string, arg: string): Result<Parser, Error> {
    var lang := st.ctx.lang;
    match Classify(cmd)
    case SetLanguage =>
      var (id, name, hasLabel) := SplitPair(arg, ',');
      var lang := lang.(fontFace := "", filePath := env.fileName,
                        id := if hasLabel then id else arg,
                        labelText := if hasLabel then name else lang.labelText);
      Success(WithLang(st, lang).(bound := true))
    case SetIcon =>
      if !st.bound then Failure(NullLanguage)
      else Success(WithLang(st, lang.(iconPath := arg)))
    case SetOrder =>
      var n :- Need(ParseInt32(arg), BadInteger(arg));
      if !st.bound then Failure(NullLanguage)
      else Success(WithLang(st, lang.(order := n)))
    case SetFont =>
      var (face, size, hasSize) := SplitPair(arg, ',');
      if !hasSize then Success(st)
      else if !st.bound then Failure(NullLanguage)
      else
        var bits :- Need(env.parseSingle(size), BadSingle(size));
        Success(WithLang(st, lang.(fontFace := face, fontFaceSize := bits)))
    case SetSplitRegex =>
      if !st.bound then Failure(NullLanguage)
      else Success(WithLang(st, lang.(splitRegex := arg)))
    case SetCommas =>
      if !st.bound then Failure(NullLanguage)
      else Success(WithLang(st, lang.(commaCharacters := arg)))
    case SetPeriods =>
      if !st.bound then Failure(NullLanguage)
      else Success(WithLang(st, lang.(periodCharacters := arg)))
    case OpenKey =>
      Success(st.(nextKey := cmd, entry := arg, lastAdded := arg))
  }

  /** Whether a continuation line is preceded by an automatic `{break}`. */
  predicate NeedsBreak(st: Parser) {
    && |st.entry| > 0
    && !EndsWith(st.lastAdded, "{break}")
    && !EndsWith(st.lastAdded, "{n}")
    && !Markup.IsCommandsLine(st.prevLine)
  }

  /** A line that continues the open entry. */
  function Continue(st: Parser, line: string): Parser {
    var st := if NeedsBreak(st) then st.(entry := st.entry + "{break}", lastAdded := "{break}") else st;
    st.(entry := st.entry + line, lastAdded := if |line| > 0 then line else st.lastAdded)
  }

  /** One iteration of the loop in `FromTxt`. */
  function Step(env: Env, st: Parser, line: LineSource.Line): Result<Parser, Error> {
    var st := WithOrigin(st, line.origin);
    match Preprocess(line.text)
    case None => Success(st)
    case Some(l) =>
      if IsVariableLine(l) then KeyLineStep(env, st, l)
      else Success(Continue(st, l).(prevLine := l))
  }

  /** A key line: the open key is written, then the directive takes effect. */
  function KeyLineStep(env: Env, st: Parser, l: string): Result<Parser, Error> {
    var st :- Commit(st);
    var (cmd, arg, _) := SplitPair(l, '=');
    var st :- Apply(env, st, cmd, arg);
    Success(st.(prevLine := l))
  }

  function ParseLines(env: Env, st: Parser, lines: seq<LineSource.Line>): Result<Parser, Error>
    decreases |lines|
  {
    if |lines| == 0 then Success(st)
    else
      var st :- Step(env, st, lines[0]);
      ParseLines(env, st, lines[1..])
  }

  // ---------------------------------------------------------------------
  // After the last line
  // ---------------------------------------------------------------------

  /** The insert pass: each key in order is resolved against the dictionary
      as it stands and written back through `SetItem`. */
  function ResolvePass(c: Ctx, keys: seq<string>, fuel: nat): Result<Ctx, Error>
    decreases |keys|
  {
    if |keys| == 0 then Success(c)
    else
      var key := keys[0];
      var v :- Need(Markup.Resolve(c.lang.dialog.values, Dict.GetOr(c.lang.dialog, key, ""), fuel),
                    Diverges(key));
      ResolvePass(SetItem(c, key, v), keys[1..], fuel)
  }

  /** The cleaning pass: `cleaned[key] := Clean(dialog[key])` for each key in order. */
  function CleanPass(cleaned: Dict.Dict<string, string>, dialog: map<string, string>, keys: seq<string>)
    : (r: Dict.Dict<string, string>)
    ensures Dict.Valid(cleaned) ==> Dict.Valid(r)
    ensures forall k :: k in keys ==> k in r.values && r.values[k] == Markup.Clean(Dict.GetOr(Dict.Dict([], dialog), k, ""))
    ensures forall k :: k !in keys && k in cleaned.values ==> k in r.values && r.values[k] == cleaned.values[k]
    ensures forall k :: k in r.values ==> k in keys || k in cleaned.values
    decreases |keys|
  {
    if |keys| == 0 then cleaned
    else
      var k := keys[0];
      CleanPass(Dict.Set(cleaned, k, Markup.Clean(Dict.GetOr(Dict.Dict([], dialog), k, ""))), dialog, keys[1..])
  }

  /** The code after the loop: the last key is written, the language must
      exist, inserts are resolved, counters reset and cleaned text derived. */
  function Finish(st: Parser, finalOrigin: string, fuel: nat): Result<Ctx, Error> {
    var st := WithOrigin(st, finalOrigin);
    var st :- Commit(st);
    if !st.bound then Failure(NullLanguage)
    else
      var keys := st.ctx.lang.dialog.keys;
      var c :- ResolvePass(st.ctx, keys, fuel);
      var lang := c.lang.(lines := 0, words := 0);
      Success(c.(lang := lang.(cleaned := CleanPass(lang.cleaned, lang.dialog.values, keys))))
  }

  /** The state before the first line: the language reference is null. */
  function Start(loading: Ctx): Parser {
    Parser(loading, false, "", "", "", "")
  }

  /** `FromTxt(path)`. `loading` is the shared loading language with its
      bookkeeping; the remaining inputs are those of the line multiplexer.
      Lines are handled as they are produced, so an error in them wins over
      the multiplexer's own failure. */
  function FromTxt(host: Host, loading: Ctx, path: string, rootLength: nat,
                   primary: Option<seq<string>>, loadMods: bool,
                   mods: seq<LineSource.ModContent>, fuel: nat): Result<Ctx, Error>
  {
    var s := LineSource.LanguageText(path, rootLength, primary, loadMods, mods, loading.tracker.origin);
    var st :- ParseLines(EnvOf(host, path), Start(loading), s.lines);
    if s.failed then Failure(BadPath) else Finish(st, s.finalOrigin, fuel)
  }

  // ---------------------------------------------------------------------
  // Properties of the line loop
  // ---------------------------------------------------------------------

  /** Blank lines and comments change nothing but the current source. */
  lemma StepSkipsBlankAndComments(env: Env, st: Parser, line: LineSource.Line)
    requires |Trim(line.text)| == 0 || Trim(line.text)[0] == '#'
    ensures Step(env, st, line) == Success(WithOrigin(st, line.origin))
  {
  }

  /** A continuation line is appended to the open entry, preceded by an
      automatic `{break}` exactly when `NeedsBreak` holds; the key and the
      language are untouched. */
  lemma StepContinuation(env: Env, st: Parser, line: LineSource.Line, l: string)
    requires Preprocess(line.text) == Some(l) && !IsVariableLine(l)
    ensures Step(env, st, line).Success?
    ensures var r := Step(env, st, line).value;
            && r.entry == st.entry + (if NeedsBreak(st) then "{break}" else "") + l
            && r.nextKey == st.nextKey && r.bound == st.bound && r.ctx.lang == st.ctx.lang
            && r.prevLine == l && r.lastAdded == l
  {
    StepOtherLine(env, st, line, l);
    ContinueAppends(WithOrigin(st, line.origin), l);
  }

  /** `Continue` appends the line, after a `{break}` when one is needed. */
  lemma ContinueAppends(st: Parser, l: string)
    requires |l| > 0
    ensures var r := Continue(st, l);
            && r.entry == st.entry + (if NeedsBreak(st) then "{break}" else "") + l
            && r.nextKey == st.nextKey && r.bound == st.bound && r.ctx == st.ctx
            && r.prevLine == st.prevLine && r.lastAdded == l
  {
    if !NeedsBreak(st) {
      assert st.entry + "" == st.entry;
    }
  }

  /** A key line writes the open entry (if any) and opens the new key with
      the trimmed text after the first `=`. */
  lemma StepOpensKey(env: Env, st: Parser, line: LineSource.Line, l: string)
    requires Preprocess(line.text) == Some(l) && IsVariableLine(l)
    requires !IsMetadata(SplitPair(l, '=').0)
    requires st.nextKey == "" || st.bound
    ensures Step(env, st, line).Success?
    ensures var r := Step(env, st, line).value;
            var (cmd, arg, _) := SplitPair(l, '=');
            && r.nextKey == cmd && r.entry == arg && r.lastAdded == arg && r.prevLine == l
            && r.bound == st.bound
            && r.ctx.lang == st.ctx.lang.(dialog := if st.nextKey == "" then st.ctx.lang.dialog
                                                    else Dict.Set(st.ctx.lang.dialog, st.nextKey, st.entry))
            && r.ctx.tracker == (var c := WithOrigin(st, line.origin).ctx;
                                 if st.nextKey == "" then c.tracker else SetItem(c, st.nextKey, st.entry).tracker)
  {
    StepKeyLine(env, st, line, l);
    var st0 := WithOrigin(st, line.origin);
    var st1 := if st.nextKey == "" then st0 else st0.(ctx := SetItem(st0.ctx, st.nextKey, st.entry));
    assert Commit(st0) == Success(st1);
    KeyLineOpens(env, st0, l, st1);
  }

  /** A key line naming no directive commits and then opens its key. */
  lemma KeyLineOpens(env: Env, st: Parser, l: string, committed: Parser)
    requires Commit(st) == Success(committed)
    requires !IsMetadata(SplitPair(l, '=').0)
    ensures var (cmd, arg, _) := SplitPair(l, '=');
            KeyLineStep(env, st, l) == Success(committed.(nextKey := cmd, entry := arg, lastAdded := arg, prevLine := l))
  {
    var (cmd, arg, _) := SplitPair(l, '=');
    assert Classify(cmd) == OpenKey;
    assert Apply(env, committed, cmd, arg) == Success(committed.(nextKey := cmd, entry := arg, lastAdded := arg));
  }

  /** A key line before any `LANGUAGE=` line fails once a key is open, since
      writing it dereferences the null language. */
  lemma StepUnboundCommitFails(env: Env, st: Parser, line: LineSource.Line, l: string)
    requires Preprocess(line.text) == Some(l) && IsVariableLine(l)
    requires st.nextKey != "" && !st.bound
    ensures Step(env, st, line) == Failure(NullLanguage)
  {
  }

  /** Metadata directives leave the open key and its text alone. */
  lemma ApplyMetadataKeepsKey(env: Env, st: Parser, cmd: string, arg: string)
    requires IsMetadata(cmd) && Apply(env, st, cmd, arg).Success?
    ensures var r := Apply(env, st, cmd, arg).value;
            r.nextKey == st.nextKey && r.entry == st.entry && r.ctx.lang.dialog == st.ctx.lang.dialog
  {
  }

  /** A metadata line writes the open entry but leaves the key open with the
      same text, so the next key line writes it again and continuation lines
      still extend it. */
  lemma StepMetadataKeepsKeyOpen(env: Env, st: Parser, line: LineSource.Line, l: string)
    requires Preprocess(line.text) == Some(l) && IsVariableLine(l)
    requires IsMetadata(SplitPair(l, '=').0)
    requires Step(env, st, line).Success?
    ensures var r := Step(env, st, line).value;
            && r.nextKey == st.nextKey && r.entry == st.entry && r.prevLine == l
            && (st.nextKey != "" ==>
                  st.nextKey in r.ctx.lang.dialog.values && r.ctx.lang.dialog.values[st.nextKey] == st.entry)
  {
    var st0 := WithOrigin(st, line.origin);
    var st1 := Commit(st0).value;
    var (cmd, arg, _) := SplitPair(l, '=');
    assert Step(env, st, line) == Apply(env, st1, cmd, arg).(value := Apply(env, st1, cmd, arg).value.(prevLine := l));
    ApplyMetadataKeepsKey(env, st1, cmd, arg);
  }

  /** A `LANGUAGE=id,label` line binds the language and sets its identity. */
  lemma StepLanguage(env: Env, st: Parser, line: LineSource.Line, l: string)
    requires Preprocess(line.text) == Some(l) && IsVariableLine(l)
    requires Classify(SplitPair(l, '=').0) == SetLanguage
    requires st.nextKey == "" || st.bound
    ensures Step(env, st, line).Success?
    ensures var r := Step(env, st, line).value;
            var arg := SplitPair(l, '=').1;
            var (id, name, hasLabel) := SplitPair(arg, ',');
            && r.bound
            && r.ctx.lang.id == (if hasLabel then id else arg)
            && r.ctx.lang.labelText == (if hasLabel then name else st.ctx.lang.labelText)
            && r.ctx.lang.fontFace == "" && r.ctx.lang.filePath == env.fileName
            && r.nextKey == st.nextKey && r.entry == st.entry && r.prevLine == l
            && r.lastAdded == st.lastAdded
            && (st.nextKey == "" ==>
                  r.ctx == Ctx(st.ctx.lang.(id := r.ctx.lang.id, labelText := r.ctx.lang.labelText,
                                            fontFace := "", filePath := env.fileName),
                               WithOrigin(st, line.origin).ctx.tracker))
  {
  }

  /** `order=n` with `n` printed in decimal sets the order to `n`. */
  lemma ApplyOrderParses(env: Env, st: Parser, cmd: string, n: int32)
    requires Classify(cmd) == SetOrder && st.bound
    ensures Apply(env, st, cmd, Int32ToString(n)) == Success(WithLang(st, st.ctx.lang.(order := n)))
  {
    ParseInt32RoundTrip(n);
  }

  /** An `order` argument without a decimal digit throws before anything is
      set, whether or not a language is bound. */
  lemma ApplyOrderRejects(env: Env, st: Parser, cmd: string, arg: string)
    requires Classify(cmd) == SetOrder
    requires forall i :: 0 <= i < |arg| ==> !IsDigit(arg[i])
    ensures Apply(env, st, cmd, arg) == Failure(BadInteger(arg))
  {
    ParseInt32Rejects(arg);
  }

  /** `font=face` without a comma changes nothing, not even on an unbound
      language; with a comma it sets the face and the parsed size. */
  lemma ApplyFont(env: Env, st: Parser, cmd: string, arg: string)
    requires Classify(cmd) == SetFont
    ensures ',' !in arg ==> Apply(env, st, cmd, arg) == Success(st)
    ensures var (face, size, hasSize) := SplitPair(arg, ',');
            hasSize && st.bound && env.parseSingle(size).Some? ==>
              Apply(env, st, cmd, arg)
              == Success(WithLang(st, st.ctx.lang.(fontFace := face, fontFaceSize := env.parseSingle(size).value)))
  {
  }

  lemma SentinelPreprocess()
    ensures Preprocess(LineSource.SentinelLine) == Some(LineSource.SentinelLine)
  {
    SentinelPlain();
    PreprocessPlain(LineSource.SentinelLine);
  }

  lemma SentinelPlain()
    ensures var s := LineSource.SentinelLine;
            && |s| > 0 && !IsWhiteSpace(s[0]) && !IsWhiteSpace(s[|s| - 1])
            && s[0] != '#' && '[' !in s && '\\' !in s
  {
  }

  lemma SentinelIsVariableLine()
    ensures IsVariableLine(LineSource.SentinelLine)
  {
    var s := LineSource.SentinelLine;
    forall m | 0 <= m < 27 ensures IsWordChar(s[m]) { }
    WordPrefixAt(s, 27);
  }

  lemma SentinelSplit()
    ensures SplitPair(LineSource.SentinelLine, '=') == (LineSource.Sentinel, LineSource.SentinelValue, true)
  {
    assert '=' !in LineSource.Sentinel;
    SplitKeyLine(LineSource.Sentinel, LineSource.SentinelValue);
  }

  /** `key= value` splits into the key and the value. */
  lemma SplitKeyLine(key: string, value: string)
    requires '=' !in key
    requires |value| > 0 && !IsWhiteSpace(value[0]) && !IsWhiteSpace(value[|value| - 1])
    ensures SplitPair(key + "= " + value, '=') == (key, value, true)
  {
    var rest := " " + value;
    var s := key + "= " + value;
    assert s == key + ['='] + rest;
    assert s[..|key|] == key;
    SplitPairAt(s, '=', |key|);
    assert s[|key| + 1..] == rest;
    TrimLeadingSpace(value);
  }

  /** One leading space does not survive trimming. */
  lemma TrimLeadingSpace(t: string)
    requires |t| > 0 && !IsWhiteSpace(t[0]) && !IsWhiteSpace(t[|t| - 1])
    ensures Trim(" " + t) == t
  {
    var s := " " + t;
    assert s[1..] == t;
    assert LeadingWhiteSpace(s) == 1;
    assert s[1..] == t;
    TrimOfTrimmed(t);
    assert TrailingWhiteSpace(t) == 0;
  }

  /** A key line read while no source is current writes the open entry
      without touching the conflict tables or the log. Every overlay ends
      with such a line, the sentinel, so the last key of every overlay
      escapes conflict checking. */
  lemma UncountedKeyLine(env: Env, st: Parser, line: LineSource.Line, l: string)
    requires line.origin == ""
    requires Preprocess(line.text) == Some(l) && IsVariableLine(l)
    requires !IsMetadata(SplitPair(l, '=').0)
    requires st.bound && st.nextKey != ""
    ensures Step(env, st, line).Success?
    ensures var r := Step(env, st, line).value;
            && r.ctx.lang.dialog == Dict.Set(st.ctx.lang.dialog, st.nextKey, st.entry)
            && r.ctx.tracker.tables == st.ctx.tracker.tables
            && r.ctx.tracker.warnings == st.ctx.tracker.warnings
            && r.nextKey == SplitPair(l, '=').0
  {
    StepOpensKey(env, st, line, l);
    assert !Counted(WithOrigin(st, "").ctx, st.nextKey);
  }

  // ---------------------------------------------------------------------
  // Properties of the passes after the loop
  // ---------------------------------------------------------------------

  /** The insert pass writes only keys that exist, so the key order and the
      key set stay as they were and nothing but the dictionary changes. */
  lemma {:induction false} ResolvePassKeepsKeys(c: Ctx, keys: seq<string>, fuel: nat)
    requires forall k :: k in keys ==> k in c.lang.dialog.values
    requires ResolvePass(c, keys, fuel).Success?
    ensures var r := ResolvePass(c, keys, fuel).value;
            && r.lang.dialog.keys == c.lang.dialog.keys
            && r.lang.dialog.values.Keys == c.lang.dialog.values.Keys
            && r.lang.(dialog := c.lang.dialog) == c.lang
            && r.tracker.origin == c.tracker.origin
    decreases |keys|
  {
    if |keys| > 0 {
      var key := keys[0];
      var v := Markup.Resolve(c.lang.dialog.values, Dict.GetOr(c.lang.dialog, key, ""), fuel).value;
      ResolvePassKeepsKeys(SetItem(c, key, v), keys[1..], fuel);
    }
  }

  /** A dictionary without inserts comes through the insert pass unchanged. */
  lemma {:induction false} ResolvePassPlain(c: Ctx, keys: seq<string>, fuel: nat)
    requires forall k :: k in keys ==> k in c.lang.dialog.values
    requires forall k :: k in c.lang.dialog.values ==> Markup.NoInsertFrom(c.lang.dialog.values[k], 0)
    ensures ResolvePass(c, keys, fuel).Success?
    ensures ResolvePass(c, keys, fuel).value.lang == c.lang
    decreases |keys|
  {
    if |keys| > 0 {
      var key := keys[0];
      var s := c.lang.dialog.values[key];
      Markup.ResolveFromPlain(c.lang.dialog.values, s, 0, fuel);
      assert s[0..] == s;
      var c1 := SetItem(c, key, s);
      assert c1.lang.dialog.values == c.lang.dialog.values;
      assert c1.lang == c.lang;
      ResolvePassPlain(c1, keys[1..], fuel);
    }
  }

  /** With a known source and conflict tables in agreement, the insert pass
      logs one conflict for every key it rewrites: each key is already
      defined when it is written back. */
  lemma {:induction false} ResolvePassLogsEveryKey(c: Ctx, keys: seq<string>, fuel: nat)
    requires TablesAgree(c) && c.tracker.tables.Some? && c.tracker.origin != ""
    requires forall k :: k in keys ==> k in c.lang.dialog.values && k != LineSource.Sentinel
    requires ResolvePass(c, keys, fuel).Success?
    ensures |ResolvePass(c, keys, fuel).value.tracker.warnings| == |c.tracker.warnings| + |keys|
    decreases |keys|
  {
    if |keys| > 0 {
      var key := keys[0];
      var v := Markup.Resolve(c.lang.dialog.values, Dict.GetOr(c.lang.dialog, key, ""), fuel).value;
      SetItemConflictIff(c, key, v);
      SetItemKeepsAgreement(c, key, v);
      var c1 := SetItem(c, key, v);
      assert forall k :: k in keys[1..] ==> k in keys;
      ResolvePassLogsEveryKey(c1, keys[1..], fuel);
    }
  }

  /** After a successful finish every key has its cleaned text and the
      counters are reset. */
  lemma FinishCleansEveryKey(st: Parser, origin: string, fuel: nat)
    requires Dict.Valid(st.ctx.lang.dialog)
    requires Finish(st, origin, fuel).Success?
    ensures var c := Finish(st, origin, fuel).value;
            && c.lang.lines == 0 && c.lang.words == 0
            && (forall k :: k in c.lang.dialog.values ==>
                  k in c.lang.cleaned.values && c.lang.cleaned.values[k] == Markup.Clean(c.lang.dialog.values[k]))
  {
    var st1 := Commit(WithOrigin(st, origin)).value;
    var keys := st1.ctx.lang.dialog.keys;
    assert Dict.Valid(st1.ctx.lang.dialog);
    ResolvePassKeepsKeys(st1.ctx, keys, fuel);
  }

  /** After a successful finish the last open key holds its accumulated
      text, unless an insert rewrote it. */
  lemma FinishWritesLastKey(st: Parser, origin: string, fuel: nat)
    requires st.nextKey != "" && st.bound
    requires forall k :: k in st.ctx.lang.dialog.values ==> Markup.NoInsertFrom(st.ctx.lang.dialog.values[k], 0)
    requires Markup.NoInsertFrom(st.entry, 0)
    requires Dict.Valid(st.ctx.lang.dialog)
    ensures Finish(st, origin, fuel).Success?
    ensures var c := Finish(st, origin, fuel).value;
            && c.lang.dialog.values == st.ctx.lang.dialog.values[st.nextKey := st.entry]
            && c.lang.cleaned.values[st.nextKey] == Markup.Clean(st.entry)
  {
    var st1 := Commit(WithOrigin(st, origin)).value;
    var keys := st1.ctx.lang.dialog.keys;
    assert Dict.Valid(st1.ctx.lang.dialog);
    ResolvePassPlain(st1.ctx, keys, fuel);
    FinishCleansEveryKey(st, origin, fuel);
  }

  // ---------------------------------------------------------------------
  // Whole files
  // ---------------------------------------------------------------------

  predicate IsWord(t: string) {
    |t| > 0 && forall i :: 0 <= i < |t| ==> IsWordChar(t[i])
  }

  /** Text the line loop keeps as it is and that holds no markup: trimmed,
      not a comment, and free of `[`, `\`, `{`, `}` and `=`. */
  predicate PlainText(t: string) {
    && |t| > 0 && !IsWhiteSpace(t[0]) && !IsWhiteSpace(t[|t| - 1]) && t[0] != '#'
    && forall i :: 0 <= i < |t| ==> t[i] != '[' && t[i] != '\\' && t[i] != '{' && t[i] != '}' && t[i] != '='
  }

  lemma WordIsPlain(t: string)
    requires IsWord(t)
    ensures PlainText(t)
  {
  }

  /** A plain line that is not a key line continues the open entry. */
  lemma PlainLineContinues(t: string)
    requires PlainText(t)
    ensures Preprocess(t) == Some(t) && !IsVariableLine(t)
  {
    PreprocessPlain(t);
  }

  /** `key=value` with a word key and plain value is kept as it is, is a key
      line, and splits into the key and the value. */
  lemma KeyLine(key: string, value: string)
    requires IsWord(key) && PlainText(value)
    ensures var l := key + "=" + value;
            && Preprocess(l) == Some(l) && IsVariableLine(l)
            && SplitPair(l, '=') == (key, value, true)
  {
    var l := key + "=" + value;
    KeyLineShape(key, value);
    assert Preprocess(l) == Some(l) by {
      PreprocessPlain(l);
    }
    assert IsVariableLine(l) by {
      WordPrefixAt(l, |key|);
    }
    assert SplitPair(l, '=') == (key, value, true) by {
      SplitPairAt(l, '=', |key|);
      TrimOfTrimmed(value);
    }
  }

  /** Where the key, the `=` and the value of `key=value` sit. */
  lemma KeyLineShape(key: string, value: string)
    requires IsWord(key) && PlainText(value)
    ensures var l := key + "=" + value;
            && |l| > 0 && !IsWhiteSpace(l[0]) && !IsWhiteSpace(l[|l| - 1])
            && l[0] != '#' && '[' !in l && '\\' !in l
            && l[|key|] == '=' && '=' !in l[..|key|]
            && (forall m :: 0 <= m < |key| ==> IsWordChar(l[m]))
            && l[..|key|] == key && l[|key| + 1..] == value
  {
    var l := key + "=" + value;
    assert forall m :: 0 <= m < |key| ==> l[m] == key[m];
    assert forall m :: |key| < m < |l| ==> l[m] == value[m - |key| - 1];
    assert l[..|key|] == key && l[|key| + 1..] == value;
  }

  /** A word has no comma, so `LANGUAGE=word` sets only the id. */
  lemma NoComma(t: string)
    requires IsWord(t)
    ensures SplitPair(t, ',') == (t, "", false)
  {
    assert !IsWordChar(',');
    assert ',' !in t;
    var r := SplitPair(t, ',');
    assert r.0 == t && r.1 == "" && !r.2;
  }

  lemma LanguageIsWord()
    ensures IsWord("LANGUAGE") && Classify("LANGUAGE") == SetLanguage
  {
    assert EqualsIgnoreCase("LANGUAGE", "language");
  }

  /** A key line goes through `KeyLineStep`. */
  lemma StepKeyLine(env: Env, st: Parser, line: LineSource.Line, l: string)
    requires Preprocess(line.text) == Some(l) && IsVariableLine(l)
    ensures Step(env, st, line) == KeyLineStep(env, WithOrigin(st, line.origin), l)
  {
  }

  /** Any other kept line goes through `Continue`. */
  lemma StepOtherLine(env: Env, st: Parser, line: LineSource.Line, l: string)
    requires Preprocess(line.text) == Some(l) && !IsVariableLine(l)
    ensures Step(env, st, line) == Success(Continue(WithOrigin(st, line.origin), l).(prevLine := l))
  {
  }

  lemma KeyLineStepOf(env: Env, st: Parser, l: string, cmd: string, arg: string, r: Parser)
    requires st.nextKey == "" && SplitPair(l, '=') == (cmd, arg, true)
    requires Apply(env, st, cmd, arg) == Success(r)
    ensures KeyLineStep(env, st, l) == Success(r.(prevLine := l))
  {
  }

  lemma ParseLinesCons(env: Env, st: Parser, lines: seq<LineSource.Line>)
    requires |lines| > 0 && Step(env, st, lines[0]).Success?
    ensures ParseLines(env, st, lines) == ParseLines(env, Step(env, st, lines[0]).value, lines[1..])
  {
  }

  lemma LanguageStep(env: Env, loading: Ctx, line: LineSource.Line, kw: string, id: string)
    requires IsWord(kw) && Classify(kw) == SetLanguage
    requires IsWord(id) && line.text == kw + "=" + id
    ensures Step(env, Start(loading), line)
            == Success(Parser(Ctx(loading.lang.(id := id, fontFace := "", filePath := env.fileName),
                                  loading.tracker.(origin := line.origin)),
                              true, "", "", line.text, ""))
  {
    var l := line.text;
    WordIsPlain(id);
    KeyLine(kw, id);
    NoComma(id);
    var st0 := WithOrigin(Start(loading), line.origin);
    var lang := loading.lang.(id := id, fontFace := "", filePath := env.fileName);
    var r := WithLang(st0, lang).(bound := true);
    assert Apply(env, st0, kw, id) == Success(r);
    KeyLineStepOf(env, st0, l, kw, id, r);
    StepKeyLine(env, Start(loading), line, l);
  }

  lemma OpenKeyStep(env: Env, st: Parser, line: LineSource.Line, key: string, a: string)
    requires IsWord(key) && !IsMetadata(key) && PlainText(a) && line.text == key + "=" + a
    requires st.nextKey == ""
    ensures Step(env, st, line)
            == Success(WithOrigin(st, line.origin).(nextKey := key, entry := a, lastAdded := a, prevLine := line.text))
  {
    KeyLine(key, a);
    StepOpensKey(env, st, line, line.text);
  }

  lemma ContinueStep(env: Env, st: Parser, line: LineSource.Line, key: string, a: string, b: string)
    requires IsWord(key) && PlainText(a) && PlainText(b) && line.text == b
    requires st.entry == a && st.lastAdded == a && st.prevLine == key + "=" + a
    ensures Step(env, st, line)
            == Success(WithOrigin(st, line.origin).(entry := a + "{break}" + b, lastAdded := b, prevLine := b))
  {
    var l2 := key + "=" + a;
    assert !Markup.IsCommandsLine(l2) by {
      assert l2[0] == key[0];
      assert l2[|l2| - 1] == a[|a| - 1];
    }
    assert !EndsWith(a, "{break}") && !EndsWith(a, "{n}") by {
      assert a[|a| - 1] != '}';
    }
    assert NeedsBreak(st);
    PlainLineContinues(b);
    StepContinuation(env, st, line, b);
  }

  /** The lines `LANGUAGE=id`, `key=a`, `b` leave `key` open with the text
      `a{break}b`: the continuation line is joined with an automatic break. */
  lemma ParseContinuedEntry(env: Env, loading: Ctx, origin: string, kw: string, id: string, key: string, a: string, b: string)
    requires IsWord(kw) && Classify(kw) == SetLanguage
    requires IsWord(id) && IsWord(key) && !IsMetadata(key)
    requires PlainText(a) && PlainText(b)
    ensures var lines := LineSource.Tag(origin, [kw + "=" + id, key + "=" + a, b]);
            var r := ParseLines(env, Start(loading), lines);
            && r.Success?
            && r.value.bound && r.value.nextKey == key && r.value.entry == a + "{break}" + b
            && r.value.ctx.lang == loading.lang.(id := id, fontFace := "", filePath := env.fileName)
            && r.value.ctx.tracker == loading.tracker.(origin := origin)
  {
    var lines := LineSource.Tag(origin, [kw + "=" + id, key + "=" + a, b]);
    var st0 := Start(loading);
    LanguageStep(env, loading, lines[0], kw, id);
    var st1 := Step(env, st0, lines[0]).value;
    OpenKeyStep(env, st1, lines[1], key, a);
    var st2 := Step(env, st1, lines[1]).value;
    ContinueStep(env, st2, lines[2], key, a, b);
    var st3 := Step(env, st2, lines[2]).value;
    ParseLinesCons(env, st0, lines);
    ParseLinesCons(env, st1, lines[1..]);
    ParseLinesCons(env, st2, lines[2..]);
    assert lines[1..][1..] == lines[2..];
    assert lines[2..][1..] == [];
  }

  /** Finishing a file whose only entry is `a{break}b`, read from a known
      source with fresh conflict tables: the entry is stored as it is, its
      cleaned text has a line feed for the break, and the insert pass logs
      the key as a conflict with its own source. */
  lemma FinishContinuedEntry(st: Parser, origin: string, fuel: nat, a: string, b: string)
    requires st.bound && st.nextKey != "" && st.nextKey != LineSource.Sentinel
    requires st.entry == a + "{break}" + b
    requires '{' !in a && '}' !in a && '{' !in b && '}' !in b
    requires st.ctx.lang.dialog == Dict.Empty()
    requires st.ctx.tracker.tables == Some(Tables(map[], map[])) && origin != ""
    ensures Finish(st, origin, fuel).Success?
    ensures var c := Finish(st, origin, fuel).value;
            && c.lang.id == st.ctx.lang.id
            && c.lang.dialog.keys == [st.nextKey]
            && c.lang.dialog.values == map[st.nextKey := st.entry]
            && st.nextKey in c.lang.cleaned.values && c.lang.cleaned.values[st.nextKey] == a + "\n" + b
            && c.tracker.warnings == st.ctx.tracker.warnings + [Conflict(st.ctx.lang.id, st.nextKey, origin, origin)]
  {
    var key := st.nextKey;
    Markup.BreakJoinHasNoInsert(a, b);
    Markup.CleanBreakJoin(a, b);
    FinishWritesLastKey(st, origin, fuel);
    var c0 := WithOrigin(st, origin).ctx;
    assert Commit(WithOrigin(st, origin)) == Success(WithOrigin(st, origin).(ctx := SetItem(c0, key, st.entry)));
    FirstKeyResolved(c0, key, st.entry, fuel);
    var st1 := Commit(WithOrigin(st, origin)).value;
    ResolvePassKeepsKeys(st1.ctx, st1.ctx.lang.dialog.keys, fuel);
  }

  /** A first write of a key without inserts, then the insert pass over it:
      the rewrite counts as the key's second definition. */
  lemma FirstKeyResolved(c: Ctx, key: string, v: string, fuel: nat)
    requires c.lang.dialog == Dict.Empty() && c.tracker.tables == Some(Tables(map[], map[]))
    requires Counted(c, key) && Markup.NoInsertFrom(v, 0)
    ensures var c1 := SetItem(c, key, v);
            && c1.lang.dialog.keys == [key]
            && ResolvePass(c1, [key], fuel) == Success(SetItem(c1, key, v))
            && c1.tracker.warnings == c.tracker.warnings
            && SetItem(c1, key, v).tracker.warnings
               == c.tracker.warnings + [Conflict(c.lang.id, key, c.tracker.origin, c.tracker.origin)]
  {
    var c1 := SetItem(c, key, v);
    Markup.ResolveFromPlain(c1.lang.dialog.values, v, 0, fuel);
    assert v[0..] == v;
    SetItemConflictIff(c1, key, v);
  }

  /** The game's own file `LANGUAGE=id`, `key=a`, `b`, with mods not loaded
      and fresh conflict tables, compiles to the language `id` with the one
      entry `a{break}b`, whose cleaned text is `a`, a line feed, then `b`.
      The insert pass rewrites the key from the same source and so logs it
      as a conflict with itself. */
  lemma CompileContinuedEntry(host: Host, loading: Ctx, path: string, rootLength: nat,
                              mods: seq<LineSource.ModContent>, fuel: nat,
                              texts: seq<string>, kw: string, id: string, key: string, a: string, b: string)
    requires LineSource.AssetPath(path, rootLength).Some?
    requires IsWord(id) && IsWord(key) && !IsMetadata(key) && key != LineSource.Sentinel
    requires PlainText(a) && PlainText(b)
    requires IsWord(kw) && Classify(kw) == SetLanguage
    requires texts == [kw + "=" + id, key + "=" + a, b]
    requires loading.lang.dialog == Dict.Empty() && loading.tracker.tables == Some(Tables(map[], map[]))
    ensures var r := FromTxt(host, loading, path, rootLength, Some(texts), false, mods, fuel);
            && r.Success?
            && r.value.lang.id == id
            && r.value.lang.dialog.keys == [key]
            && r.value.lang.dialog.values == map[key := a + "{break}" + b]
            && key in r.value.lang.cleaned.values && r.value.lang.cleaned.values[key] == a + "\n" + b
            && r.value.tracker.warnings
               == loading.tracker.warnings + [Conflict(id, key, LineSource.PrimaryOrigin, LineSource.PrimaryOrigin)]
  {
    var env := EnvOf(host, path);
    var lines := LineSource.Tag(LineSource.PrimaryOrigin, texts);
    ParseContinuedEntry(env, loading, LineSource.PrimaryOrigin, kw, id, key, a, b);
    var st := ParseLines(env, Start(loading), lines).value;
    assert '{' !in a && '}' !in a && '{' !in b && '}' !in b;
    FinishContinuedEntry(st, LineSource.PrimaryOrigin, fuel, a, b);
    FromTxtPrimaryOnly(host, loading, path, rootLength, mods, fuel, texts, st);
  }

  /** With mods not loaded, a game file is parsed with every line from the
      game itself, and the same source is in force when the file ends. */
  lemma FromTxtPrimaryOnly(host: Host, loading: Ctx, path: string, rootLength: nat,
                           mods: seq<LineSource.ModContent>, fuel: nat, texts: seq<string>, st: Parser)
    requires LineSource.AssetPath(path, rootLength).Some?
    requires ParseLines(EnvOf(host, path), Start(loading), LineSource.Tag(LineSource.PrimaryOrigin, texts)) == Success(st)
    ensures FromTxt(host, loading, path, rootLength, Some(texts), false, mods, fuel)
            == Finish(st, LineSource.PrimaryOrigin, fuel)
  {
    var s := LineSource.LanguageText(path, rootLength, Some(texts), false, mods, loading.tracker.origin);
    assert s == LineSource.Stream(LineSource.Tag(LineSource.PrimaryOrigin, texts), LineSource.PrimaryOrigin, false);
  }

  /** A language with no game file and mods not loaded: the synthetic
      `LANGUAGE=` line names it after its file below `Dialog/`, lower-cased,
      and nothing else changes but the metadata that line sets. */
  lemma CompileWithoutGameFile(host: Host, loading: Ctx, path: string, rootLength: nat,
                               mods: seq<LineSource.ModContent>, fuel: nat, rel: string)
    requires LineSource.AssetPath(path, rootLength) == Some(rel) && |rel| >= |LineSource.DialogPrefix|
    requires IsWord(ToLower(rel[|LineSource.DialogPrefix|..]))
    requires loading.lang.dialog == Dict.Empty()
    ensures var r := FromTxt(host, loading, path, rootLength, None, false, mods, fuel);
            && r.Success?
            && r.value.lang == loading.lang.(id := ToLower(rel[|LineSource.DialogPrefix|..]), fontFace := "",
                                             filePath := Paths.FileName(host.platform, path), lines := 0, words := 0)
            && r.value.tracker == loading.tracker
  {
    var env := EnvOf(host, path);
    var name := ToLower(rel[|LineSource.DialogPrefix|..]);
    var origin := loading.tracker.origin;
    var s := LineSource.LanguageText(path, rootLength, None, false, mods, origin);
    LineSource.SyntheticLanguageLine(path, rootLength, false, mods, origin, rel);
    assert s.lines == [LineSource.Line(origin, "LANGUAGE=" + name)];
    var st := SyntheticParse(env, loading, origin, name);
    FromTxtOf(host, loading, path, rootLength, None, false, mods, fuel, st);
    FinishWithoutKeys(st, origin, fuel);
  }

  /** The synthetic line alone binds a language named `name`. */
  lemma SyntheticParse(env: Env, loading: Ctx, origin: string, name: string) returns (st: Parser)
    requires IsWord(name)
    ensures ParseLines(env, Start(loading), [LineSource.Line(origin, "LANGUAGE=" + name)]) == Success(st)
    ensures st.bound && st.nextKey == ""
    ensures st.ctx == Ctx(loading.lang.(id := name, fontFace := "", filePath := env.fileName),
                          loading.tracker.(origin := origin))
  {
    var lines := [LineSource.Line(origin, "LANGUAGE=" + name)];
    LanguageIsWord();
    LanguageStep(env, loading, lines[0], "LANGUAGE", name);
    st := Step(env, Start(loading), lines[0]).value;
    ParseLinesCons(env, Start(loading), lines);
    assert lines[1..] == [];
  }

  /** `FromTxt` once its lines have parsed and the path was usable. */
  lemma FromTxtOf(host: Host, loading: Ctx, path: string, rootLength: nat,
                  primary: Option<seq<string>>, loadMods: bool,
                  mods: seq<LineSource.ModContent>, fuel: nat, st: Parser)
    requires var s := LineSource.LanguageText(path, rootLength, primary, loadMods, mods, loading.tracker.origin);
             !s.failed && ParseLines(EnvOf(host, path), Start(loading), s.lines) == Success(st)
    ensures var s := LineSource.LanguageText(path, rootLength, primary, loadMods, mods, loading.tracker.origin);
            FromTxt(host, loading, path, rootLength, primary, loadMods, mods, fuel) == Finish(st, s.finalOrigin, fuel)
  {
  }

  /** With no key ever opened, finishing only resets the counters. */
  lemma FinishWithoutKeys(st: Parser, origin: string, fuel: nat)
    requires st.bound && st.nextKey == "" && st.ctx.lang.dialog == Dict.Empty()
    ensures Finish(st, origin, fuel)
            == Success(WithOrigin(st, origin).ctx.(lang := st.ctx.lang.(lines := 0, words := 0)))
  {
  }
}
