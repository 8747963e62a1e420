# Everest core, modelled in Dafny

This project models the parts of Everest, the Celeste mod loader, that
compile dialog files and look up map data. Each piece is a pure function
over immutable values, or a short method with loops. Each carries contracts
and lemmas that state what the C# code promises.

- **Dialog compiler** (`Language.cs`). The line source (`LineSource`)
  yields the game's own dialog file, then every mod overlay, each followed
  by the sentinel key line. The parser (`Dialog`) trims and preprocesses
  each line, classifies it, and writes entries through the
  conflict-counting setter `_SetItem`. Two post-passes follow (`Markup`):
  - the recursive `{+KEY}` insert resolver;
  - the cleaned view, which strips markup.

  The cache decoder `FromModExport` (`Export`) is paired with a mirror
  encoder and proved to round-trip. It rests on `BinaryReader` primitives
  (`Binary`): little-endian 32-bit integers, 7-bit encoded lengths and
  UTF-8. Also modelled:
  - the insertion-ordered dictionary `Dictionary<string, string>` (`Dict`);
  - `String.Trim` and the other text helpers (`Text`);
  - `int.Parse` (`Numbers`).
- **Map data** (`MapData.cs`).
  - `_GrowAndGet` on a 2-D array (`Grid`). `Array.Copy` sees the array as one
    flat row, and the model follows that.
  - The level-name cache and `Get`, `StartLevel`, and the collection of
    dashless goldenberries (`MapData`).
  - The recount of a parent map's strawberries (`MapData`).
- **Tracker** (`Monocle/Tracker.cs`). Type registration
  (`AddSpecificType`, `AddTypeToTracker`, `GetSubclasses`), the version
  handling in `Initialize`, and the version-gated `Refresh`. These run over
  an abstract type universe with an assignability relation.
- **Zip entry stream** (`SynchronizedZipEntryStream.cs`). Reads, the skip
  loop, and seeking by reopening and skipping forward (`ZipStream`). The
  decompressor may return short reads.
- **Entity attributes** (`EntityData.cs`). `Has` and `String`
  (`EntityData`).

Outside inputs are parameters:
- the loading language object and its conflict tables;
- the files and mod assets, as lists of lines;
- the host (`Dialog.Host`): the platform whose path rules name files, and `float.Parse` under the invariant culture;
- the game's own `orig_*` results;
- the decompressor's chunking.

Every `Dialog.Language` value the compiler produces comes from these
inputs and the compiled path. `FromTxt` names the language's file with
`Path.GetFileName` of that path (`Paths`). `Paths` follows the .NET 7 rules:
- `/` separates directories on every platform, and `\` only on Windows;
- the file name never includes any of the path's root (`GetPathRoot`), so on Windows a path with no separator also loses a leading drive such as `C:`;
- a Windows path that starts with two separators has a UNC root (`\\server\share`) or a device root (`\\.\pipe\`, `\\?\C:\`), and a path that is all root names nothing;
- `:` is not otherwise a separator.

The binary reader follows .NET 7 too: a 7-bit encoded length whose fifth
byte exceeds `0x0F` is a format error.

## Model

| member | source | states |
|---|---|---|
| Dialog.SetItem | Celeste.Mod.mm/Patches/Language.cs:272-295 | The value is always stored. The conflict tables change only for a counted write: a known source and a key other than the sentinel. The key's source becomes the current one. At most one warning is appended to the log, and the earlier log is kept. |
| Dialog.SetItemConflictIff | Celeste.Mod.mm/Patches/Language.cs:281-290 | While the tables agree with the dictionary, a counted write warns exactly when the key is already defined. The warning names the language, the key, the key's previous source (`?!?!?!` when none is known) and the current source. |
| Dialog.SetItemKeepsAgreement | Celeste.Mod.mm/Patches/Language.cs:281-287 | The read counts and line sources stay in agreement with the dictionary after every write. |
| Dialog.TwoSourcesOneConflict | Celeste.Mod.mm/Patches/Language.cs:272-295 | A new key written from source `a` and then from source `b` keeps the second value and logs exactly one conflict, naming `a` and `b`. |
| Dialog.SplitPair | Celeste.Mod.mm/Patches/Language.cs:45-56 | The flag is false exactly when the separator is absent, and then the left part is the whole input and the right part is empty. Otherwise the split is at the first separator: the left part is untrimmed and the right part is trimmed. |
| Dialog.SplitPairAt | Celeste.Mod.mm/Patches/Language.cs:45-56 | The split point is the first occurrence of the separator. |
| Dialog.Preprocess | Celeste.Mod.mm/Patches/Language.cs:67-79 | A line that trims to nothing or starts with `#` is skipped. A kept line is never empty. |
| Dialog.PreprocessPlain | Celeste.Mod.mm/Patches/Language.cs:67-79 | A trimmed, non-comment line without `[` or `\` passes through unchanged. |
| Dialog.Commit | Celeste.Mod.mm/Patches/Language.cs:83-86 | Committing fails exactly when a key is open and no language is bound, which is the null dereference. Otherwise the key stays open with the same text. |
| Dialog.CleanPass | Celeste.Mod.mm/Patches/Language.cs:172-181 | Every listed key gets the cleaned form of its raw text. Other cleaned entries are kept, and nothing else is added. |
| Dialog.StepSkipsBlankAndComments | Celeste.Mod.mm/Patches/Language.cs:67-70 | Blank and comment lines change nothing but the current source. |
| Dialog.StepContinuation | Celeste.Mod.mm/Patches/Language.cs:127-145 | A continuation line is appended to the open entry. A `{break}` goes before it exactly when the entry is non-empty, the last fragment ends in neither `{break}` nor `{n}`, and the previous line is not all commands. The key and the language are untouched. |
| Dialog.ContinueAppends | Celeste.Mod.mm/Patches/Language.cs:130-142 | The entry grows by the optional `{break}` and the line. The line becomes the last added fragment. |
| Dialog.StepOpensKey | Celeste.Mod.mm/Patches/Language.cs:82-126 | A `word=…` line first writes the open key with its text, counted through `_SetItem`. A non-directive word then opens a new key whose text is the trimmed text after the first `=`. |
| Dialog.StepUnboundCommitFails | Celeste.Mod.mm/Patches/Language.cs:83-86 | A key line while a key is open and no `LANGUAGE=` line has been seen throws on the null language. |
| Dialog.ApplyMetadataKeepsKey | Celeste.Mod.mm/Patches/Language.cs:90-118 | Metadata directives leave the open key, its text and the dictionary alone. |
| Dialog.StepMetadataKeepsKeyOpen | Celeste.Mod.mm/Patches/Language.cs:82-118 | A directive line writes the open entry but does not clear the key, so the same key is written again by the next key line. |
| Dialog.StepLanguage | Celeste.Mod.mm/Patches/Language.cs:90-100 | `LANGUAGE=id,label` binds the language and sets the id and the label. Without a comma it sets only the id. It clears the font face and records the line environment's file name, which `FromTxt` takes from its path with `Path.GetFileName`. |
| Dialog.ApplyOrderParses | Celeste.Mod.mm/Patches/Language.cs:106-107 | `order=n`, with `n` printed in decimal, sets the order to exactly `n` for every 32-bit `n`. |
| Dialog.ApplyOrderRejects | Celeste.Mod.mm/Patches/Language.cs:106-107 | An order argument with no digit throws the parse error. |
| Dialog.ApplyFont | Celeste.Mod.mm/Patches/Language.cs:108-112 | `font` without a comma changes nothing. With a comma it sets the face and the parsed size. |
| Dialog.SentinelIsVariableLine | Celeste.Mod.mm/Patches/Language.cs:263 | The sentinel line is an ordinary key line. |
| Dialog.SentinelSplit | Celeste.Mod.mm/Patches/Language.cs:263 | The sentinel line opens the key `EVEREST_SPLIT_BETWEEN_FILES` with the text `New file`. |
| Dialog.UncountedKeyLine | Celeste.Mod.mm/Patches/Language.cs:272-294 | A key line read while no source is current still writes the open entry, but it leaves the conflict tables and the log alone. This is how the last key of every overlay escapes conflict checking. |
| Dialog.ResolvePassKeepsKeys | Celeste.Mod.mm/Patches/Language.cs:153-167 | The insert pass rewrites only existing keys. The key order and key set stay, and only the dictionary changes. |
| Dialog.ResolvePassPlain | Celeste.Mod.mm/Patches/Language.cs:155-167 | A dictionary with no inserts comes through the insert pass unchanged. |
| Dialog.ResolvePassLogsEveryKey | Celeste.Mod.mm/Patches/Language.cs:156-158 | With a known source and agreeing tables, the insert pass logs one conflict per key. Every key is already defined when it is written back. |
| Dialog.FinishCleansEveryKey | Celeste.Mod.mm/Patches/Language.cs:169-181 | After compiling, every key has the cleaned form of its text, and `Lines` and `Words` are 0. |
| Dialog.FinishWritesLastKey | Celeste.Mod.mm/Patches/Language.cs:148-151 | The last open key is committed at the end of input with its accumulated text. |
| Dialog.ParseContinuedEntry | Celeste.Mod.mm/Patches/Language.cs:127-145 | `LANGUAGE=id`, `key=a`, `b` leave `key` open with the text `a{break}b`. |
| Dialog.FinishContinuedEntry | Celeste.Mod.mm/Patches/Language.cs:148-181 | Finishing that entry stores `a{break}b` and cleans it to `a`, a line feed, `b`. The insert pass logs the key once, against its own source. |
| Dialog.FirstKeyResolved | Celeste.Mod.mm/Patches/Language.cs:155-158 | The rewrite in the insert pass counts as a key's second definition. |
| Dialog.CompileContinuedEntry | Celeste.Mod.mm/Patches/Language.cs:59-184 | The whole compiler on the game file `LANGUAGE=id`, `key=a`, `b` gives the language `id` with one entry `a{break}b`. Its cleaned text is `a`, a line feed, `b`, and there is one conflict warning. |
| Dialog.FromTxtPrimaryOnly | Celeste.Mod.mm/Patches/Language.cs:230-235 | With mods not loaded, every line of the game file is read under the game's own source. |
| Dialog.CompileWithoutGameFile | Celeste.Mod.mm/Patches/Language.cs:241-245 | Without a game file, the synthetic line names the language after its lower-cased file name below `Dialog/`. The file path is `Path.GetFileName` of the compiled path on the host platform. Nothing else is set. |
| Markup.PortraitMatch | Celeste.Mod.mm/Patches/Language.cs:32 | A portrait match starting at `[` ends just after a `]`. |
| Markup.PortraitMatchPlain | Celeste.Mod.mm/Patches/Language.cs:32 | A `[` followed by text without `[` or `\` matches up to the last `]`. |
| Markup.PortraitFromMatch | Celeste.Mod.mm/Patches/Language.cs:73 | A matched `[content]` becomes `{portrait content}`. |
| Markup.PortraitReplaceShorthand | Celeste.Mod.mm/Patches/Language.cs:72-74 | `a[x]b` becomes `a{portrait x}b`. |
| Markup.PortraitReplaceNoBracket | Celeste.Mod.mm/Patches/Language.cs:72-74 | A line without `[` is left alone, so the `[` test is only a shortcut. |
| Markup.UnescapeHashEscape | Celeste.Mod.mm/Patches/Language.cs:76 | `\#` becomes `#`. |
| Markup.UnescapeHashPlain | Celeste.Mod.mm/Patches/Language.cs:76 | Text without a backslash is unchanged. |
| Markup.UnescapeHashAppend | Celeste.Mod.mm/Patches/Language.cs:76 | The replacement works piece by piece unless a `\` `#` pair straddles the seam. |
| Markup.InsertAt | Celeste.Mod.mm/Patches/Language.cs:38 | An insert match starts with `{+` and ends at a `}`. |
| Markup.ResolveFromPlain | Celeste.Mod.mm/Patches/Language.cs:160-166 | Text without `{+` resolves to itself. |
| Markup.ResolveOneLevel | Celeste.Mod.mm/Patches/Language.cs:160-166 | When no value holds an insert, every text resolves in one level. |
| Markup.ResolveInsert | Celeste.Mod.mm/Patches/Language.cs:160-166 | Text with no insert, then `{+key}`, then the rest resolves to the text, then the key's value resolved one level deeper, then the rest resolved. A missing key's value is empty. It diverges exactly when one of the two parts diverges. |
| Markup.ResolveFromShift | Celeste.Mod.mm/Patches/Language.cs:160-166 | Resolving from a position inside a text's suffix gives the same result as resolving that suffix alone from the matching position. |
| Markup.ResolveExamples | Celeste.Mod.mm/Patches/Language.cs:160-166 | With `A={+B}` and `B=X`, `A` resolves to `X`. The nested case `B={+C}`, `C=Y` resolves to `Y`. |
| Markup.ResolveMissingKey | Celeste.Mod.mm/Patches/Language.cs:164 | A missing key resolves to `[XXX]`. Spaces after `+` are skipped. |
| Markup.SelfInsertDiverges | Celeste.Mod.mm/Patches/Language.cs:160-166 | `A={+A}` never resolves, because there is no cycle guard. |
| Markup.ResolveFromMonotone | Celeste.Mod.mm/Patches/Language.cs:160-166 | More recursion depth never changes a result already reached. |
| Markup.NearestOpen | Celeste.Mod.mm/Patches/Language.cs:29-30 | The lazy right-to-left command match pairs a `}` with a `{` to its left. |
| Markup.CleanIsCleanRtl | Celeste.Mod.mm/Patches/Language.cs:176-177 | Text without `{` is left unchanged, so the `Contains('{')` test is only a shortcut. |
| Markup.CleanRtlNoOpen | Celeste.Mod.mm/Patches/Language.cs:177 | Text without `{` is its own cleaned form. |
| Markup.CleanRtlAppendPlain | Celeste.Mod.mm/Patches/Language.cs:177 | Text without `}` added at the end passes into the cleaned form unchanged. |
| Markup.CleanRtlAppendCommand | Celeste.Mod.mm/Patches/Language.cs:177 | A command added at the end adds its replacement: a line feed for `{n}` and `{break}`, nothing otherwise. |
| Markup.CleanRendered | Celeste.Mod.mm/Patches/Language.cs:176-180 | For text made of plain runs and commands, the cleaned form drops every command except `{n}` and `{break}`, which become line feeds, and keeps all other text. |
| Markup.CleanBreakJoin | Celeste.Mod.mm/Patches/Language.cs:177 | Two lines joined by `{break}` clean to the two lines joined by a line feed. |
| Markup.BreakJoinHasNoInsert | Celeste.Mod.mm/Patches/Language.cs:38 | Two lines without `{` joined by `{break}` hold no insert. |
| LineSource.AssetPath | Celeste.Mod.mm/Patches/Language.cs:237-239 | The path relative to the content root has `\` turned into `/` and the four-character extension dropped. It is absent exactly when the slicing would throw. |
| LineSource.TrimAll | Celeste.Mod.mm/Patches/Language.cs:258 | Every overlay line is trimmed as it is read. |
| LineSource.AssetLines | Celeste.Mod.mm/Patches/Language.cs:255-263 | An overlay yields its trimmed lines under its source name, or `???` without one. It then yields the sentinel line with no current source. |
| LineSource.ModsLinesEndWithSentinel | Celeste.Mod.mm/Patches/Language.cs:250-265 | With any matching overlay, the mod lines end with the sentinel, so the entries of two assets never run together. |
| LineSource.NoOverlayNoLines | Celeste.Mod.mm/Patches/Language.cs:250-265 | Without a matching overlay there are no mod lines. |
| LineSource.SyntheticLanguageLine | Celeste.Mod.mm/Patches/Language.cs:241-245 | Without a game file the first line is `LANGUAGE=` followed by the lower-cased name below `Dialog/`. With mods off it is the only line. |
| LineSource.OverlaysEndWithSentinel | Celeste.Mod.mm/Patches/Language.cs:247-265 | With mods on and an overlay present, the stream ends with the sentinel and leaves no current source. |
| LineSource.PrimaryLinesFirst | Celeste.Mod.mm/Patches/Language.cs:230-235 | The game file's lines come first, untrimmed, under the game's own source. |
| Text.Trim | Celeste.Mod.mm/Patches/Language.cs:67 | The result is a middle slice of the input, with white space cut at both ends, and it neither starts nor ends with white space. |
| Text.TrimIdempotent | Celeste.Mod.mm/Patches/Language.cs:67 | Trimming twice is trimming once. |
| Text.IndexOf | Celeste.Mod.mm/Patches/Language.cs:46 | The result is the first occurrence, and it is absent exactly when the character is absent. |
| Text.WordPrefix | Celeste.Mod.mm/Patches/Language.cs:35 | The result is the longest prefix of word characters. |
| Text.ToLower | Celeste.Mod.mm/Patches/Language.cs:244 | Every character is lower-cased in place. |
| Text.ReplaceChar | Celeste.Mod.mm/Patches/Language.cs:238 | Every `from` character is replaced by `to` and nothing else changes. |
| Numbers.Signed | Celeste.Mod.mm/Patches/Language.cs:107 | A magnitude is accepted exactly when it fits a signed 32-bit integer, with the negative bound one larger. |
| Numbers.ParseInt32RoundTrip | Celeste.Mod.mm/Patches/Language.cs:107 | Every 32-bit integer printed in decimal parses back to itself. |
| Numbers.ParseInt32Rejects | Celeste.Mod.mm/Patches/Language.cs:107 | Text without a digit never parses. |
| Dict.Set | Celeste.Mod.mm/Patches/Language.cs:294 | `dict[key] = value` stores the value. An existing key keeps its place and a new key goes last. |
| Binary.ReadWriteInt32 | Celeste.Mod.mm/Patches/Language.cs:203 | Every 32-bit integer written is read back, and the bytes after it are left for the next read. |
| Binary.ReadWriteUInt32 | Celeste.Mod.mm/Patches/Language.cs:206 | The four bytes of the font size read back as the same bit pattern. |
| Binary.Read7BitRoundTrip | Celeste.Mod.mm/Patches/Language.cs:197 | A string length written in 7-bit groups is read back. |
| Binary.Read7BitFifthByte | Celeste.Mod.mm/Patches/Language.cs:197 | After four continued groups, a fifth byte above `0x0F` is a format error. Otherwise the length is read and exactly five bytes are consumed. |
| Binary.Utf8RoundTrip | Celeste.Mod.mm/Patches/Language.cs:197 | Every string encoded in UTF-8 decodes back to itself. |
| Binary.ReadWriteString | Celeste.Mod.mm/Patches/Language.cs:197 | Every length-prefixed string written is read back, and the rest is left for the next read. |
| Export.ReadWrittenMetadata | Celeste.Mod.mm/Patches/Language.cs:196-215 | The metadata fields written in the reader's order are read back onto a blank language, together with the entry count. |
| Export.ReadWrittenEntries | Celeste.Mod.mm/Patches/Language.cs:216-220 | Reading the triples written for the remaining keys extends both dictionaries key by key. |
| Export.ReadAllWrittenEntries | Celeste.Mod.mm/Patches/Language.cs:215-220 | All triples are read back, in key order, as the dialog and cleaned dictionaries. |
| Export.ExportRoundTrip | Celeste.Mod.mm/Patches/Language.cs:193-225 | Decoding the mirror encoding of a language gives the same language back, with the file path taken from the asset's name. |
| Paths.FileName | Celeste.Mod.mm/Patches/Language.cs:93 | The result is a suffix of the path with no separator in it, and it holds no part of the root. It starts right after a separator or right at the end of the root. On a path without a UNC or device root that has a separator, it starts right after the last one. Without a separator it is the whole path, minus a leading drive on Windows. `/` separates everywhere and `\` only on Windows. |
| Paths.UncShareName | Celeste.Mod.mm/Patches/Language.cs:93 | On Windows, `\\server\share` gives the empty name, and a name after the share is the file name. |
| Paths.UncAloneName | Celeste.Mod.mm/Patches/Language.cs:93 | `//share` gives the empty name on Windows, where it is a UNC root, and `share` elsewhere. |
| Paths.DeviceNames | Celeste.Mod.mm/Patches/Language.cs:93 | The device `\\.\pipe` gives the empty name, and a name after its separator is the file name. |
| Paths.FileNameAfterSlash | Celeste.Mod.mm/Patches/Language.cs:93 | On every platform, the name after a final `/` is the file name, even when it holds `:`, unless the path starts a UNC or device root. |
| Paths.DriveRelativeName | Celeste.Mod.mm/Patches/Language.cs:93 | `C:a.txt` names `a.txt` on Windows and `C:a.txt` elsewhere. |
| Paths.FileNameWithoutExtension | Celeste.Mod.mm/Patches/Language.cs:223 | The result is the file name up to its last `.`, or the whole name when it has none. |
| Paths.StemAfterSlash | Celeste.Mod.mm/Patches/Language.cs:223 | `dir/stem.ext` with no `.` in `ext` gives `stem`, dots in the stem included, unless the path starts a UNC or device root. |
| Grid.Abs | Celeste.Mod.mm/Patches/MapData.cs:245-248 | A negative index is replaced by its absolute value. |
| Grid.Put | Celeste.Mod.mm/Patches/MapData.cs:96 | Storing a cell changes that cell and no other. |
| Grid.Blank | Celeste.Mod.mm/Patches/MapData.cs:252 | A fresh array has the requested dimensions and only null cells. |
| Grid.CopyRange | Celeste.Mod.mm/Patches/MapData.cs:257 | `Array.Copy` overwrites exactly the target range of the flat cells with the source range. |
| Grid.GrowAndGet | Celeste.Mod.mm/Patches/MapData.cs:244-262 | After success both absolute indices are in bounds, and the result is the cell there. The array is replaced only when an index is out of range, and then by one of `|y|+10` rows and `|x|+25` columns. |
| Grid.CopyRowsAligned | Celeste.Mod.mm/Patches/MapData.cs:256-257 | When the new rows are at least as long as the old ones, the row-wise copy puts every old cell at its old row and column. |
| Grid.GrowKeepsCells | Celeste.Mod.mm/Patches/MapData.cs:250-261 | Growth into dimensions at least the old ones keeps every old cell in place and leaves new cells null, so the freshly grown cell read is null. |
| Grid.CopyRowsFailsAt | Celeste.Mod.mm/Patches/MapData.cs:256-257 | The copy loop throws once it reaches a row that does not fit. |
| Grid.GrowFailsWhenRowsShrink | Celeste.Mod.mm/Patches/MapData.cs:250-257 | Growing only the columns of an array with more rows than `|y|+10` throws. |
| MapData.FirstNamed | Celeste.Mod.mm/Patches/MapData.cs:119 | The result is the first level with the name, or none exactly when no level has it. |
| MapData.Regenerate | Celeste.Mod.mm/Patches/MapData.cs:150-164 | The rebuilt cache holds exactly the names of the levels, each mapped to a level of that name. |
| MapData.CacheFirstWins | Celeste.Mod.mm/Patches/MapData.cs:150-164 | Each name maps to the first level with that name. Later duplicates are skipped and nothing from an earlier cache survives. |
| MapData.Get | Celeste.Mod.mm/Patches/MapData.cs:140-148 | A null cache is rebuilt, and an existing cache is left as it is. |
| MapData.GetFindsFirst | Celeste.Mod.mm/Patches/MapData.cs:140-148 | With a current cache, `Get` returns the first level of that name, or null exactly when there is none. |
| MapData.StartLevel | Celeste.Mod.mm/Patches/MapData.cs:115-137 | The result is a level of the map or the game's own choice. It is null only when both are missing. |
| MapData.StartLevelPreference | Celeste.Mod.mm/Patches/MapData.cs:115-137 | The order of preference is: the named room if the name is non-empty and the room exists, then the game's own start room, then the first room. |
| MapData.Dashless | Celeste.Mod.mm/Patches/MapData.cs:62-67 | Only `memorialTextController` entities are collected. |
| MapData.DashlessComplete | Celeste.Mod.mm/Patches/MapData.cs:62-67 | An entity is collected exactly when it is named `memorialTextController` and some level holds it. |
| MapData.DashlessCount | Celeste.Mod.mm/Patches/MapData.cs:62-67 | The list has one entry per controller: its length is the number of `memorialTextController` entities summed over the levels. |
| MapData.LoadIntoParent | Celeste.Mod.mm/Patches/MapData.cs:72-79 | Nothing happens while the parent is unloaded. Otherwise the child's berries are appended after the parent's. |
| MapData.ResetCheckpoints | Celeste.Mod.mm/Patches/MapData.cs:86-88 | Non-null checkpoints are reset to zero and null ones stay null. |
| MapData.CountOne | Celeste.Mod.mm/Patches/MapData.cs:91-104 | A counted non-moon berry adds one to the total and one to its checkpoint: the start count for checkpoint 0, the checkpoint's own count otherwise. |
| MapData.MoonUncounted | Celeste.Mod.mm/Patches/MapData.cs:91 | A moon berry is not counted. |
| MapData.CountAllTotals | Celeste.Mod.mm/Patches/MapData.cs:90-105 | The loop adds the number of non-moon berries to the total, and to each checkpoint the berries counted under it. |
| MapData.RecountTotals | Celeste.Mod.mm/Patches/MapData.cs:82-105 | A recount that runs to the end sets the total to the number of non-moon berries and the start count to those under checkpoint 0. `Checkpoints[i-1]` becomes the number under checkpoint `i`, with the id taken from `checkpointIDParented` when present. |
| MapData.RecountFinishesIff | Celeste.Mod.mm/Patches/MapData.cs:82-105 | While every non-moon berry fits the first 10 by 25 table with a non-negative id and order, the recount ends without an exception exactly when every counted checkpoint exists, or the checkpoint list is null. |
| MapData.RecountCopyFails | Celeste.Mod.mm/Patches/MapData.cs:90-105 | Outside the first table the recount can throw even with no checkpoint list: a berry under checkpoint 20 grows the table to 30 rows, and a later one at order 30 under checkpoint 1 makes the row copy overrun an 11-row array. |
| Tracker.Distinct | Celeste.Mod.mm/Patches/Monocle/Tracker.cs:147 | The result has no duplicates and the same elements as the input. |
| Tracker.DistinctGrows | Celeste.Mod.mm/Patches/Monocle/Tracker.cs:145-148 | Appending and de-duplicating lengthens a duplicate-free list exactly when something new was appended. |
| Tracker.DistinctKnown | Celeste.Mod.mm/Patches/Monocle/Tracker.cs:147 | Appending only known elements and de-duplicating gives the list back. |
| Tracker.Subclasses | Celeste.Mod.mm/Patches/Monocle/Tracker.cs:60-64 | A type is listed exactly when it is another type assignable to the given one. |
| Tracker.GetSubclasses | Celeste.Mod.mm/Patches/Monocle/Tracker.cs:56-72 | The result lists exactly the other types assignable to the type. The cache is left as it was, including null. |
| Tracker.AddSpecificType | Celeste.Mod.mm/Patches/Monocle/Tracker.cs:137-149 | An abstract type gives false and an unchanged table. Otherwise the type's list, created if missing, becomes its old elements together with the tracked-as type's, and no other list changes. |
| Tracker.AddSpecificTypeExtends | Celeste.Mod.mm/Patches/Monocle/Tracker.cs:137-149 | The result is true exactly when the tracked-as list held something the type's list lacked, which is exactly when a list grew. Lists are only extended. |
| Tracker.AddSpecificTypeTwice | Celeste.Mod.mm/Patches/Monocle/Tracker.cs:137-149 | An identical second call changes nothing and returns false. |
| Tracker.TrackedAsType | Celeste.Mod.mm/Patches/Monocle/Tracker.cs:113 | The tracked-as type is the requested one when that is assignable from the type, and the type itself otherwise. |
| Tracker.AddSubtypes | Celeste.Mod.mm/Patches/Monocle/Tracker.cs:127-131 | Once an add has changed something, the flag stays set. |
| Tracker.AddSubtypesExtends | Celeste.Mod.mm/Patches/Monocle/Tracker.cs:127-131 | The subtype loop only extends lists, only of non-abstract subtypes assignable to the tracked-as type. It reports a change exactly when some list grew. |
| Tracker.AddTypeToTracker | Celeste.Mod.mm/Patches/Monocle/Tracker.cs:112-135 | It throws exactly when the type is neither an entity nor a component. It stores the type in its kind's set, leaves the other kind alone, and raises the version by at most one. |
| Tracker.AddTypeToTrackerInherit | Celeste.Mod.mm/Patches/Monocle/Tracker.cs:100-102 | It throws exactly when the type is neither an entity nor a component, and it leaves the set of known types alone. |
| Tracker.AddTypeToTrackerTracks | Celeste.Mod.mm/Patches/Monocle/Tracker.cs:105-131 | After the call, the type (when concrete) and every concrete passed subtype assignable to the tracked-as type hold every type the tracked-as list held before. |
| Tracker.AddTypeToTrackerInheritTracks | Celeste.Mod.mm/Patches/Monocle/Tracker.cs:92-102 | With `inheritAll`, the type (when concrete) and every concrete subclass assignable to the tracked-as type are tracked under everything the tracked-as type was. No other type's list changes, and lists only grow. |
| Tracker.AddSubtypesTracks | Celeste.Mod.mm/Patches/Monocle/Tracker.cs:127-131 | Every concrete listed subtype assignable to the tracked-as type ends up holding the tracked-as list. |
| Tracker.AddTypeToTrackerVersion | Celeste.Mod.mm/Patches/Monocle/Tracker.cs:119-134 | The version rises by exactly one exactly when some list grew. Only the type and its eligible subtypes have their lists extended. |
| Tracker.Initialize | Celeste.Mod.mm/Patches/Monocle/Tracker.cs:75-90 | The version is put back to its value before the `[TrackedAs]` pass, and the type cache is dropped. |
| Tracker.InitializeFails | Celeste.Mod.mm/Patches/Monocle/Tracker.cs:82-86 | `Initialize` throws exactly when some type carries `[TrackedAs]` without deriving from `Entity` or `Component`. |
| Tracker.WithLists | Celeste.Mod.mm/Patches/Monocle/Tracker.cs:165-174 | Every stored type gets a list, and existing lists are kept. |
| Tracker.TrackObj | Celeste.Mod.mm/Patches/Monocle/Tracker.cs:176-193 | An object of an untracked type, or one already in its own type's list, is skipped. |
| Tracker.TrackObjTracks | Celeste.Mod.mm/Patches/Monocle/Tracker.cs:176-193 | Afterwards an object of a tracked type is in its own type's list, or in the list of every type it is tracked as. |
| Tracker.TrackAllTracks | Celeste.Mod.mm/Patches/Monocle/Tracker.cs:176-185 | That holds for every component of an entity after its components are tracked. |
| Tracker.TrackEntitiesTracks | Celeste.Mod.mm/Patches/Monocle/Tracker.cs:175-194 | That holds for every entity of the scene and every component of each. |
| Tracker.RefreshTracks | Celeste.Mod.mm/Patches/Monocle/Tracker.cs:151-195 | A refresh that goes through leaves every entity and component of the scene in the lists of the types it is tracked as, unless it was already in its own type's list, which the C# code skips. |
| Tracker.Refresh | Celeste.Mod.mm/Patches/Monocle/Tracker.cs:159-163 | It does nothing when the scene is current and the refresh is not forced. |
| Tracker.RefreshAppends | Celeste.Mod.mm/Patches/Monocle/Tracker.cs:159-195 | A refresh that goes through takes the global version and gives every stored type a list. It keeps every list and only appends objects of tracked types to the lists of the types they are tracked as. |
| EntityData.Shown | Celeste.Mod.mm/Patches/EntityData.cs:24 | A null value has no text, and a string shows as itself. |
| EntityData.Has | Celeste.Mod.mm/Patches/EntityData.cs:9-13 | The result is false without an attribute table, and the table's own key lookup otherwise. |
| EntityData.String | Celeste.Mod.mm/Patches/EntityData.cs:22-28 | The stored text is returned unless it is null or blank, and then the default. |
| EntityData.StringNeverBlank | Celeste.Mod.mm/Patches/EntityData.cs:22-28 | A blank or null result can only be the default. |
| EntityData.StringImpliesHas | Celeste.Mod.mm/Patches/EntityData.cs:9-28 | Any result other than the default comes from an attribute `Has` reports. Without a table it is always the default. |
| EntityData.StringOfText | Celeste.Mod.mm/Patches/EntityData.cs:24-25 | A stored non-blank string comes back unchanged, and a blank one is replaced by the default. |
| ZipStream.Deliver | Celeste.Mod.mm/Mod/Helpers/SynchronizedZipEntryStream.cs:96 | One wrapped read returns no more than asked or than remains. It returns zero exactly at the end or for an empty request. |
| ZipStream.Open | Celeste.Mod.mm/Mod/Helpers/SynchronizedZipEntryStream.cs:18-27 | A new stream starts at position 0 on a fresh entry. |
| ZipStream.Reset | Celeste.Mod.mm/Mod/Helpers/SynchronizedZipEntryStream.cs:45-49 | Reopening starts the entry again at position 0. |
| ZipStream.ReadAsMuchAsPossible | Celeste.Mod.mm/Mod/Helpers/SynchronizedZipEntryStream.cs:93-102 | The count returned lies in `[0, count]`, and the bytes are the next ones of the entry. Fewer than asked come back only at the end of the entry. |
| ZipStream.Read | Celeste.Mod.mm/Mod/Helpers/SynchronizedZipEntryStream.cs:36-42 | The position advances by exactly the bytes returned, which are the entry's bytes at the old position. |
| ZipStream.Skip | Celeste.Mod.mm/Mod/Helpers/SynchronizedZipEntryStream.cs:108-115 | The position advances by the bytes actually read. It never goes past the request and stops at the end of the entry. |
| ZipStream.Seek | Celeste.Mod.mm/Mod/Helpers/SynchronizedZipEntryStream.cs:64-88 | The target is the offset from the beginning, the position or the length. The stream lands where reopening for a target behind and skipping the distance cast to `int` take it, and returns that position. |
| ZipStream.SeekLands | Celeste.Mod.mm/Mod/Helpers/SynchronizedZipEntryStream.cs:71-86 | A negative target lands at 0. A target the entry holds, less than 2^31 past where the skip starts, is reached exactly. A nearby target past the end stops at the end. |
| ZipStream.SeekWrapsFarTarget | Celeste.Mod.mm/Mod/Helpers/SynchronizedZipEntryStream.cs:79 | A forward seek of exactly 2^32 bytes casts to 0 and does not move. |
| ZipStream.SetPosition | Celeste.Mod.mm/Mod/Helpers/SynchronizedZipEntryStream.cs:58-61 | Setting `Position` is a seek from the beginning: the stream lands where `Seek(value, Begin)` lands. Negative values land at 0, and reachable values are reached exactly. |
| ZipStream.Unsupported | Celeste.Mod.mm/Mod/Helpers/SynchronizedZipEntryStream.cs:118-127 | `Flush`, `SetLength` and `Write` (all three defined as `Unsupported`) always throw `NotSupportedException` and leave the stream alone. |

## Left out

- File and asset I/O, the mod enumeration and the `LoadingLanguage` singleton: the files and assets are lists of lines, and the loading language is a parameter.
- The conflict tables `ReadCount` and `LineSources` are created outside the visible code, so the model takes them as given, including null.
- Logger output: warnings are a list of entries, and debug and detailed logging are dropped.
- Texture creation for the language icon (`VirtualContent.CreateTexture`), because it is engine graphics.
- `float.Parse` and `ReadSingle`: the font size is kept as its 32-bit pattern, and parsing is a parameter.
- Case-insensitive directive matching, overlay asset-path matching (`OrdinalIgnoreCase`, Language.cs:252), `\w` and `ToLowerInvariant` cover ASCII letters only. Unicode case tables are out of scope.
- Binary.DecodeChar: ill-formed UTF-8 is rejected, where .NET substitutes U+FFFD, because replacement characters are not part of the round trip.
- The insert resolver takes a recursion-depth budget (fuel). The unbounded recursion on a cyclic insert, which overflows the stack in the C# code, becomes a `Diverges` error once the budget runs out.
- `FromExport` and the vanilla `orig_*` methods (`orig_Load`, `orig_StartLevel`, `orig_Initialize`, `orig_Has`): their results are parameters. `orig_Has` is the attribute table's key lookup.
- Paths.FileNameAfterSlash: on Windows it is not claimed for a path that starts with two separators or is a device path (`\??\`), because there the root can run past the `/`. This also leaves out a few `\??\` paths whose root ends before the `/`.
- Paths.StemAfterSlash: not claimed for UNC or device roots on Windows, for the reason given for Paths.FileNameAfterSlash.
- Grid.GrowAndGet: the absolute value of `int.MinValue`, which stays negative in C#, and out-of-memory on huge arrays are not modelled, because indices are unbounded integers.
- MapData.RecountTotals: the berry table's contents after the recount are not stated, only the counters. Attribute parsing (`entity.Int`, `entity.Bool`) is given as fields of `Berry`.
- The exception filter of `Load` (the catch at MapData.cs:108) is modelled as the error that ended the recount. The logging in that path is dropped.
- Tracker.AddSpecificTypeExtends: it requires lists without duplicates. Every list `AddSpecificType` builds has none, but lists made by the vanilla initialisation are assumed to.
- Dialog.FromTxt: an exception (a null language, `int.Parse` or `float.Parse` rejecting text, a bad path, a diverging insert) yields only the error. The C# code has by then already changed the shared loading state: `LoadingLanguage` with its entries, conflict records and warnings, and for a bad font size the font face set just before `float.Parse` failed. The model drops all of these, because its results describe completed compilations only; what a caller sees after catching the exception is not modelled.
- Tracker.Initialize: a failure yields only the error. The C# code has by then already bumped `TrackedTypeVersion`, filled part of the tracked and stored tables, and left `_temporaryAllTypes` set. The model drops all of these, because its results describe completed initialisations only.
- Dict.Set: keys compare ordinally, which is the default comparer of `Dictionary<string, string>`. The dictionaries are created outside the modelled code (the `Language` constructor and the conflict tables), so this comparer is assumed.
- Numbers.ParseInt32RoundTrip: `int.Parse` (Language.cs:107) is called without a format provider, so it follows the current culture. The model assumes a culture whose sign and digits are the invariant culture's.
- EntityData.Shown: `ToString()` on an integer follows the current culture, which the model assumes writes integers as the invariant culture does.
- Tracker.Refresh: when a lookup throws part-way, the model returns the error and drops the partial changes, which C# would keep.
- Reflection: the type universe, assignability, abstractness and `[TrackedAs]` attributes are parameters.
- ZipStream.Seek: the 64-bit overflow of `offset + Position` and `offset + Length` is not modelled. The `(int)` cast of the skip distance is.
- The `lock (archive)` blocks, `Dispose` and the `PARALLEL_ZIP_TEST` harness, because they are concurrency and real zip I/O.
- ZipStream.Read: the buffer, offset and bounds checks of the wrapped stream are dropped, and the bytes are returned as a sequence.
- The decompressor's short reads are a function of the offset and the request, so reopening the entry replays the same chunking.
- IL patches (MonoMod rules) and the engine and UI glue in the other files, because they rewrite bytecode or drive the game.
