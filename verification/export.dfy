/**
 The dialog cache: `FromModExport` reads a compiled language back from its
 binary form, field by field in a fixed order, and then the entries as
 `(key, raw, cleaned)` triples. `ToModExport` is the matching writer.

 Source: Celeste.Mod.mm/Patches/Language.cs.
 */
module Export {
  import opened Wrappers
  import opened Numbers
  import opened Binary
  import Text
  import Dict
  import Dialog
  import Paths

  // ---------------------------------------------------------------------
  // Reading
  // ---------------------------------------------------------------------

  /** The entry loop: `count` triples, each written into both dictionaries
      (a repeated key keeps its place and takes the later values). A
      negative count reads nothing. */
  function ReadEntries(s: seq<byte>, count: int, dialog: Dict.Dict<string, string>,
                       cleaned: Dict.Dict<string, string>)
    : Result<(Dict.Dict<string, string>, Dict.Dict<string, string>), ReadError>
    decreases count
  {
    if count <= 0 then Success((dialog, cleaned))
    else
      var key :- ReadString(s);
      var raw :- ReadString(key.1);
      var clean :- ReadString(raw.1);
      ReadEntries(clean.1, count - 1, Dict.Set(dialog, key.0, raw.0), Dict.Set(cleaned, key.0, clean.0))
  }

  /** The metadata fields in the order they are read, set on a blank
      language, followed by the entry count and the bytes after it. The
      font size is read as the bits of a 32-bit float. */
  function ReadMetadata(data: seq<byte>): Result<(Dialog.Language, int32, seq<byte>), ReadError> {
    var id :- ReadString(data);
    var labelText :- ReadString(id.1);
    var iconPath :- ReadString(labelText.1);
    var order :- ReadInt32(iconPath.1);
    var fontFace :- ReadString(order.1);
    var fontFaceSize :- ReadUInt32(fontFace.1);
    var splitRegex :- ReadString(fontFaceSize.1);
    var commas :- ReadString(splitRegex.1);
    var periods :- ReadString(commas.1);
    var lines :- ReadInt32(periods.1);
    var words :- ReadInt32(lines.1);
    var count :- ReadInt32(words.1);
    Success((Dialog.Language(id.0, labelText.0, iconPath.0, order.0, fontFace.0, fontFaceSize.0,
                             splitRegex.0, commas.0, periods.0, lines.0, words.0,
                             "", Dict.Empty(), Dict.Empty()),
             count.0, count.1))
  }

  /** `FromModExport(asset)`: `data` is the asset's stream, `pathVirtual` its
      virtual path, `p` the platform whose path rules name the file. Bytes
      after the last entry are not read. */
  function FromModExport(p: Paths.Platform, data: seq<byte>, pathVirtual: string): Result<Dialog.Language, ReadError> {
    var m :- ReadMetadata(data);
    var lang := m.0;
    var tables :- ReadEntries(m.2, m.1, lang.dialog, lang.cleaned);
    Success(lang.(dialog := tables.0, cleaned := tables.1, filePath := Paths.FileNameWithoutExtension(p, pathVirtual)))
  }

  // ---------------------------------------------------------------------
  // Writing
  // ---------------------------------------------------------------------

  /** Every key has a writable raw and cleaned text. */
  predicate EntriesWritable(keys: seq<string>, dialog: map<string, string>, cleaned: map<string, string>) {
    forall i :: 0 <= i < |keys| ==>
      && keys[i] in dialog && keys[i] in cleaned
      && Writable(keys[i]) && Writable(dialog[keys[i]]) && Writable(cleaned[keys[i]])
  }

  function WriteEntries(keys: seq<string>, dialog: map<string, string>, cleaned: map<string, string>): (r: seq<byte>)
    requires EntriesWritable(keys, dialog, cleaned)
    ensures |r| >= 3 * |keys|
  {
    if |keys| == 0 then []
    else
      var k := keys[0];
      WriteString(k) + (WriteString(dialog[k]) + (WriteString(cleaned[k]) + WriteEntries(keys[1..], dialog, cleaned)))
  }

  /** A language the cache can hold: its dictionaries list the same keys in
      the same order and every string fits the writer's length prefix. */
  predicate Exportable(lang: Dialog.Language) {
    && Dict.Valid(lang.dialog) && Dict.Valid(lang.cleaned)
    && lang.cleaned.keys == lang.dialog.keys
    && |lang.dialog.keys| < 0x8000_0000
    && MetadataWritable(lang)
    && EntriesWritable(lang.dialog.keys, lang.dialog.values, lang.cleaned.values)
  }

  predicate MetadataWritable(lang: Dialog.Language) {
    && Writable(lang.id) && Writable(lang.labelText) && Writable(lang.iconPath) && Writable(lang.fontFace)
    && Writable(lang.splitRegex) && Writable(lang.commaCharacters) && Writable(lang.periodCharacters)
  }

  /** The metadata fields in the order they are read and the entry count,
      followed by `tail`. */
  function WriteMetadata(lang: Dialog.Language, count: int32, tail: seq<byte>): (r: seq<byte>)
    requires MetadataWritable(lang)
    ensures |r| >= 16 + |tail|
  {
    WriteString(lang.id) + (WriteString(lang.labelText) + (WriteString(lang.iconPath)
    + (WriteInt32(lang.order) + (WriteString(lang.fontFace) + (WriteUInt32(lang.fontFaceSize)
    + (WriteString(lang.splitRegex) + (WriteString(lang.commaCharacters) + (WriteString(lang.periodCharacters)
    + (WriteInt32(lang.lines) + (WriteInt32(lang.words) + (WriteInt32(count) + tail)))))))))))
  }

  /** The writer the cache format mirrors: the metadata, the entry count,
      then one triple per key in key order. */
  function ToModExport(lang: Dialog.Language): (r: seq<byte>)
    requires Exportable(lang)
    ensures |r| >= 16 + 3 * |lang.dialog.keys|
  {
    WriteMetadata(lang, |lang.dialog.keys|, WriteEntries(lang.dialog.keys, lang.dialog.values, lang.cleaned.values))
  }

  // ---------------------------------------------------------------------
  // Round trip
  // ---------------------------------------------------------------------

  /** The dictionary that lists `keys` in order with the values of `m`. */
  function Listed(keys: seq<string>, m: map<string, string>): (d: Dict.Dict<string, string>)
    requires forall i :: 0 <= i < |keys| ==> keys[i] in m
    ensures d.keys == keys && d.values.Keys == set k | k in keys
  {
    Dict.Dict(keys, map k | k in keys :: m[k])
  }

  lemma ListedNext(keys: seq<string>, i: nat, m: map<string, string>)
    requires i < |keys| && Dict.Distinct(keys)
    requires forall j :: 0 <= j < |keys| ==> keys[j] in m
    ensures Dict.Set(Listed(keys[..i], m), keys[i], m[keys[i]]) == Listed(keys[..i + 1], m)
  {
    assert keys[..i + 1] == keys[..i] + [keys[i]];
    assert keys[i] !in keys[..i] by {
      forall j | 0 <= j < i ensures keys[..i][j] != keys[i] { assert keys[..i][j] == keys[j]; }
    }
  }

  /** Reading the entries written for `keys[i..]` after those for `keys[..i]`
      extends both dictionaries key by key. */
  lemma {:induction false} ReadWrittenEntries(keys: seq<string>, i: nat, dialog: map<string, string>,
                                              cleaned: map<string, string>)
    requires i <= |keys| && Dict.Distinct(keys) && EntriesWritable(keys, dialog, cleaned)
    ensures EntriesWritable(keys[i..], dialog, cleaned)
    ensures ReadEntries(WriteEntries(keys[i..], dialog, cleaned), |keys| - i,
                        Listed(keys[..i], dialog), Listed(keys[..i], cleaned))
            == Success((Listed(keys, dialog), Listed(keys, cleaned)))
    decreases |keys| - i
  {
    WritableSuffix(keys, i, dialog, cleaned);
    if i == |keys| {
      assert keys[..i] == keys;
    } else {
      var k := keys[i];
      var n := |keys| - (i + 1);
      var rest := WriteEntries(keys[i + 1..], dialog, cleaned);
      WriteEntriesAt(keys, i, dialog, cleaned);
      var d0, c0 := Listed(keys[..i], dialog), Listed(keys[..i], cleaned);
      var bytes := WriteString(k) + (WriteString(dialog[k]) + (WriteString(cleaned[k]) + rest));
      ReadOneEntry(k, dialog[k], cleaned[k], rest, n + 1, d0, c0);
      ListedNext(keys, i, dialog);
      ListedNext(keys, i, cleaned);
      ReadWrittenEntries(keys, i + 1, dialog, cleaned);
      SameRead(WriteEntries(keys[i..], dialog, cleaned), bytes, |keys| - i, n + 1, d0, d0, c0, c0);
    }
  }

  /** Reading equal bytes with an equal count onto equal dictionaries gives
      equal results. */
  lemma SameRead(s1: seq<byte>, s2: seq<byte>, n1: int, n2: int,
                 d1: Dict.Dict<string, string>, d2: Dict.Dict<string, string>,
                 c1: Dict.Dict<string, string>, c2: Dict.Dict<string, string>)
    requires s1 == s2 && n1 == n2 && d1 == d2 && c1 == c2
    ensures ReadEntries(s1, n1, d1, c1) == ReadEntries(s2, n2, d2, c2)
  {
  }

  /** All entries written for `keys` are read back, onto empty
      dictionaries, as the listings of `keys`. */
  lemma ReadAllWrittenEntries(keys: seq<string>, dialog: map<string, string>, cleaned: map<string, string>)
    requires Dict.Distinct(keys) && EntriesWritable(keys, dialog, cleaned)
    ensures ReadEntries(WriteEntries(keys, dialog, cleaned), |keys|, Dict.Empty(), Dict.Empty())
            == Success((Listed(keys, dialog), Listed(keys, cleaned)))
  {
    ReadWrittenEntries(keys, 0, dialog, cleaned);
    assert keys[0..] == keys && keys[..0] == [];
    SameRead(WriteEntries(keys[0..], dialog, cleaned), WriteEntries(keys, dialog, cleaned), |keys| - 0, |keys|,
             Listed(keys[..0], dialog), Dict.Empty(), Listed(keys[..0], cleaned), Dict.Empty());
  }

  lemma WritableSuffix(keys: seq<string>, i: nat, dialog: map<string, string>, cleaned: map<string, string>)
    requires i <= |keys| && EntriesWritable(keys, dialog, cleaned)
    ensures EntriesWritable(keys[i..], dialog, cleaned)
  {
    var ks := keys[i..];
    assert forall j :: 0 <= j < |ks| ==> ks[j] == keys[i + j];
  }

  /** The bytes written from key `i` on start with the triple for key `i`. */
  lemma WriteEntriesAt(keys: seq<string>, i: nat, dialog: map<string, string>, cleaned: map<string, string>)
    requires i < |keys| && EntriesWritable(keys, dialog, cleaned)
    ensures EntriesWritable(keys[i..], dialog, cleaned) && EntriesWritable(keys[i + 1..], dialog, cleaned)
    ensures var k := keys[i];
            WriteEntries(keys[i..], dialog, cleaned)
            == WriteString(k) + (WriteString(dialog[k]) + (WriteString(cleaned[k]) + WriteEntries(keys[i + 1..], dialog, cleaned)))
  {
    WritableSuffix(keys, i, dialog, cleaned);
    WritableSuffix(keys, i + 1, dialog, cleaned);
    assert keys[i..][0] == keys[i] && keys[i..][1..] == keys[i + 1..];
  }

  /** One written triple is read back into both dictionaries. */
  lemma ReadOneEntry(k: string, raw: string, clean: string, tail: seq<byte>, count: int,
                     d: Dict.Dict<string, string>, c: Dict.Dict<string, string>)
    requires Writable(k) && Writable(raw) && Writable(clean) && count > 0
    ensures ReadEntries(WriteString(k) + (WriteString(raw) + (WriteString(clean) + tail)), count, d, c)
            == ReadEntries(tail, count - 1, Dict.Set(d, k, raw), Dict.Set(c, k, clean))
  {
    ReadWriteString(k, WriteString(raw) + (WriteString(clean) + tail));
    ReadWriteString(raw, WriteString(clean) + tail);
    ReadWriteString(clean, tail);
  }

  /** A valid dictionary is the listing of its own keys. */
  lemma ValidIsListed(d: Dict.Dict<string, string>)
    requires Dict.Valid(d)
    ensures Listed(d.keys, d.values) == d
  {
  }

  /** The metadata written is read back onto a blank language. */
  lemma ReadWrittenMetadata(lang: Dialog.Language, count: int32, tail: seq<byte>)
    requires MetadataWritable(lang)
    ensures ReadMetadata(WriteMetadata(lang, count, tail))
            == Success((lang.(filePath := "", dialog := Dict.Empty(), cleaned := Dict.Empty()), count, tail))
  {
    var t11 := WriteInt32(count) + tail;
    var t10 := WriteInt32(lang.words) + t11;
    var t9 := WriteInt32(lang.lines) + t10;
    var t8 := WriteString(lang.periodCharacters) + t9;
    var t7 := WriteString(lang.commaCharacters) + t8;
    var t6 := WriteString(lang.splitRegex) + t7;
    var t5 := WriteUInt32(lang.fontFaceSize) + t6;
    var t4 := WriteString(lang.fontFace) + t5;
    var t3 := WriteInt32(lang.order) + t4;
    var t2 := WriteString(lang.iconPath) + t3;
    var t1 := WriteString(lang.labelText) + t2;
    ReadWriteString(lang.id, t1);
    ReadWriteString(lang.labelText, t2);
    ReadWriteString(lang.iconPath, t3);
    ReadWriteInt32(lang.order, t4);
    ReadWriteString(lang.fontFace, t5);
    ReadWriteUInt32(lang.fontFaceSize, t6);
    ReadWriteString(lang.splitRegex, t7);
    ReadWriteString(lang.commaCharacters, t8);
    ReadWriteString(lang.periodCharacters, t9);
    ReadWriteInt32(lang.lines, t10);
    ReadWriteInt32(lang.words, t11);
    ReadWriteInt32(count, tail);
  }

  /** Reading the cache written for a language gives the language back, with
      the file path taken from the asset's name. */
  lemma ExportRoundTrip(p: Paths.Platform, lang: Dialog.Language, pathVirtual: string)
    requires Exportable(lang)
    ensures FromModExport(p, ToModExport(lang), pathVirtual)
            == Success(lang.(filePath := Paths.FileNameWithoutExtension(p, pathVirtual)))
  {
    var keys := lang.dialog.keys;
    var e := WriteEntries(keys, lang.dialog.values, lang.cleaned.values);
    var blank := lang.(filePath := "", dialog := Dict.Empty(), cleaned := Dict.Empty());
    var data := ToModExport(lang);
    assert ReadMetadata(data) == Success((blank, |keys| as int32, e)) by {
      assert data == WriteMetadata(lang, |keys|, e);
      ReadWrittenMetadata(lang, |keys|, e);
    }
    assert ReadEntries(e, |keys|, blank.dialog, blank.cleaned) == Success((lang.dialog, lang.cleaned)) by {
      ReadAllWrittenEntries(keys, lang.dialog.values, lang.cleaned.values);
      ValidIsListed(lang.dialog);
      ValidIsListed(lang.cleaned);
    }
    FromModExportOf(p, data, pathVirtual, blank, |keys|, e, (lang.dialog, lang.cleaned));
  }

  /** `FromModExport` in terms of its two reading stages. */
  lemma FromModExportOf(p: Paths.Platform, data: seq<byte>, pathVirtual: string, blank: Dialog.Language, count: int32,
                        rest: seq<byte>, tables: (Dict.Dict<string, string>, Dict.Dict<string, string>))
    requires ReadMetadata(data) == Success((blank, count, rest))
    requires ReadEntries(rest, count, blank.dialog, blank.cleaned) == Success(tables)
    ensures FromModExport(p, data, pathVirtual)
            == Success(blank.(dialog := tables.0, cleaned := tables.1, filePath := Paths.FileNameWithoutExtension(p, pathVirtual)))
  {
  }
}
