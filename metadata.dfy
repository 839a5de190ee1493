/** The metadata editor of Tools/metadata_editor.py without its window and
    file access: the FILETIME split of a tick count, the in-memory table of
    metadata (category -> field -> value) with its two edits, Anonymize
    Safe and Update Field, and the rule that cuts the raw XMP packet out
    of a file's text. */
module Metadata {
  import opened Wrappers
  import opened PyStr

  // ---------------------------------------------------------------------
  // FILETIME
  // ---------------------------------------------------------------------

  /** 100-nanosecond intervals from 1601-01-01 to 1970-01-01. */
  const EpochOffset: int := 116444736000000000

  /** One 32-bit word: a DWORD holds values below this. */
  const Word: int := 0x1_0000_0000

  /** `wintypes.FILETIME(dwLowDateTime, dwHighDateTime)`. */
  datatype FileTime = FileTime(low: int, high: int)

  /** `to_filetime`, given the tick count `int(dt.timestamp() * 1e7)`:
      `us & 0xFFFFFFFF` and `us >> 32` of `us = ticks + EpochOffset`, each
      stored in a 32-bit DWORD field, which keeps its low 32 bits. */
  function ToFileTime(ticks: int): (r: FileTime)
    ensures 0 <= r.low < Word && 0 <= r.high < Word
  {
    var us := ticks + EpochOffset;
    FileTime(us % Word, (us / Word) % Word)
  }

  /** For a time from 1601 on that fits in 64 bits, the two words hold the
      tick count exactly: high word times 2^32 plus low word. */
  lemma FileTimeWords(ticks: int)
    requires 0 <= ticks + EpochOffset < Word * Word
    ensures ToFileTime(ticks).high * Word + ToFileTime(ticks).low == ticks + EpochOffset
  {
    var us := ticks + EpochOffset;
    assert us == (us / Word) * Word + us % Word;
    assert 0 <= us / Word < Word;
  }

  /** Hence distinct times in that range give distinct FILETIMEs. */
  lemma FileTimeInjective(a: int, b: int)
    requires 0 <= a + EpochOffset < Word * Word && 0 <= b + EpochOffset < Word * Word
    requires ToFileTime(a) == ToFileTime(b)
    ensures a == b
  {
    FileTimeWords(a);
    FileTimeWords(b);
  }

  /** The Unix epoch is FILETIME 0x019DB1DE:D53E8000. */
  lemma UnixEpochFileTime()
    ensures ToFileTime(0) == FileTime(0xD53E8000, 0x019DB1DE)
  {
  }

  /** Before 1601 the tick count is negative and the words wrap around. */
  lemma BeforeFileTimeEpoch()
    ensures ToFileTime(-EpochOffset - 1) == FileTime(Word - 1, Word - 1)
  {
  }

  // ---------------------------------------------------------------------
  // The metadata table
  // ---------------------------------------------------------------------

  /** A metadata value: text, Python's None, or any other object (bytes,
      numbers, tuples), which the edits below only copy. */
  datatype Value = Text(s: string) | Null | Other(id: nat)

  type Fields = map<string, Value>

  /** `self.meta`: category name -> field name -> value. */
  type Meta = map<string, Fields>

  const FileSystem: string := "File-System Metadata"
  const Exif: string := "EXIF (safe)"
  const Iptc: string := "IPTC (safe)"
  const PngText: string := "PNG Text (safe)"

  /** The date that replaces every timestamp. */
  const Placeholder: string := "2000-01-01T00:00:00"

  /** The file-system fields that are replaced only when present. */
  const DateKeys: seq<string> := ["Created", "Modified", "Accessed"]

  /** The file-system fields after the date loop. */
  function DatesReplaced(fs: Fields): (r: Fields)
    ensures r.Keys == fs.Keys
  {
    map k | k in fs :: if k in DateKeys then Text(Placeholder) else fs[k]
  }

  /** The file-system category after Anonymize: dates replaced, `Owner`
      set to the empty text (added when absent). */
  function FileSystemAnonymized(fs: Fields): Fields
  {
    DatesReplaced(fs)["Owner" := Text("")]
  }

  /** One EXIF field after Anonymize: a key containing `DateTime` gets the
      placeholder, then a key starting with `GPS` gets None, so the GPS
      rule wins. */
  function ExifValue(key: string, v: Value): Value
  {
    var afterDate := if Contains(key, "DateTime") then Text(Placeholder) else v;
    if StartsWith(key, "GPS") then Null else afterDate
  }

  function ExifAnonymized(ex: Fields): (r: Fields)
    ensures r.Keys == ex.Keys
  {
    map k | k in ex :: ExifValue(k, ex[k])
  }

  /** Every value replaced by the empty text. */
  function Blanked(m: Fields): (r: Fields)
    ensures r.Keys == m.Keys
  {
    map k | k in m :: Text("")
  }

  /** What Anonymize does to one category. */
  function CategoryAnonymized(cat: string, fields: Fields): Fields
  {
    if cat == FileSystem then FileSystemAnonymized(fields)
    else if cat == Exif then ExifAnonymized(fields)
    else if cat == Iptc || cat == PngText then Blanked(fields)
    else fields
  }

  /** `anonymize` on the whole table. A missing category is read as a
      fresh empty dictionary that is never stored, so none is created. */
  function Anonymized(meta: Meta): (r: Meta)
    ensures r.Keys == meta.Keys
  {
    map c | c in meta :: CategoryAnonymized(c, meta[c])
  }

  /** Anonymize's treatment of category `cat` alone, in place. */
  function Step(meta: Meta, cat: string): Meta
  {
    if cat in meta then meta[cat := CategoryAnonymized(cat, meta[cat])] else meta
  }

  /** The four categories are rewritten one after another; since each
      step touches only its own category, the result is the table with
      every category rewritten. */
  lemma StepsAnonymize(meta: Meta)
    ensures Step(Step(Step(Step(meta, FileSystem), Exif), Iptc), PngText) == Anonymized(meta)
  {
    var m1 := Step(meta, FileSystem);
    var m2 := Step(m1, Exif);
    var m3 := Step(m2, Iptc);
    var m4 := Step(m3, PngText);
    StepFrame(meta, FileSystem);
    StepFrame(m1, Exif);
    StepFrame(m2, Iptc);
    StepFrame(m3, PngText);
    forall c | c in meta ensures m4[c] == CategoryAnonymized(c, meta[c]) {
    }
  }

  /** A step rewrites its own category and no other. */
  lemma StepFrame(meta: Meta, cat: string)
    ensures Step(meta, cat).Keys == meta.Keys
    ensures forall c :: c in meta && c != cat ==> Step(meta, cat)[c] == meta[c]
    ensures cat in meta ==> Step(meta, cat)[cat] == CategoryAnonymized(cat, meta[cat])
  {
  }

  /** A row of the tree: its tags and its values (category, field,
      value) as the tree holds them. */
  datatype Row = Row(tags: set<string>, cells: seq<string>)

  /** Update Field acts only on a value row of a safe category. */
  predicate Editable(row: Row) {
    "safe" in row.tags && |row.cells| == 3
  }

  datatype UpdateError = KeyError(category: string)

  /** `update_field`: `self.meta[cat][f] = new` for an editable row, no
      change for any other row. */
  function UpdatedMeta(meta: Meta, row: Row, newValue: string): Result<Meta, UpdateError>
  {
    if !Editable(row) then Ok(meta)
    else
      var cat, f := row.cells[0], row.cells[1];
      if cat !in meta then Err(KeyError(cat))
      else Ok(meta[cat := meta[cat][f := Text(newValue)]])
  }

  // ---------------------------------------------------------------------
  // The editor
  // ---------------------------------------------------------------------

  /** The loop over the EXIF keys. */
  method AnonymizeExif(ex: Fields) returns (r: Fields)
    ensures r == ExifAnonymized(ex)
  {
    r := ex;
    var todo := ex.Keys;
    while todo != {}
      invariant todo <= ex.Keys && r.Keys == ex.Keys
      invariant forall k :: k in ex ==> r[k] == if k in todo then ex[k] else ExifValue(k, ex[k])
      decreases |todo|
    {
      var k :| k in todo;
      if Contains(k, "DateTime") {
        r := r[k := Text(Placeholder)];
      }
      if StartsWith(k, "GPS") {
        r := r[k := Null];
      }
      todo := todo - {k};
    }
  }

  /** The loop that blanks every IPTC and every PNG text value. */
  method BlankAll(m: Fields) returns (r: Fields)
    ensures r == Blanked(m)
  {
    r := m;
    var todo := m.Keys;
    while todo != {}
      invariant todo <= m.Keys && r.Keys == m.Keys
      invariant forall k :: k in m ==> r[k] == if k in todo then m[k] else Text("")
      decreases |todo|
    {
      var k :| k in todo;
      r := r[k := Text("")];
      todo := todo - {k};
    }
  }

  /** The loop over the three date fields, then the owner. */
  method AnonymizeFileSystem(fs: Fields) returns (r: Fields)
    ensures r == FileSystemAnonymized(fs)
  {
    r := fs;
    for i := 0 to |DateKeys|
      invariant r.Keys == fs.Keys
      invariant forall k :: k in fs ==> r[k] == if k in DateKeys[..i] then Text(Placeholder) else fs[k]
    {
      var k := DateKeys[i];
      if k in r {
        r := r[k := Text(Placeholder)];
      }
    }
    assert DateKeys[..|DateKeys|] == DateKeys;
    r := r["Owner" := Text("")];
  }

  /** The window's table of metadata. */
  class MetadataEditor {
    var meta: Meta

    constructor(meta: Meta)
      ensures this.meta == meta
    {
      this.meta := meta;
    }

    /** `anonymize`: rewrite the four safe categories that are present. */
    method Anonymize()
      modifies this
      ensures meta == Anonymized(old(meta))
    {
      ghost var m0 := meta;
      if FileSystem in meta {
        var fs := AnonymizeFileSystem(meta[FileSystem]);
        meta := meta[FileSystem := fs];
      }
      assert meta == Step(m0, FileSystem);
      if Exif in meta {
        var ex := AnonymizeExif(meta[Exif]);
        meta := meta[Exif := ex];
      }
      assert meta == Step(Step(m0, FileSystem), Exif);
      if Iptc in meta {
        var ip := BlankAll(meta[Iptc]);
        meta := meta[Iptc := ip];
      }
      if PngText in meta {
        var png := BlankAll(meta[PngText]);
        meta := meta[PngText := png];
      }
      StepsAnonymize(m0);
    }

    /** `update_field` for the selected row; a category missing from the
        table raises KeyError and changes nothing. */
    method UpdateField(row: Row, newValue: string) returns (error: Option<UpdateError>)
      modifies this
      ensures var r := UpdatedMeta(old(meta), row, newValue);
        (r.Ok? ==> meta == r.value && error == None)
        && (r.Err? ==> meta == old(meta) && error == Some(r.error))
    {
      if !("safe" in row.tags) || |row.cells| != 3 {
        return None;
      }
      var cat, f := row.cells[0], row.cells[1];
      if cat !in meta {
        return Some(KeyError(cat));
      }
      meta := meta[cat := meta[cat][f := Text(newValue)]];
      return None;
    }
  }

  // ---------------------------------------------------------------------
  // Properties of Anonymize
  // ---------------------------------------------------------------------

  /** The file-system rule: the three dates become the placeholder only
      where present, `Owner` becomes empty, nothing else changes. */
  lemma FileSystemRule(fs: Fields)
    ensures var r := FileSystemAnonymized(fs);
      r.Keys == fs.Keys + {"Owner"}
      && r["Owner"] == Text("")
      && (forall k :: k in DateKeys && k in fs ==> r[k] == Text(Placeholder))
      && (forall k :: k in fs && k !in DateKeys && k != "Owner" ==> r[k] == fs[k])
  {
  }

  /** The EXIF rule, both ways round: a GPS key becomes None; otherwise a
      DateTime key becomes the placeholder; every other value stays. */
  lemma ExifRule(ex: Fields, k: string)
    requires k in ex
    ensures StartsWith(k, "GPS") ==> ExifAnonymized(ex)[k] == Null
    ensures !StartsWith(k, "GPS") && Contains(k, "DateTime") ==> ExifAnonymized(ex)[k] == Text(Placeholder)
    ensures !StartsWith(k, "GPS") && !Contains(k, "DateTime") ==> ExifAnonymized(ex)[k] == ex[k]
  {
  }

  /** A key that is both a GPS key and a DateTime key ends as None. */
  lemma GpsRuleWins(v: Value)
    ensures ExifValue("GPSDateTime", v) == Null
  {
    assert "GPSDateTime"[..3] == "GPS";
  }

  /** The EXIF fields the table is loaded with: the three dates become
      the placeholder and the five GPS fields become None. */
  lemma LoadedExifFields(v: Value)
    ensures ExifValue("DateTimeOriginal", v) == Text(Placeholder)
    ensures ExifValue("DateTime", v) == Text(Placeholder)
    ensures ExifValue("GPSLatitude", v) == Null
  {
    assert "DateTimeOriginal"[..8] == "DateTime";
    assert "DateTimeOriginal"[..3][0] != "GPS"[0] && "DateTime"[..3][0] != "GPS"[0];
    assert OccursAt("DateTimeOriginal", "DateTime", 0);
    ContainsIff("DateTimeOriginal", "DateTime");
    assert OccursAt("DateTime", "DateTime", 0);
    ContainsIff("DateTime", "DateTime");
    assert "GPSLatitude"[..3] == "GPS";
  }

  /** Anonymize keeps the categories; IPTC and PNG text keep their keys
      and hold only empty text; EXIF keeps its keys; the file-system
      category only gains `Owner`; every other category is untouched. */
  lemma AnonymizeShape(meta: Meta)
    ensures var r := Anonymized(meta);
      r.Keys == meta.Keys
      && (FileSystem in meta ==> r[FileSystem].Keys == meta[FileSystem].Keys + {"Owner"})
      && (Exif in meta ==> r[Exif].Keys == meta[Exif].Keys)
      && (forall c :: c in meta && (c == Iptc || c == PngText) ==>
            r[c].Keys == meta[c].Keys && forall k :: k in r[c] ==> r[c][k] == Text(""))
      && (forall c :: c in meta && c != FileSystem && c != Exif && c != Iptc && c != PngText ==> r[c] == meta[c])
  {
  }

  lemma ExifValueIdempotent(k: string, v: Value)
    ensures ExifValue(k, ExifValue(k, v)) == ExifValue(k, v)
  {
  }

  lemma CategoryIdempotent(c: string, fields: Fields)
    ensures CategoryAnonymized(c, CategoryAnonymized(c, fields)) == CategoryAnonymized(c, fields)
  {
    if c == FileSystem {
      var once := FileSystemAnonymized(fields);
      assert FileSystemAnonymized(once) == once;
    } else if c == Exif {
      var once := ExifAnonymized(fields);
      forall k | k in once ensures ExifAnonymized(once)[k] == once[k] {
        ExifValueIdempotent(k, fields[k]);
      }
    }
  }

  /** Anonymizing twice is anonymizing once. */
  lemma AnonymizeIdempotent(meta: Meta)
    ensures Anonymized(Anonymized(meta)) == Anonymized(meta)
  {
    var once := Anonymized(meta);
    forall c | c in once ensures Anonymized(once)[c] == once[c] {
      CategoryIdempotent(c, meta[c]);
    }
  }

  // ---------------------------------------------------------------------
  // Properties of Update Field
  // ---------------------------------------------------------------------

  /** A row that is not an editable value row changes nothing. */
  lemma UpdateIgnoresOtherRows(meta: Meta, row: Row, newValue: string)
    requires !Editable(row)
    ensures UpdatedMeta(meta, row, newValue) == Ok(meta)
  {
  }

  /** An editable row sets exactly its own cell: every other cell and
      every category keep their values, and only its field may be
      added. */
  lemma UpdateChangesOneCell(meta: Meta, row: Row, newValue: string)
    requires Editable(row) && row.cells[0] in meta
    ensures var cat, f := row.cells[0], row.cells[1];
      var r := UpdatedMeta(meta, row, newValue);
      r.Ok?
      && r.value.Keys == meta.Keys
      && r.value[cat].Keys == meta[cat].Keys + {f}
      && r.value[cat][f] == Text(newValue)
      && (forall c, k :: c in meta && k in meta[c] && (c, k) != (cat, f) ==> r.value[c][k] == meta[c][k])
  {
  }

  /** An editable row of a category the table lacks is a KeyError. */
  lemma UpdateMissingCategory(meta: Meta, row: Row, newValue: string)
    requires Editable(row) && row.cells[0] !in meta
    ensures UpdatedMeta(meta, row, newValue) == Err(KeyError(row.cells[0]))
  {
  }

  // ---------------------------------------------------------------------
  // The raw XMP packet
  // ---------------------------------------------------------------------

  const XmpOpen: string := "<x:xmpmeta"
  const XmpClose: string := "</x:xmpmeta>"

  predicate EndsWith(s: string, p: string) {
    |p| <= |s| && s[|s| - |p|..] == p
  }

  /** `raw[s:e] if s>-1 and e>s else ""` with `s = raw.find(XmpOpen)` and
      `e = raw.find(XmpClose) + 12`, as written: a missing closing tag
      makes `e` 11, not -1. */
  function RawXmpAsWritten(raw: string): (r: string)
    ensures |r| <= |raw|
  {
    var s := Find(raw, XmpOpen);
    var e := Find(raw, XmpClose) + 12;
    if s > -1 && e > s then Slice(raw, s, e) else ""
  }

  /** The packet as intended: from the opening tag through the closing
      tag when both are present, otherwise nothing. */
  function RawXmp(raw: string): (r: string)
    ensures r == "" || (StartsWith(r, XmpOpen) && EndsWith(r, XmpClose))
  {
    var s := Find(raw, XmpOpen);
    var c := Find(raw, XmpClose);
    if s > -1 && c > s then
      assert raw[c..c + 12] == XmpClose;
      var r := raw[s..c + 12];
      assert r[..10] == raw[s..s + 10];
      assert r[|r| - 12..] == raw[c..c + 12];
      r
    else ""
  }

  /** No opening tag, no packet. */
  lemma XmpWithoutOpening(raw: string)
    requires Find(raw, XmpOpen) == -1
    ensures RawXmpAsWritten(raw) == "" && RawXmp(raw) == ""
  {
  }

  /** Both tags, the opening one first: both rules cut the packet from
      the opening tag through the closing tag. */
  lemma XmpPacket(raw: string)
    requires 0 <= Find(raw, XmpOpen) < Find(raw, XmpClose)
    ensures RawXmpAsWritten(raw) == RawXmp(raw)
    ensures StartsWith(RawXmp(raw), XmpOpen) && EndsWith(RawXmp(raw), XmpClose)
  {
  }

  /** A closing tag that comes first: no packet. */
  lemma XmpClosingFirst(raw: string)
    requires 0 <= Find(raw, XmpClose) && Find(raw, XmpOpen) > Find(raw, XmpClose)
    ensures RawXmpAsWritten(raw) == "" && RawXmp(raw) == ""
  {
    var s, c := Find(raw, XmpOpen), Find(raw, XmpClose);
    assert raw[s] == '<' by { assert raw[s..s + 10][0] == raw[s]; }
    ClosingTagHasOneBracket(raw, c);
  }

  /** Inside a closing tag only its first character is a '<', so no
      opening tag starts there. */
  lemma ClosingTagHasOneBracket(raw: string, c: int)
    requires OccursAt(raw, XmpClose, c)
    ensures forall j :: c < j < c + 12 ==> raw[j] != '<'
  {
    forall j | c < j < c + 12 ensures raw[j] != '<' {
      assert raw[j] == raw[c..c + 12][j - c];
    }
  }

  /** As written, a missing closing tag leaves `e = 11`: the text from an
      opening tag that starts before index 11 up to index 11 is taken. */
  lemma XmpMissingClosing(raw: string)
    requires Find(raw, XmpClose) == -1
    ensures var s := Find(raw, XmpOpen);
      RawXmpAsWritten(raw) == if 0 <= s < 11 then Slice(raw, s, 11) else ""
  {
  }

  /** The text `<x:xmpmeta>` has no closing tag, yet the rule as written
      shows it as the packet; the intended rule shows nothing. */
  lemma XmpFragmentAsWritten()
    ensures RawXmpAsWritten("<x:xmpmeta>") == "<x:xmpmeta>"
    ensures RawXmp("<x:xmpmeta>") == ""
  {
    var raw := "<x:xmpmeta>";
    assert raw[0..10] == XmpOpen;
    assert Find(raw, XmpOpen) == 0;
    assert Find(raw, XmpClose) == -1;
  }

  /** The intended rule never shows a packet without its closing tag. */
  lemma XmpNeedsClosing(raw: string)
    requires Find(raw, XmpClose) == -1
    ensures RawXmp(raw) == ""
  {
  }
}
