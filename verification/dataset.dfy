/** `GET /api/dataset/export`: the recordings that pass the export filter are packed
    into a ZIP archive as `audio/<id>.wav`, followed by a `manifest.jsonl` with one line
    per packed file. */
module Dataset {
  import opened Wrappers
  import opened Strings
  import opened Database

  /** The query string: both parameters optional. */
  datatype ExportQuery = ExportQuery(minSnr: Option<string>, speakerId: Option<string>)

  /** A condition appended to the `WHERE` clause, carrying its bound parameter. */
  datatype Condition = SpeakerIs(speaker: string) | SnrAtLeast(min: real)

  /** Builds the optional conditions the way the handler appends to `sql` and `params`:
      the speaker condition when `speakerId` is a non-empty string, then the SNR
      condition when `minSnr` is a non-empty string that `toNumber` (JavaScript's
      `Number`, `None` for NaN and the infinities) turns into a finite number. */
  method BuildConditions(query: ExportQuery, toNumber: string -> Option<real>) returns (conds: seq<Condition>)
    ensures |conds| <= 2
    ensures forall s :: SpeakerIs(s) in conds <==> query.speakerId == Some(s) && s != []
    ensures forall m :: SnrAtLeast(m) in conds <==>
      query.minSnr.Some? && query.minSnr.value != [] && toNumber(query.minSnr.value) == Some(m)
    ensures forall i, j :: 0 <= i < j < |conds| ==> conds[i].SpeakerIs? && conds[j].SnrAtLeast?
  {
    var minSnr: Option<real> := None;
    if query.minSnr.Some? && query.minSnr.value != [] {
      minSnr := toNumber(query.minSnr.value);
    }
    conds := [];
    if query.speakerId.Some? && query.speakerId.value != [] {
      conds := conds + [SpeakerIs(query.speakerId.value)];
    }
    if minSnr.Some? {
      conds := conds + [SnrAtLeast(minSnr.value)];
    }
  }

  predicate Holds(c: Condition, r: RecordingRow) {
    match c
    case SpeakerIs(s) => r.speakerId == s
    case SnrAtLeast(m) => r.snrDb.Some? && r.snrDb.value >= m
  }

  /** The `WHERE` clause: a `raw` row with a processed path, whose paragraph is in
      `corpora`, meeting every optional condition (SQL's `NULL >= m` is not true). */
  predicate Selected(r: RecordingRow, corpora: seq<CorpusRow>, conds: seq<Condition>) {
    && r.status == "raw" && r.processedPath.Some?
    && r.paragraphId in CorpusIds(corpora)
    && forall c :: c in conds ==> Holds(c, r)
  }

  /** A row of the join. */
  datatype ExportRow = ExportRow(id: string, processedPath: string, content: string)

  /** The content of the `corpora` row with the given id. */
  function ContentOf(corpora: seq<CorpusRow>, id: string): (c: string)
    requires id in CorpusIds(corpora)
    ensures exists i :: 0 <= i < |corpora| && corpora[i].id == id && corpora[i].content == c
  {
    if corpora[0].id == id then corpora[0].content
    else
      assert CorpusIds(corpora) == {corpora[0].id} + CorpusIds(corpora[1..]);
      var c := ContentOf(corpora[1..], id);
      var i :| 0 <= i < |corpora[1..]| && corpora[1..][i].id == id && corpora[1..][i].content == c;
      assert corpora[i + 1] == corpora[1..][i];
      c
  }

  /** The query result, in `recordings` order (with unique `corpora` ids each recording
      joins at most one paragraph). */
  function QueryRows(recs: seq<RecordingRow>, corpora: seq<CorpusRow>, conds: seq<Condition>): (rows: seq<ExportRow>)
    ensures |rows| <= |recs|
  {
    if recs == [] then []
    else
      var rest := QueryRows(recs[..|recs| - 1], corpora, conds);
      var r := recs[|recs| - 1];
      if Selected(r, corpora, conds) then rest + [ExportRow(r.id, r.processedPath.value, ContentOf(corpora, r.paragraphId))]
      else rest
  }

  /** A file of the archive. */
  datatype ArchiveEntry = AudioFile(name: string, sourcePath: string) | ManifestFile(text: string)

  /** A manifest line before serialisation. */
  datatype ManifestLine = ManifestLine(audio: string, text: string)

  function AudioName(id: string): string {
    "audio/" + id + ".wav"
  }

  /** The rows the loop packs: a non-empty processed path whose file exists. */
  function Packed(rows: seq<ExportRow>, onDisk: string -> bool): (packed: seq<ExportRow>)
    ensures |packed| <= |rows|
    ensures forall i :: 0 <= i < |packed| ==> packed[i] in rows && packed[i].processedPath != [] && onDisk(packed[i].processedPath)
    ensures forall r :: r in rows && r.processedPath != [] && onDisk(r.processedPath) ==> r in packed
  {
    if rows == [] then []
    else
      var rest := Packed(rows[..|rows| - 1], onDisk);
      var r := rows[|rows| - 1];
      if r.processedPath != [] && onDisk(r.processedPath) then rest + [r] else rest
  }

  function LinesOf(rows: seq<ExportRow>): (lines: seq<ManifestLine>)
    ensures |lines| == |rows|
    ensures forall i :: 0 <= i < |rows| ==> lines[i] == ManifestLine(AudioName(rows[i].id), rows[i].content)
  {
    seq(|rows|, i requires 0 <= i < |rows| => ManifestLine(AudioName(rows[i].id), rows[i].content))
  }

  function FilesOf(rows: seq<ExportRow>): (files: seq<ArchiveEntry>)
    ensures |files| == |rows|
    ensures forall i :: 0 <= i < |rows| ==> files[i] == AudioFile(AudioName(rows[i].id), rows[i].processedPath)
  {
    seq(|rows|, i requires 0 <= i < |rows| => AudioFile(AudioName(rows[i].id), rows[i].processedPath))
  }

  /** `jsonLines.join('\n') + '\n'`, with `encode` as `JSON.stringify`: the text always
      ends with a line break. */
  function ManifestText(lines: seq<ManifestLine>, encode: ManifestLine -> string): (text: string)
    ensures text != [] && text[|text| - 1] == '\n'
  {
    Join(seq(|lines|, i requires 0 <= i < |lines| => encode(lines[i])), '\n') + "\n"
  }

  /** The export loop: every query row with an existing processed file is appended to
      the archive and gets a manifest line; the manifest comes last. */
  method PackArchive(rows: seq<ExportRow>, onDisk: string -> bool, encode: ManifestLine -> string)
    returns (archive: seq<ArchiveEntry>)
    ensures var packed := Packed(rows, onDisk);
      archive == FilesOf(packed) + [ManifestFile(ManifestText(LinesOf(packed), encode))]
  {
    var lines: seq<ManifestLine> := [];
    archive := [];
    var i := 0;
    while i < |rows|
      invariant 0 <= i <= |rows|
      invariant lines == LinesOf(Packed(rows[..i], onDisk))
      invariant archive == FilesOf(Packed(rows[..i], onDisk))
    {
      var row := rows[i];
      PackedStep(rows, i, onDisk);
      if row.processedPath != [] && onDisk(row.processedPath) {
        ExportSnoc(Packed(rows[..i], onDisk), row);
        var name := AudioName(row.id);
        lines := lines + [ManifestLine(name, row.content)];
        archive := archive + [AudioFile(name, row.processedPath)];
      }
      i := i + 1;
    }
    assert rows[..i] == rows;
    archive := archive + [ManifestFile(ManifestText(lines, encode))];
  }

  lemma PackedStep(rows: seq<ExportRow>, i: nat, onDisk: string -> bool)
    requires i < |rows|
    ensures Packed(rows[..i + 1], onDisk) ==
      if rows[i].processedPath != [] && onDisk(rows[i].processedPath) then Packed(rows[..i], onDisk) + [rows[i]]
      else Packed(rows[..i], onDisk)
  {
    assert rows[..i + 1][..i] == rows[..i];
  }

  lemma ExportSnoc(packed: seq<ExportRow>, r: ExportRow)
    ensures LinesOf(packed + [r]) == LinesOf(packed) + [ManifestLine(AudioName(r.id), r.content)]
    ensures FilesOf(packed + [r]) == FilesOf(packed) + [AudioFile(AudioName(r.id), r.processedPath)]
  {
  }

  /** `GET /api/dataset/export` over the tables in `db`; `onDisk` says whether the
      processed file is on disk. */
  method Export(db: Db, query: ExportQuery, toNumber: string -> Option<real>, onDisk: string -> bool,
                encode: ManifestLine -> string)
    returns (archive: seq<ArchiveEntry>)
    ensures exists conds: seq<Condition> ::
      && (forall s :: SpeakerIs(s) in conds <==> query.speakerId == Some(s) && s != [])
      && (forall m :: SnrAtLeast(m) in conds <==>
            query.minSnr.Some? && query.minSnr.value != [] && toNumber(query.minSnr.value) == Some(m))
      && var packed := Packed(QueryRows(db.recordings, db.corpora, conds), onDisk);
         archive == FilesOf(packed) + [ManifestFile(ManifestText(LinesOf(packed), encode))]
  {
    var conds := BuildConditions(query, toNumber);
    var rows := QueryRows(db.recordings, db.corpora, conds);
    archive := PackArchive(rows, onDisk, encode);
  }

  /** The query reads `recordings` row by row: the result keeps table order and has one
      row per selected recording. */
  lemma {:induction false} QueryRowsAppend(a: seq<RecordingRow>, b: seq<RecordingRow>, corpora: seq<CorpusRow>,
                                           conds: seq<Condition>)
    ensures QueryRows(a + b, corpora, conds) == QueryRows(a, corpora, conds) + QueryRows(b, corpora, conds)
    decreases |b|
  {
    if b == [] {
      assert a + b == a;
    } else {
      var init := b[..|b| - 1];
      QueryRowsAppend(a, init, corpora, conds);
      assert (a + b)[..|a + b| - 1] == a + init && (a + b)[|a + b| - 1] == b[|b| - 1];
    }
  }

  lemma QueryRowsSingle(r: RecordingRow, corpora: seq<CorpusRow>, conds: seq<Condition>)
    ensures QueryRows([r], corpora, conds) ==
      if Selected(r, corpora, conds) then [ExportRow(r.id, r.processedPath.value, ContentOf(corpora, r.paragraphId))]
      else []
  {
    assert [r][..0] == [];
  }

  /** Packing goes row by row too, keeping order and repeats. */
  lemma {:induction false} PackedAppend(a: seq<ExportRow>, b: seq<ExportRow>, onDisk: string -> bool)
    ensures Packed(a + b, onDisk) == Packed(a, onDisk) + Packed(b, onDisk)
    decreases |b|
  {
    if b == [] {
      assert a + b == a;
    } else {
      var init := b[..|b| - 1];
      PackedAppend(a, init, onDisk);
      assert (a + b)[..|a + b| - 1] == a + init && (a + b)[|a + b| - 1] == b[|b| - 1];
    }
  }

  lemma PackedSingle(r: ExportRow, onDisk: string -> bool)
    ensures Packed([r], onDisk) == if r.processedPath != [] && onDisk(r.processedPath) then [r] else []
  {
    assert [r][..0] == [];
  }

  /** Every exported row passed the filter: it comes from a selected recording and
      carries that recording's id and processed path. */
  lemma {:induction false} QueryRowsSelected(recs: seq<RecordingRow>, corpora: seq<CorpusRow>, conds: seq<Condition>)
    ensures forall k :: 0 <= k < |QueryRows(recs, corpora, conds)| ==>
      exists i :: 0 <= i < |recs| && Selected(recs[i], corpora, conds)
        && QueryRows(recs, corpora, conds)[k].id == recs[i].id
        && Some(QueryRows(recs, corpora, conds)[k].processedPath) == recs[i].processedPath
  {
    if recs != [] {
      var init := recs[..|recs| - 1];
      QueryRowsSelected(init, corpora, conds);
      var rows := QueryRows(recs, corpora, conds);
      var rest := QueryRows(init, corpora, conds);
      forall k | 0 <= k < |rows|
        ensures exists i :: (0 <= i < |recs| && Selected(recs[i], corpora, conds)
          && rows[k].id == recs[i].id && Some(rows[k].processedPath) == recs[i].processedPath)
      {
        if k < |rest| {
          assert rows[k] == rest[k];
          var i :| 0 <= i < |init| && Selected(init[i], corpora, conds)
            && rest[k].id == init[i].id && Some(rest[k].processedPath) == init[i].processedPath;
          assert recs[i] == init[i];
        } else {
          var last := recs[|recs| - 1];
          assert Selected(last, corpora, conds);
          assert rows[k] == ExportRow(last.id, last.processedPath.value, ContentOf(corpora, last.paragraphId));
          assert rows[k].id == recs[|recs| - 1].id;
        }
      }
      assert forall k :: 0 <= k < |rows| ==>
        exists i :: 0 <= i < |recs| && Selected(recs[i], corpora, conds)
          && rows[k].id == recs[i].id && Some(rows[k].processedPath) == recs[i].processedPath;
    } else {
      assert QueryRows(recs, corpora, conds) == [];
    }
  }

  /** Every selected recording is exported, so the filter loses nothing: `k` is its
      position in the query result. */
  lemma {:induction false} SelectedIsQueried(recs: seq<RecordingRow>, corpora: seq<CorpusRow>, conds: seq<Condition>, i: nat)
    returns (k: nat)
    requires i < |recs| && Selected(recs[i], corpora, conds)
    ensures k < |QueryRows(recs, corpora, conds)| && QueryRows(recs, corpora, conds)[k].id == recs[i].id
  {
    var init := recs[..|recs| - 1];
    var rest := QueryRows(init, corpora, conds);
    var rows := QueryRows(recs, corpora, conds);
    if i < |recs| - 1 {
      assert init[i] == recs[i];
      k := SelectedIsQueried(init, corpora, conds, i);
      assert rows[k] == rest[k];
    } else {
      var last := recs[|recs| - 1];
      assert rows == rest + [ExportRow(last.id, last.processedPath.value, ContentOf(corpora, last.paragraphId))];
      k := |rest|;
    }
  }

  /** Without any optional condition only the fixed part of the filter applies; with a
      minimum SNR a row without an SNR is never selected. */
  lemma FilterConditions(r: RecordingRow, corpora: seq<CorpusRow>, m: real)
    ensures Selected(r, corpora, []) <==> r.status == "raw" && r.processedPath.Some? && r.paragraphId in CorpusIds(corpora)
    ensures r.snrDb.None? ==> !Selected(r, corpora, [SnrAtLeast(m)])
  {
    assert SnrAtLeast(m) in [SnrAtLeast(m)];
  }

  /** With nothing to pack the manifest is a single newline. */
  lemma EmptyManifest(encode: ManifestLine -> string)
    ensures ManifestText([], encode) == "\n"
  {
  }

  /** The manifest has exactly one line per packed file: when serialisation never emits a
      raw newline, splitting the text before its final newline gives back the encoded
      lines, in order. */
  lemma ManifestOneLinePerFile(lines: seq<ManifestLine>, encode: ManifestLine -> string)
    requires lines != []
    requires forall i :: 0 <= i < |lines| ==> '\n' !in encode(lines[i])
    ensures var text := ManifestText(lines, encode);
      Split(text[..|text| - 1], '\n') == seq(|lines|, i requires 0 <= i < |lines| => encode(lines[i]))
  {
    var encoded := seq(|lines|, i requires 0 <= i < |lines| => encode(lines[i]));
    var text := ManifestText(lines, encode);
    assert text[..|text| - 1] == Join(encoded, '\n');
    SplitJoin(encoded, '\n');
  }
}
