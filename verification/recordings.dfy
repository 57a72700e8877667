/** The upload and download handlers for recordings: an upload is standardised and
    analysed, classified as `success`, `clipping_detected` or `too_quiet`, and stored as
    a row of `recordings`; a download serves the raw file of a known recording. */
module Recordings {
  import opened Wrappers
  import opened Strings
  import opened SharedTypes
  import opened AudioProcessor
  import opened Database

  /** The level assumed for a missing peak or RMS reading. */
  const MissingLevel: real := -60.0
  /** A peak above this level counts as clipping. */
  const ClipPeakDbfs: real := -1.0
  /** An RMS level below this is too quiet. */
  const QuietRmsDbfs: real := -35.0

  /** The `metrics` object of the upload response. */
  datatype UploadMetrics = UploadMetrics(
    dbFS: real,
    clipping: bool,
    silenceDuration: real,
    peakDbfs: Option<real>,
    snrDb: Option<real>,
    clippingCount: ClipCount)

  /** The metrics an upload answers with when standardisation or analysis fails. */
  const DefaultMetrics: UploadMetrics := UploadMetrics(MissingLevel, false, 0.0, None, None, Clips(0))

  /** The multipart file part: its form fields and the size of the bytes written. */
  datatype UploadedFile = UploadedFile(paragraphId: Option<string>, speakerId: Option<string>, sizeBytes: nat)

  datatype UploadResponse = UploadResponse(
    recordingId: string,
    status: UploadStatus,
    fileUrl: string,
    metrics: UploadMetrics)

  /** `MissingFile` is the 400 reply; `InsertFailed` is the exception a plain `INSERT`
      raises when the new id is already a primary key. */
  datatype UploadError = MissingFile | InsertFailed

  datatype DownloadError = NotFound

  function RawPath(id: string): string {
    "raw/" + id + ".webm"
  }

  function ProcessedPath(id: string): string {
    "processed/" + id + ".wav"
  }

  function FileUrl(id: string): string {
    "/api/recordings/" + id + "/download"
  }

  /** The status and metrics after the `try` block; `analysis` is `None` when
      standardisation or analysis threw. */
  function Assess(analysis: Option<AudioQualityMetrics>): (r: (UploadStatus, UploadMetrics))
    ensures analysis.None? ==> r == (TooQuiet, DefaultMetrics)
    ensures r.0 == ClippingDetected <==> (analysis.Some? &&
      (analysis.value.peakDbfs.GetOr(MissingLevel) > ClipPeakDbfs || analysis.value.clippingCount.Positive()))
    ensures r.0 == Success ==> analysis.Some? && analysis.value.rmsDbfs.GetOr(MissingLevel) >= QuietRmsDbfs
  {
    match analysis
    case None => (TooQuiet, DefaultMetrics)
    case Some(a) =>
      var metrics := UploadMetrics(
        a.rmsDbfs.GetOr(MissingLevel), a.clippingCount.Positive(), a.silenceDuration,
        a.peakDbfs, a.snrDb, a.clippingCount);
      var status :=
        if a.peakDbfs.GetOr(MissingLevel) > ClipPeakDbfs || a.clippingCount.Positive() then ClippingDetected
        else if a.rmsDbfs.GetOr(MissingLevel) < QuietRmsDbfs then TooQuiet
        else Success;
      (status, metrics)
  }

  /** The analysis the handler sees: none unless standardisation succeeded and the
      analyser accepted the exit code. */
  function AnalysisOf(standardized: bool, exitCode: Option<int>, report: string): (r: Option<AudioQualityMetrics>)
    ensures r.Some? <==> standardized && (exitCode == Some(0) || exitCode == Some(1))
    ensures r.Some? ==> r.value.silenceDuration >= 0.0
  {
    if !standardized then None
    else match ReportMetrics(exitCode, report)
      case Ok(a) => Some(a)
      case Err(_) => None
  }

  /** The row the handler inserts. */
  function RecordingFor(id: string, paragraphId: string, speakerId: string, sizeKb: nat,
                        status: UploadStatus, metrics: UploadMetrics): (row: RecordingRow)
    ensures row.id == id && row.filePath == RawPath(id)
    ensures row.processedPath.Some? <==> status == Success
    ensures row.processedPath.Some? ==> row.processedPath.value == ProcessedPath(id)
    ensures row.status == (if status == Success then "raw" else "discarded")
  {
    RecordingRow(
      id, paragraphId, speakerId, RawPath(id),
      if status == Success then Some(ProcessedPath(id)) else None,
      sizeKb, metrics.snrDb, metrics.peakDbfs, metrics.clippingCount,
      if status == Success then "raw" else "discarded")
  }

  /** `POST /api/recordings/upload`.  `recordingId` is the fresh id, `standardized`
      says whether the transcoding finished, and `exitCode` and `report` are what the
      analyser's ffmpeg run ended with. */
  method Upload(db: Db, file: Option<UploadedFile>, recordingId: string, standardized: bool,
                exitCode: Option<int>, report: string)
    returns (r: Result<UploadResponse, UploadError>)
    requires db.Valid()
    modifies db
    ensures db.Valid()
    ensures db.corpora == old(db.corpora) && db.generated == old(db.generated)
    ensures file.None? ==> r == Err(MissingFile) && db.recordings == old(db.recordings)
    ensures file.Some? ==>
      var f := file.value;
      var (status, metrics) := Assess(AnalysisOf(standardized, exitCode, report));
      var row := RecordingFor(recordingId, f.paragraphId.GetOr("unknown"), f.speakerId.GetOr("default_speaker"),
                              FileSizeKb(f.sizeBytes), status, metrics);
      if recordingId in RecordingIds(old(db.recordings)) then
        r == Err(InsertFailed) && db.recordings == old(db.recordings)
      else
        r == Ok(UploadResponse(recordingId, status, FileUrl(recordingId), metrics))
        && db.recordings == old(db.recordings) + [row]
  {
    if file.None? {
      return Err(MissingFile);
    }
    var f := file.value;
    var paragraphId := f.paragraphId.GetOr("unknown");
    var speakerId := f.speakerId.GetOr("default_speaker");

    var status := Success;
    var metrics := DefaultMetrics;
    // the try block: standardise, analyse, classify; any failure is too quiet
    if standardized {
      var analysis := AnalyzeReport(exitCode, report);
      match analysis
      case Ok(a) =>
        metrics := UploadMetrics(
          a.rmsDbfs.GetOr(MissingLevel), a.clippingCount.Positive(), a.silenceDuration,
          a.peakDbfs, a.snrDb, a.clippingCount);
        if a.peakDbfs.GetOr(MissingLevel) > ClipPeakDbfs || a.clippingCount.Positive() {
          status := ClippingDetected;
        } else if a.rmsDbfs.GetOr(MissingLevel) < QuietRmsDbfs {
          status := TooQuiet;
        }
      case Err(_) =>
        status := TooQuiet;
    } else {
      status := TooQuiet;
    }

    var sizeKb := FileSizeKb(f.sizeBytes);
    var row := RecordingFor(recordingId, paragraphId, speakerId, sizeKb, status, metrics);
    if recordingId in RecordingIds(db.recordings) {
      return Err(InsertFailed);
    }
    AppendFreshUnique(db.recordings, row);
    db.recordings := db.recordings + [row];
    r := Ok(UploadResponse(recordingId, status, FileUrl(recordingId), metrics));
  }

  /** A row with a new id keeps the primary key unique. */
  lemma AppendFreshUnique(rows: seq<RecordingRow>, row: RecordingRow)
    requires UniqueRecordingIds(rows) && row.id !in RecordingIds(rows)
    ensures UniqueRecordingIds(rows + [row])
  {
    var all := rows + [row];
    forall i, j | 0 <= i < j < |all| ensures all[i].id != all[j].id {
      assert all[i] == rows[i];
      if j < |rows| { assert all[j] == rows[j]; }
    }
  }

  /** The first row with the given id (`SELECT … WHERE id = ?`). */
  function FindRecording(rows: seq<RecordingRow>, id: string): (r: Option<RecordingRow>)
    ensures r.None? <==> id !in RecordingIds(rows)
    ensures r.Some? ==> r.value in rows && r.value.id == id
  {
    if rows == [] then None
    else if rows[0].id == id then Some(rows[0])
    else FindRecording(rows[1..], id)
  }

  /** `GET /api/recordings/:id/download`: the stored file path, or 404. */
  function Download(db: Db, id: string): (r: Result<string, DownloadError>)
    reads db
    ensures r.Err? <==> id !in RecordingIds(db.recordings)
  {
    match FindRecording(db.recordings, id)
    case None => Err(NotFound)
    case Some(row) => Ok(row.filePath)
  }

  // ---------------------------------------------------------------------------------
  // Properties of the quality gate

  /** A peak above -1 dBFS (a missing peak counts as -60) or any clipped sample makes
      the verdict `clipping_detected`, whatever the RMS level. */
  lemma ClippingWins(a: AudioQualityMetrics)
    ensures Assess(Some(a)).0 == ClippingDetected <==>
      (a.peakDbfs.Some? && a.peakDbfs.value > -1.0) || (a.clippingCount.Clips? && a.clippingCount.n > 0)
  {
  }

  /** Without clipping, an RMS level below -35 dBFS (a missing level counts as -60) is
      `too_quiet`, and everything else is `success`. */
  lemma QuietOtherwise(a: AudioQualityMetrics)
    requires Assess(Some(a)).0 != ClippingDetected
    ensures Assess(Some(a)).0 == TooQuiet <==> a.rmsDbfs.None? || a.rmsDbfs.value < -35.0
    ensures Assess(Some(a)).0 == Success <==> a.rmsDbfs.Some? && a.rmsDbfs.value >= -35.0
  {
  }

  /** A failed standardisation or analysis is `too_quiet` with the default metrics. */
  lemma FailureIsTooQuiet(standardized: bool, exitCode: Option<int>, report: string)
    requires !standardized || ReportMetrics(exitCode, report).Err?
    ensures Assess(AnalysisOf(standardized, exitCode, report))
      == (TooQuiet, UploadMetrics(-60.0, false, 0.0, None, None, Clips(0)))
  {
  }

  /** The clipping flag is exactly "at least one clipped sample" (a NaN count is not),
      and `dbFS` is the RMS level or -60. */
  lemma MetricsMirrorAnalysis(a: AudioQualityMetrics)
    ensures var m := Assess(Some(a)).1;
      && (m.clipping <==> a.clippingCount.Clips? && a.clippingCount.n > 0)
      && m.dbFS == (if a.rmsDbfs.Some? then a.rmsDbfs.value else -60.0)
      && m.peakDbfs == a.peakDbfs && m.snrDb == a.snrDb && m.clippingCount == a.clippingCount
  {
  }

  /** ffmpeg ending with a code other than 0 or 1 is a failed analysis. */
  lemma BadExitCodeIsTooQuiet(exitCode: Option<int>, report: string)
    requires exitCode != Some(0) && exitCode != Some(1)
    ensures Assess(AnalysisOf(true, exitCode, report)).0 == TooQuiet
  {
    ExitCodeTolerance(exitCode, report);
  }

  /** Only a successful upload keeps its processed file and enters the dataset as `raw`;
      every row points at its raw file. */
  lemma RowFields(id: string, paragraphId: string, speakerId: string, sizeKb: nat,
                  status: UploadStatus, metrics: UploadMetrics)
    ensures var row := RecordingFor(id, paragraphId, speakerId, sizeKb, status, metrics);
      && row.filePath == "raw/" + id + ".webm"
      && (status == Success ==> row.processedPath == Some("processed/" + id + ".wav") && row.status == "raw")
      && (status != Success ==> row.processedPath == None && row.status == "discarded")
  {
  }

  /** A download finds the row an upload stored and serves its raw file; an unknown id
      is 404. */
  lemma DownloadAfterUpload(db: Db, id: string)
    requires db.Valid()
    ensures id !in RecordingIds(db.recordings) ==> Download(db, id) == Err(NotFound)
    ensures forall i :: 0 <= i < |db.recordings| && db.recordings[i].id == id ==>
      Download(db, id) == Ok(db.recordings[i].filePath)
  {
    forall i | 0 <= i < |db.recordings| && db.recordings[i].id == id
      ensures Download(db, id) == Ok(db.recordings[i].filePath)
    {
      UniqueFind(db.recordings, id, i);
    }
  }

  lemma {:induction false} UniqueFind(rows: seq<RecordingRow>, id: string, i: nat)
    requires UniqueRecordingIds(rows) && i < |rows| && rows[i].id == id
    ensures FindRecording(rows, id) == Some(rows[i])
  {
    if i > 0 {
      assert rows[0].id != id;
      UniqueFind(rows[1..], id, i - 1);
    }
  }
}
