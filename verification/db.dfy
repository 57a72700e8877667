/** The three tables the core reads and writes, held in memory.  `corpora` and
    `recordings` are sequences in row order (the order a plain `SELECT` returns rows in);
    `generated_corpus` is a map from id to row, since nothing reads it in order. */
module Database {
  import opened Wrappers
  import opened SharedTypes
  import opened AudioProcessor
  import opened Phonetic

  /** A row of `corpora`. */
  datatype CorpusRow = CorpusRow(
    id: string,
    title: string,
    content: string,
    category: string,
    difficultyScore: int,
    source: string)

  /** A row of `recordings`; the columns the core never writes (`duration_ms`,
      `transcript` and the rest) are left out. */
  datatype RecordingRow = RecordingRow(
    id: string,
    paragraphId: string,
    speakerId: string,
    filePath: string,
    processedPath: Option<string>,
    fileSizeKb: nat,
    snrDb: Option<real>,
    peakDbfs: Option<real>,
    clippingCount: ClipCount,
    status: string)

  /** A row of `generated_corpus`, without its key. */
  datatype StagedRow = StagedRow(
    text: string,
    topic: string,
    difficulty: string,
    analysis: Analysis,
    status: CandidateStatus)

  /** The `difficulty_score` column for a difficulty name: `hard` is 3, `medium` is 2,
      anything else is 1. */
  function DifficultyScore(name: string): (score: int)
    ensures 1 <= score <= 3
    ensures score == 3 <==> name == "hard"
    ensures score == 2 <==> name == "medium"
  {
    if name == "hard" then 3 else if name == "medium" then 2 else 1
  }

  predicate UniqueCorpusIds(rows: seq<CorpusRow>) {
    forall i, j :: 0 <= i < j < |rows| ==> rows[i].id != rows[j].id
  }

  predicate UniqueRecordingIds(rows: seq<RecordingRow>) {
    forall i, j :: 0 <= i < j < |rows| ==> rows[i].id != rows[j].id
  }

  function CorpusIds(rows: seq<CorpusRow>): (ids: set<string>)
    ensures forall id :: id in ids <==> exists i :: 0 <= i < |rows| && rows[i].id == id
  {
    set i | 0 <= i < |rows| :: rows[i].id
  }

  function RecordingIds(rows: seq<RecordingRow>): (ids: set<string>)
    ensures forall id :: id in ids <==> exists i :: 0 <= i < |rows| && rows[i].id == id
  {
    set i | 0 <= i < |rows| :: rows[i].id
  }

  /** The SQLite database file. */
  class Db {
    var corpora: seq<CorpusRow>
    var recordings: seq<RecordingRow>
    var generated: map<string, StagedRow>

    /** The primary keys of `corpora` and `recordings` hold. */
    predicate Valid()
      reads this
    {
      UniqueCorpusIds(corpora) && UniqueRecordingIds(recordings)
    }

    constructor ()
      ensures corpora == [] && recordings == [] && generated == map[]
      ensures Valid()
    {
      corpora := [];
      recordings := [];
      generated := map[];
    }
  }
}
