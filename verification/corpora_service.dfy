/** Loading the bundled corpus files into `corpora`, and choosing the next paragraph a
    speaker should read together with their progress. */
module CorporaService {
  import opened Wrappers
  import opened Strings
  import opened SharedTypes
  import opened Database

  // ---------------------------------------------------------------------------------
  // Loading

  /** An entry of a corpus file; `estimatedDuration` is never read. */
  datatype CorporaEntry = CorporaEntry(id: string, content: string, difficulty: Option<string>)

  /** A directory entry and, for a `.json` file, its parsed entries. */
  datatype CorpusFile = CorpusFile(name: string, entries: seq<CorporaEntry>)

  const JsonExt: string := ".json"
  const LocalSource: string := "local"

  /** `file.replace('.json', '')`: the first `.json` in the name is removed; putting it
      back where it was gives the name again. */
  function Category(fileName: string): (r: string)
    ensures IndexOf(fileName, JsonExt, 0).None? ==> r == fileName
    ensures IndexOf(fileName, JsonExt, 0).Some? ==> (var i := IndexOf(fileName, JsonExt, 0).value;
      |r| + |JsonExt| == |fileName| && i <= |r| && r[..i] + JsonExt + r[i..] == fileName)
  {
    RemovedJsonRestored(fileName);
    ReplaceFirst(fileName, JsonExt, [])
  }

  lemma RemovedJsonRestored(fileName: string)
    ensures IndexOf(fileName, JsonExt, 0).Some? ==> (var i := IndexOf(fileName, JsonExt, 0).value;
      var r := ReplaceFirst(fileName, JsonExt, []);
      |r| + |JsonExt| == |fileName| && i <= |r| && r[..i] + JsonExt + r[i..] == fileName)
  {
    match IndexOf(fileName, JsonExt, 0)
    case None =>
    case Some(i) =>
      assert ReplaceFirst(fileName, JsonExt, []) == fileName[..i] + fileName[i + |JsonExt|..];
      RemovedRestored(fileName, JsonExt, i);
  }

  /** The category of `<base>.json` is `base` when `base` holds no `.json` of its own. */
  lemma CategoryOfJsonFile(base: string)
    requires IndexOf(base, JsonExt, 0).None?
    ensures Category(base + JsonExt) == base
  {
    var name := base + JsonExt;
    assert OccursAt(name, JsonExt, |base|) by {
      assert name[|base|..|base| + |JsonExt|] == JsonExt;
    }
    forall j | 0 <= j < |base| ensures !OccursAt(name, JsonExt, j) {
      if j + |JsonExt| <= |base| {
        assert !OccursAt(base, JsonExt, j);
        assert name[j..j + |JsonExt|] == base[j..j + |JsonExt|];
      } else {
        var k := |base| - j;
        assert 1 <= k < |JsonExt| && name[j + k] == '.';
        assert JsonExt[k] != '.';
      }
    }
    IndexOfFirst(name, JsonExt, |base|);
    assert name[..|base|] == base;
    assert name[|base| + |JsonExt|..] == [];
  }

  /** The first occurrence is the one `IndexOf` finds. */
  lemma {:induction false} IndexOfFirst(s: string, pat: string, i: nat)
    requires OccursAt(s, pat, i)
    requires forall j :: 0 <= j < i ==> !OccursAt(s, pat, j)
    ensures IndexOf(s, pat, 0) == Some(i)
  {
  }

  /** The `corpora` row of an entry of the given category. */
  function EntryRow(category: string, e: CorporaEntry): (row: CorpusRow)
    ensures row.id == e.id && row.title == category && row.category == category
    ensures row.content == e.content && row.source == LocalSource
    ensures row.difficultyScore == DifficultyScore(e.difficulty.GetOr([]))
  {
    CorpusRow(e.id, category, e.content, category, DifficultyScore(e.difficulty.GetOr([])), LocalSource)
  }

  /** `INSERT OR IGNORE`: a row whose id is already present changes nothing. */
  function InsertOrIgnore(rows: seq<CorpusRow>, row: CorpusRow): (r: seq<CorpusRow>)
    ensures UniqueCorpusIds(rows) ==> UniqueCorpusIds(r)
    ensures row.id in CorpusIds(rows) ==> r == rows
    ensures row.id !in CorpusIds(rows) ==> r == rows + [row]
  {
    if row.id in CorpusIds(rows) then rows else rows + [row]
  }

  /** `corpora` after inserting `entries` of one file in order: rows are only appended,
      at most one per entry. */
  function LoadEntries(rows: seq<CorpusRow>, category: string, entries: seq<CorporaEntry>): (r: seq<CorpusRow>)
    ensures |rows| <= |r| <= |rows| + |entries| && r[..|rows|] == rows
  {
    if entries == [] then rows
    else InsertOrIgnore(LoadEntries(rows, category, entries[..|entries| - 1]), EntryRow(category, entries[|entries| - 1]))
  }

  /** The files the loader reads: those whose name ends in `.json`, in directory order. */
  function JsonFiles(files: seq<CorpusFile>): (r: seq<CorpusFile>)
    ensures |r| <= |files|
    ensures forall i :: 0 <= i < |r| ==> EndsWith(r[i].name, JsonExt) && r[i] in files
    ensures forall f :: f in files && EndsWith(f.name, JsonExt) ==> f in r
  {
    if files == [] then []
    else (if EndsWith(files[0].name, JsonExt) then [files[0]] else []) + JsonFiles(files[1..])
  }

  /** Files are chosen one by one, keeping directory order and repeats. */
  lemma {:induction false} JsonFilesAppend(a: seq<CorpusFile>, b: seq<CorpusFile>)
    ensures JsonFiles(a + b) == JsonFiles(a) + JsonFiles(b)
  {
    if a == [] {
      assert a + b == b;
    } else {
      assert (a + b)[0] == a[0] && (a + b)[1..] == a[1..] + b;
      JsonFilesAppend(a[1..], b);
    }
  }

  lemma JsonFilesSingle(f: CorpusFile)
    ensures JsonFiles([f]) == if EndsWith(f.name, JsonExt) then [f] else []
  {
    assert [f][1..] == [];
  }

  /** `corpora` after loading the given files one after the other: rows are only
      appended. */
  function LoadFiles(rows: seq<CorpusRow>, files: seq<CorpusFile>): (r: seq<CorpusRow>)
    ensures |rows| <= |r| && r[..|rows|] == rows
  {
    if files == [] then rows
    else
      var last := files[|files| - 1];
      LoadEntries(LoadFiles(rows, files[..|files| - 1]), Category(last.name), last.entries)
  }

  /** The rows all entries of the files would give, in load order. */
  function EntryRows(files: seq<CorpusFile>): seq<CorpusRow> {
    if files == [] then []
    else
      var last := files[|files| - 1];
      EntryRows(files[..|files| - 1]) + FileRows(Category(last.name), last.entries)
  }

  function FileRows(category: string, entries: seq<CorporaEntry>): (r: seq<CorpusRow>)
    ensures |r| == |entries|
    ensures forall i :: 0 <= i < |r| ==> r[i] == EntryRow(category, entries[i])
  {
    seq(|entries|, i requires 0 <= i < |entries| => EntryRow(category, entries[i]))
  }

  /** `corpora` after inserting `rows` one by one with `INSERT OR IGNORE`: rows are only
      appended, at most one per offered row. */
  function InsertAll(table: seq<CorpusRow>, rows: seq<CorpusRow>): (r: seq<CorpusRow>)
    ensures |table| <= |r| <= |table| + |rows| && r[..|table|] == table
  {
    if rows == [] then table else InsertOrIgnore(InsertAll(table, rows[..|rows| - 1]), rows[|rows| - 1])
  }

  lemma {:induction false} InsertAllAppend(table: seq<CorpusRow>, a: seq<CorpusRow>, b: seq<CorpusRow>)
    ensures InsertAll(table, a + b) == InsertAll(InsertAll(table, a), b)
    decreases |b|
  {
    if b == [] {
      assert a + b == a;
    } else {
      assert (a + b)[..|a + b| - 1] == a + b[..|b| - 1];
      InsertAllAppend(table, a, b[..|b| - 1]);
    }
  }

  lemma {:induction false} LoadEntriesIsInsertAll(table: seq<CorpusRow>, category: string, entries: seq<CorporaEntry>)
    ensures LoadEntries(table, category, entries) == InsertAll(table, FileRows(category, entries))
  {
    if entries != [] {
      var init := entries[..|entries| - 1];
      LoadEntriesIsInsertAll(table, category, init);
      assert FileRows(category, entries)[..|entries| - 1] == FileRows(category, init);
    }
  }

  /** Loading file by file is inserting every entry row in load order. */
  lemma {:induction false} LoadFilesIsInsertAll(table: seq<CorpusRow>, files: seq<CorpusFile>)
    ensures LoadFiles(table, files) == InsertAll(table, EntryRows(files))
  {
    if files != [] {
      var init := files[..|files| - 1];
      var last := files[|files| - 1];
      LoadFilesIsInsertAll(table, init);
      LoadEntriesIsInsertAll(LoadFiles(table, init), Category(last.name), last.entries);
      InsertAllAppend(table, EntryRows(init), FileRows(Category(last.name), last.entries));
    }
  }

  /** Loading only appends: rows already present are kept as they are and in place,
      the primary key stays unique, and every offered id ends up present. */
  lemma {:induction false} InsertAllShape(table: seq<CorpusRow>, rows: seq<CorpusRow>)
    requires UniqueCorpusIds(table)
    ensures var r := InsertAll(table, rows);
      && UniqueCorpusIds(r)
      && |table| <= |r| && r[..|table|] == table
      && CorpusIds(r) == CorpusIds(table) + CorpusIds(rows)
  {
    if rows != [] {
      var init := rows[..|rows| - 1];
      var last := rows[|rows| - 1];
      InsertAllShape(table, init);
      assert rows == init + [last];
      CorpusIdsAppend(init, last);
      var before := InsertAll(table, init);
      if last.id !in CorpusIds(before) {
        CorpusIdsAppend(before, last);
        assert (before + [last])[..|table|] == before[..|table|];
      }
    }
  }

  lemma CorpusIdsAppend(rows: seq<CorpusRow>, row: CorpusRow)
    ensures CorpusIds(rows + [row]) == CorpusIds(rows) + {row.id}
  {
    var all := rows + [row];
    forall id | id in CorpusIds(all) ensures id in CorpusIds(rows) + {row.id} {
      var i :| 0 <= i < |all| && all[i].id == id;
      if i < |rows| { assert rows[i].id == id; }
    }
    forall id | id in CorpusIds(rows) ensures id in CorpusIds(all) {
      var i :| 0 <= i < |rows| && rows[i].id == id;
      assert all[i].id == id;
    }
    assert all[|rows|].id == row.id;
  }

  /** First insert wins: each appended row is the first row offered with its id, and
      that id was not in the table before. */
  lemma {:induction false} FirstInsertWins(table: seq<CorpusRow>, rows: seq<CorpusRow>)
    requires UniqueCorpusIds(table)
    ensures var r := InsertAll(table, rows);
      forall k :: |table| <= k < |r| ==>
        exists i :: 0 <= i < |rows| && r[k] == rows[i] && rows[i].id !in CorpusIds(table)
                    && forall j :: 0 <= j < i ==> rows[j].id != rows[i].id
  {
    if rows != [] {
      var init := rows[..|rows| - 1];
      var last := rows[|rows| - 1];
      FirstInsertWins(table, init);
      InsertAllShape(table, init);
      var before := InsertAll(table, init);
      var r := InsertAll(table, rows);
      forall k | |table| <= k < |r|
        ensures exists i :: 0 <= i < |rows| && r[k] == rows[i] && rows[i].id !in CorpusIds(table)
                           && forall j :: 0 <= j < i ==> rows[j].id != rows[i].id
      {
        if k < |before| {
          assert r[k] == before[k];
          var i :| 0 <= i < |init| && before[k] == init[i] && init[i].id !in CorpusIds(table)
                   && forall j :: 0 <= j < i ==> init[j].id != init[i].id;
          assert rows[i] == init[i];
          assert forall j :: 0 <= j < i ==> rows[j] == init[j];
        } else {
          InsertedLastIsNew(table, rows);
        }
      }
    }
  }

  /** When the last offered row is inserted, its id is new to the table and to every
      earlier row. */
  lemma InsertedLastIsNew(table: seq<CorpusRow>, rows: seq<CorpusRow>)
    requires UniqueCorpusIds(table) && rows != []
    requires |InsertAll(table, rows[..|rows| - 1])| < |InsertAll(table, rows)|
    ensures var r, i := InsertAll(table, rows), |rows| - 1;
      && |r| == |InsertAll(table, rows[..i])| + 1 && r[|r| - 1] == rows[i]
      && rows[i].id !in CorpusIds(table)
      && forall j :: 0 <= j < i ==> rows[j].id != rows[i].id
  {
    var init, last := rows[..|rows| - 1], rows[|rows| - 1];
    var before := InsertAll(table, init);
    InsertAllShape(table, init);
    assert last.id !in CorpusIds(before);
    forall j | 0 <= j < |rows| - 1 ensures rows[j].id != last.id {
      assert rows[j] == init[j];
      assert rows[j].id in CorpusIds(init);
    }
  }

  /** `insert.run(...)`: the prepared `INSERT OR IGNORE` statement, run on one row. */
  method RunInsert(db: Db, row: CorpusRow)
    requires db.Valid()
    modifies db
    ensures db.Valid()
    ensures db.recordings == old(db.recordings) && db.generated == old(db.generated)
    ensures db.corpora == InsertOrIgnore(old(db.corpora), row)
  {
    if row.id !in CorpusIds(db.corpora) {
      db.corpora := db.corpora + [row];
    }
  }

  /** `loadCorporaToDb` over the directory listing `files`, each `.json` file given
      with its parsed entries. */
  method LoadCorpora(db: Db, files: seq<CorpusFile>)
    requires db.Valid()
    modifies db
    ensures db.Valid()
    ensures db.recordings == old(db.recordings) && db.generated == old(db.generated)
    ensures db.corpora == LoadFiles(old(db.corpora), JsonFiles(files))
  {
    var jsonFiles := JsonFiles(files);
    var i := 0;
    while i < |jsonFiles|
      invariant 0 <= i <= |jsonFiles|
      invariant db.Valid()
      invariant db.recordings == old(db.recordings) && db.generated == old(db.generated)
      invariant db.corpora == LoadFiles(old(db.corpora), jsonFiles[..i])
    {
      LoadFilesStep(old(db.corpora), jsonFiles, i);
      LoadFile(db, Category(jsonFiles[i].name), jsonFiles[i].entries);
      i := i + 1;
    }
    assert jsonFiles[..i] == jsonFiles;
  }

  lemma LoadFilesStep(rows: seq<CorpusRow>, files: seq<CorpusFile>, i: nat)
    requires i < |files|
    ensures LoadFiles(rows, files[..i + 1]) == LoadEntries(LoadFiles(rows, files[..i]), Category(files[i].name), files[i].entries)
  {
    assert files[..i + 1][..i] == files[..i];
    assert files[..i + 1][i] == files[i];
  }

  /** The loader's inner loop: each entry of one file through the insert statement. */
  method LoadFile(db: Db, category: string, entries: seq<CorporaEntry>)
    requires db.Valid()
    modifies db
    ensures db.Valid()
    ensures db.recordings == old(db.recordings) && db.generated == old(db.generated)
    ensures db.corpora == LoadEntries(old(db.corpora), category, entries)
  {
    var j := 0;
    while j < |entries|
      invariant 0 <= j <= |entries|
      invariant db.Valid()
      invariant db.recordings == old(db.recordings) && db.generated == old(db.generated)
      invariant db.corpora == LoadEntries(old(db.corpora), category, entries[..j])
    {
      assert entries[..j + 1][..j] == entries[..j];
      assert entries[..j + 1][j] == entries[j];
      RunInsert(db, EntryRow(category, entries[j]));
      j := j + 1;
    }
    assert entries[..j] == entries;
  }

  // ---------------------------------------------------------------------------------
  // Difficulty

  /** The difficulty shown for a `difficulty_score`: 3 or more is hard, 2 medium, and
      anything else easy. */
  function DifficultyOf(score: int): (d: Difficulty)
    ensures d == Hard <==> score >= 3
    ensures d == Medium <==> score == 2
  {
    if score >= 3 then Hard else if score == 2 then Medium else Easy
  }

  /** A difficulty written when loading is read back unchanged. */
  lemma DifficultyRoundTrip(d: Difficulty)
    ensures DifficultyOf(DifficultyScore(d.Name())) == d
  {
  }

  /** A missing or unknown difficulty loads as score 1 and reads back as easy. */
  lemma UnknownDifficultyIsEasy(name: Option<string>)
    requires name != Some("hard") && name != Some("medium")
    ensures DifficultyOf(DifficultyScore(name.GetOr([]))) == Easy
  {
  }

  /** `Math.max(3, Math.ceil(length / 4))`. */
  function EstimatedDuration(content: string): (seconds: nat)
    ensures seconds >= 3
    ensures 4 * seconds >= |content|
    ensures seconds > 3 ==> 4 * (seconds - 1) < |content|
  {
    var quarter := (|content| + 3) / 4;
    if quarter > 3 then quarter else 3
  }

  // ---------------------------------------------------------------------------------
  // Next paragraph and progress

  /** The distinct paragraph ids this speaker has recordings for, in order of first
      recording (the groups of `GROUP BY paragraph_id`). */
  function RecordedParagraphs(recs: seq<RecordingRow>, speaker: string): (ps: seq<string>)
    ensures forall i, j :: 0 <= i < j < |ps| ==> ps[i] != ps[j]
    ensures forall p :: p in ps <==> p in SpeakerParagraphs(recs, speaker)
  {
    if recs == [] then []
    else
      var init := recs[..|recs| - 1];
      var r := recs[|recs| - 1];
      var ps := RecordedParagraphs(init, speaker);
      assert SpeakerParagraphs(recs, speaker)
        == SpeakerParagraphs(init, speaker) + (if r.speakerId == speaker then {r.paragraphId} else {}) by {
        forall p | p in SpeakerParagraphs(recs, speaker)
          ensures p in SpeakerParagraphs(init, speaker) || (r.speakerId == speaker && p == r.paragraphId)
        {
          var i :| 0 <= i < |recs| && recs[i].speakerId == speaker && recs[i].paragraphId == p;
          if i < |recs| - 1 { assert init[i] == recs[i]; }
        }
        forall p | p in SpeakerParagraphs(init, speaker) ensures p in SpeakerParagraphs(recs, speaker) {
          var i :| 0 <= i < |init| && init[i].speakerId == speaker && init[i].paragraphId == p;
          assert recs[i] == init[i];
        }
      }
      if r.speakerId == speaker && r.paragraphId !in ps then ps + [r.paragraphId] else ps
  }

  /** The paragraph ids with at least one recording by `speaker`, of any status. */
  function SpeakerParagraphs(recs: seq<RecordingRow>, speaker: string): (ps: set<string>)
    ensures forall p :: p in ps <==> exists i :: 0 <= i < |recs| && recs[i].speakerId == speaker && recs[i].paragraphId == p
  {
    set i | 0 <= i < |recs| && recs[i].speakerId == speaker :: recs[i].paragraphId
  }

  /** The index of the first row not yet recorded, or 0 when all are. */
  function NextIndex(rows: seq<CorpusRow>, done: set<string>): (k: nat)
    requires rows != []
    ensures k < |rows|
    ensures rows[k].id !in done ==> forall j :: 0 <= j < k ==> rows[j].id in done
    ensures rows[k].id in done ==> k == 0 && forall j :: 0 <= j < |rows| ==> rows[j].id in done
  {
    match FirstUnrecorded(rows, done, 0)
    case Some(k) => k
    case None => 0
  }

  function FirstUnrecorded(rows: seq<CorpusRow>, done: set<string>, from: nat): (k: Option<nat>)
    requires from <= |rows|
    ensures k.Some? ==> from <= k.value < |rows| && rows[k.value].id !in done
    ensures forall j :: from <= j < |rows| && (k.None? || j < k.value) ==> rows[j].id in done
    decreases |rows| - from
  {
    if from == |rows| then None
    else if rows[from].id !in done then Some(from)
    else FirstUnrecorded(rows, done, from + 1)
  }

  /** The `Paragraph` the client shows. */
  datatype Paragraph = Paragraph(id: string, content: string, difficulty: Difficulty, estimatedDuration: nat, category: string)

  datatype Progress = Progress(total: nat, completed: nat, byCategory: map<string, nat>)

  datatype NextParagraph = NextParagraph(paragraph: Paragraph, progress: Progress)

  /** The TypeError of reading `next.id` when `corpora` is empty. */
  datatype NextError = NoParagraphs

  function ParagraphOf(row: CorpusRow): (p: Paragraph)
    ensures p.id == row.id && p.content == row.content && p.category == row.category
    ensures p.difficulty == DifficultyOf(row.difficultyScore)
    ensures p.estimatedDuration == EstimatedDuration(row.content)
  {
    Paragraph(row.id, row.content, DifficultyOf(row.difficultyScore), EstimatedDuration(row.content), row.category)
  }

  /** The category of the first row with the given id (`rows.find(...)`), if any. */
  function CategoryOf(rows: seq<CorpusRow>, id: string): (c: Option<string>)
    ensures c.None? <==> id !in CorpusIds(rows)
    ensures c.Some? ==> exists i :: 0 <= i < |rows| && rows[i].id == id && rows[i].category == c.value
  {
    if rows == [] then None
    else if rows[0].id == id then Some(rows[0].category)
    else
      assert CorpusIds(rows) == {rows[0].id} + CorpusIds(rows[1..]);
      var c := CategoryOf(rows[1..], id);
      assert c.Some? ==> exists i :: 1 <= i < |rows| && rows[i].id == id && rows[i].category == c.value by {
        if c.Some? {
          var i :| 0 <= i < |rows[1..]| && rows[1..][i].id == id && rows[1..][i].category == c.value;
          assert rows[i + 1] == rows[1..][i];
        }
      }
      c
  }

  /** The number of `recorded` ids whose row has category `cat`. */
  function CountInCategory(rows: seq<CorpusRow>, recorded: seq<string>, cat: string): (n: nat)
    ensures n <= |recorded|
  {
    if recorded == [] then 0
    else
      CountInCategory(rows, recorded[..|recorded| - 1], cat)
      + (if CategoryOf(rows, recorded[|recorded| - 1]) == Some(cat) then 1 else 0)
  }

  /** The categories of the rows. */
  function Categories(rows: seq<CorpusRow>): (cats: set<string>)
    ensures forall c :: c in cats <==> exists i :: 0 <= i < |rows| && rows[i].category == c
  {
    set i | 0 <= i < |rows| :: rows[i].category
  }

  /** One step of the second loop keeps every category's count exact. */
  lemma TallyStep(counts: map<string, nat>, rows: seq<CorpusRow>, recorded: seq<string>, j: nat)
    requires j < |recorded|
    requires counts.Keys == Categories(rows)
    requires forall c :: c in counts ==> counts[c] == CountInCategory(rows, recorded[..j], c)
    ensures var cat := CategoryOf(rows, recorded[j]);
      cat.Some? ==> (cat.value in counts &&
        forall c :: c in counts ==> counts[cat.value := counts[cat.value] + 1][c] == CountInCategory(rows, recorded[..j + 1], c))
    ensures CategoryOf(rows, recorded[j]).None? ==>
      forall c :: c in counts ==> counts[c] == CountInCategory(rows, recorded[..j + 1], c)
  {
    CountStep(rows, recorded, j);
  }

  lemma CountStep(rows: seq<CorpusRow>, recorded: seq<string>, j: nat)
    requires j < |recorded|
    ensures forall c :: (CountInCategory(rows, recorded[..j + 1], c) ==
      CountInCategory(rows, recorded[..j], c) + (if CategoryOf(rows, recorded[j]) == Some(c) then 1 else 0))
  {
    assert recorded[..j + 1][..j] == recorded[..j];
    assert recorded[..j + 1][j] == recorded[j];
  }

  lemma CategoriesStep(rows: seq<CorpusRow>, i: nat)
    requires i < |rows|
    ensures Categories(rows[..i + 1]) == Categories(rows[..i]) + {rows[i].category}
  {
    forall c | c in Categories(rows[..i + 1]) ensures c in Categories(rows[..i]) + {rows[i].category} {
      var k :| 0 <= k < i + 1 && rows[..i + 1][k].category == c;
      if k < i { assert rows[..i][k] == rows[..i + 1][k]; }
    }
    assert rows[..i + 1][i] == rows[i];
  }

  /** The first `byCategory` loop: every category of `rows` starts at 0. */
  method ZeroByCategory(rows: seq<CorpusRow>) returns (byCategory: map<string, nat>)
    ensures byCategory.Keys == Categories(rows)
    ensures forall c :: c in byCategory ==> byCategory[c] == 0
  {
    byCategory := map[];
    var i := 0;
    while i < |rows|
      invariant 0 <= i <= |rows|
      invariant byCategory.Keys == Categories(rows[..i])
      invariant forall c :: c in byCategory ==> byCategory[c] == 0
    {
      CategoriesStep(rows, i);
      if rows[i].category !in byCategory || byCategory[rows[i].category] == 0 {
        byCategory := byCategory[rows[i].category := 0];
      }
      i := i + 1;
    }
    assert rows[..i] == rows;
  }

  /** The two `byCategory` loops: every category starts at 0, then each recorded
      paragraph found in `rows` adds one to its category. */
  method CountByCategory(rows: seq<CorpusRow>, recorded: seq<string>) returns (byCategory: map<string, nat>)
    ensures byCategory.Keys == Categories(rows)
    ensures forall c :: c in byCategory ==> byCategory[c] == CountInCategory(rows, recorded, c)
  {
    byCategory := ZeroByCategory(rows);
    var j := 0;
    while j < |recorded|
      invariant 0 <= j <= |recorded|
      invariant byCategory.Keys == Categories(rows)
      invariant forall c :: c in byCategory ==> byCategory[c] == CountInCategory(rows, recorded[..j], c)
    {
      byCategory := TallyOne(byCategory, rows, recorded, j);
      j := j + 1;
    }
    assert recorded[..j] == recorded;
  }

  /** Counts the `j`-th recorded paragraph in its category, if it has one. */
  method TallyOne(counts: map<string, nat>, rows: seq<CorpusRow>, recorded: seq<string>, j: nat)
    returns (next: map<string, nat>)
    requires j < |recorded|
    requires counts.Keys == Categories(rows)
    requires forall c :: c in counts ==> counts[c] == CountInCategory(rows, recorded[..j], c)
    ensures next.Keys == Categories(rows)
    ensures forall c :: c in next ==> next[c] == CountInCategory(rows, recorded[..j + 1], c)
  {
    TallyStep(counts, rows, recorded, j);
    var cat := CategoryOf(rows, recorded[j]);
    next := counts;
    if cat.Some? {
      next := counts[cat.value := counts[cat.value] + 1];
    }
  }

  /** `getNextParagraph(speakerId)`. */
  method GetNextParagraph(db: Db, speakerId: string) returns (r: Result<NextParagraph, NextError>)
    ensures r.Err? <==> db.corpora == []
    ensures r.Ok? ==>
      var done := SpeakerParagraphs(db.recordings, speakerId);
      && r.value.paragraph == ParagraphOf(db.corpora[NextIndex(db.corpora, done)])
      && r.value.progress.total == |db.corpora|
      && r.value.progress.completed == |done|
      && r.value.progress.byCategory.Keys == Categories(db.corpora)
      && forall c :: c in Categories(db.corpora) ==>
           r.value.progress.byCategory[c] == CountInCategory(db.corpora, RecordedParagraphs(db.recordings, speakerId), c)
  {
    var rows := db.corpora;
    var recorded := RecordedParagraphs(db.recordings, speakerId);
    var done := SpeakerParagraphs(db.recordings, speakerId);
    DistinctCardinality(recorded, done);
    if rows == [] {
      return Err(NoParagraphs);
    }
    var next := rows[NextIndex(rows, done)];
    var byCategory := CountByCategory(rows, recorded);
    r := Ok(NextParagraph(ParagraphOf(next), Progress(|rows|, |recorded|, byCategory)));
  }

  /** A duplicate-free list has as many elements as the set of its elements. */
  lemma {:induction false} DistinctCardinality(xs: seq<string>, s: set<string>)
    requires forall i, j :: 0 <= i < j < |xs| ==> xs[i] != xs[j]
    requires forall x :: x in xs <==> x in s
    ensures |s| == |xs|
  {
    if xs != [] {
      var init := xs[..|xs| - 1];
      var last := xs[|xs| - 1];
      assert forall x :: x in init <==> x in s - {last} by {
        forall x | x in s - {last} ensures x in init {
          var i :| 0 <= i < |xs| && xs[i] == x;
          assert i < |xs| - 1;
          assert init[i] == x;
        }
      }
      DistinctCardinality(init, s - {last});
    } else {
      assert forall x :: x !in s;
    }
  }

  /** The recorded paragraph ids whose row has category `cat`. */
  function RecordedInCategory(rows: seq<CorpusRow>, recorded: seq<string>, cat: string): set<string> {
    set p | p in recorded && CategoryOf(rows, p) == Some(cat)
  }

  /** With duplicate-free ids, each category's count is the number of distinct recorded
      paragraphs of that category. */
  lemma {:induction false} CategoryCountIsDistinct(rows: seq<CorpusRow>, recorded: seq<string>, cat: string)
    requires forall i, j :: 0 <= i < j < |recorded| ==> recorded[i] != recorded[j]
    ensures CountInCategory(rows, recorded, cat) == |RecordedInCategory(rows, recorded, cat)|
  {
    if recorded == [] {
      assert RecordedInCategory(rows, recorded, cat) == {};
    } else {
      var init := recorded[..|recorded| - 1];
      var last := recorded[|recorded| - 1];
      CategoryCountIsDistinct(rows, init, cat);
      assert recorded == init + [last];
      assert last !in init;
      RecordedInCategoryStep(rows, init, last, cat);
    }
  }

  lemma RecordedInCategoryStep(rows: seq<CorpusRow>, init: seq<string>, last: string, cat: string)
    requires last !in init
    ensures var s0 := RecordedInCategory(rows, init, cat);
      |RecordedInCategory(rows, init + [last], cat)| == |s0| + (if CategoryOf(rows, last) == Some(cat) then 1 else 0)
  {
    var s0 := RecordedInCategory(rows, init, cat);
    var s := RecordedInCategory(rows, init + [last], cat);
    assert forall p :: p in init + [last] <==> p in init || p == last;
    if CategoryOf(rows, last) == Some(cat) {
      assert s == s0 + {last};
    } else {
      assert s == s0;
    }
  }

  /** `next` is the first unrecorded paragraph; once every paragraph is recorded it is
      the first row again. */
  lemma NextIsFirstUnrecorded(rows: seq<CorpusRow>, done: set<string>)
    requires rows != []
    ensures var k := NextIndex(rows, done);
      (exists i :: 0 <= i < |rows| && rows[i].id !in done) ==>
        rows[k].id !in done && forall j :: 0 <= j < k ==> rows[j].id in done
    ensures (forall i :: 0 <= i < |rows| ==> rows[i].id in done) ==> NextIndex(rows, done) == 0
  {
  }
}
