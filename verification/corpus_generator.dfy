/** The corpus generator page's list helpers: parsing the feature hints, colouring the
    heatmap, updating candidate statuses after an approve or reject call, and choosing
    the candidates "approve high scores" sends. */
module CorpusGenerator {
  import opened Wrappers
  import opened Strings
  import opened SharedTypes
  import opened Phonetic
  import opened Corpus

  /** `heatmapColor`: each marked kind has its own CSS variable; unmarked is
      transparent. */
  function HeatmapColor(kind: HeatType): (color: string)
    ensures color == "transparent" <==> kind == Normal
  {
    match kind
    case Rusheng => "var(--heat-rusheng)"
    case Zhuzhuang => "var(--heat-zhuzhuang)"
    case Dialect => "var(--heat-dialect)"
    case Normal => "transparent"
  }

  /** The three marked kinds are told apart. */
  lemma HeatmapColorsDistinct(a: HeatType, b: HeatType)
    requires a != b
    ensures HeatmapColor(a) != HeatmapColor(b)
  {
    if a != Normal && b != Normal {
      assert HeatmapColor(a)[6] != HeatmapColor(b)[6] || HeatmapColor(a)[7] != HeatmapColor(b)[7] || HeatmapColor(a)[12] != HeatmapColor(b)[12];
    }
  }

  /** `featureText.split(',').map(trim).filter(Boolean)`. */
  function FeatureList(text: string): (features: seq<string>)
    ensures forall i :: 0 <= i < |features| ==> features[i] != [] && Trim(features[i]) == features[i]
    ensures forall i :: 0 <= i < |features| ==> ',' !in features[i]
  {
    TrimmedNonEmpty(Split(text, ','))
  }

  /** The trimmed parts, empty ones dropped, in order. */
  function TrimmedNonEmpty(parts: seq<string>): (r: seq<string>)
    requires forall i :: 0 <= i < |parts| ==> ',' !in parts[i]
    ensures |r| <= |parts|
    ensures forall i :: 0 <= i < |r| ==> r[i] != [] && Trim(r[i]) == r[i] && ',' !in r[i]
  {
    if parts == [] then []
    else
      var t := Trim(parts[0]);
      var rest := TrimmedNonEmpty(parts[1..]);
      TrimIdempotent(parts[0]);
      TrimKeepsOut(parts[0], ',');
      if t == [] then rest else [t] + rest
  }

  /** Trimming only removes characters. */
  lemma TrimKeepsOut(s: string, c: char)
    requires c !in s
    ensures c !in Trim(s)
  {
    var t := TrimStart(s);
    assert forall k :: 0 <= k < |t| ==> t[k] == s[|s| - |t| + k];
    assert forall k :: 0 <= k < |TrimEnd(t)| ==> TrimEnd(t)[k] == t[k];
  }

  /** The text on each side of a comma is read on its own: the features before it come
      first, then those after it. */
  lemma FeatureListAppend(a: string, b: string)
    ensures FeatureList(a + "," + b) == FeatureList(a) + FeatureList(b)
  {
    SplitAppend(a, b, ',');
    assert a + "," + b == a + [','] + b;
    TrimmedNonEmptyAppend(Split(a, ','), Split(b, ','));
  }

  /** Text without a comma is one feature, trimmed, or none when it is blank. */
  lemma FeatureListNoComma(a: string)
    requires ',' !in a
    ensures FeatureList(a) == if Trim(a) == [] then [] else [Trim(a)]
  {
    SplitNoSeparator(a, ',');
    assert [a][1..] == [];
  }

  lemma {:induction false} TrimmedNonEmptyAppend(x: seq<string>, y: seq<string>)
    requires forall i :: 0 <= i < |x| ==> ',' !in x[i]
    requires forall i :: 0 <= i < |y| ==> ',' !in y[i]
    ensures TrimmedNonEmpty(x + y) == TrimmedNonEmpty(x) + TrimmedNonEmpty(y)
  {
    if x == [] {
      assert x + y == y;
    } else {
      assert (x + y)[0] == x[0] && (x + y)[1..] == x[1..] + y;
      TrimmedNonEmptyAppend(x[1..], y);
    }
  }

  /** A list of clean features joined with commas is read back as the same list. */
  lemma FeatureListRoundTrip(features: seq<string>)
    requires features != []
    requires forall i :: 0 <= i < |features| ==> features[i] != [] && Trim(features[i]) == features[i] && ',' !in features[i]
    ensures FeatureList(Join(features, ',')) == features
  {
    SplitJoin(features, ',');
    CleanPartsKept(features);
  }

  lemma {:induction false} CleanPartsKept(parts: seq<string>)
    requires forall i :: 0 <= i < |parts| ==> parts[i] != [] && Trim(parts[i]) == parts[i] && ',' !in parts[i]
    ensures TrimmedNonEmpty(parts) == parts
  {
    if parts != [] {
      CleanPartsKept(parts[1..]);
      assert [parts[0]] + parts[1..] == parts;
    }
  }

  /** Blank input, or only commas and whitespace, gives no features. */
  lemma BlankFeatureText(text: string)
    requires forall i :: 0 <= i < |text| ==> text[i] == ',' || IsWhitespace(text[i])
    ensures FeatureList(text) == []
  {
    BlankPartsDropped(text);
  }

  lemma {:induction false} BlankPartsDropped(text: string)
    requires forall i :: 0 <= i < |text| ==> text[i] == ',' || IsWhitespace(text[i])
    ensures forall i :: 0 <= i < |Split(text, ',')| ==> Trim(Split(text, ',')[i]) == []
    ensures TrimmedNonEmpty(Split(text, ',')) == []
  {
    var parts := Split(text, ',');
    forall i | 0 <= i < |parts| ensures Trim(parts[i]) == [] {
      AllWhitespacePart(text, i);
    }
    AllBlankDropped(parts);
  }

  lemma {:induction false} AllBlankDropped(parts: seq<string>)
    requires forall i :: 0 <= i < |parts| ==> ',' !in parts[i] && Trim(parts[i]) == []
    ensures TrimmedNonEmpty(parts) == []
  {
    if parts != [] {
      AllBlankDropped(parts[1..]);
    }
  }

  /** Each piece of a split of commas and whitespace is whitespace only. */
  lemma AllWhitespacePart(text: string, i: nat)
    requires forall k :: 0 <= k < |text| ==> text[k] == ',' || IsWhitespace(text[k])
    requires i < |Split(text, ',')|
    ensures Trim(Split(text, ',')[i]) == []
  {
    var parts := Split(text, ',');
    JoinSplit(text, ',');
    PartsAreInfixes(parts, ',', i);
    var p := parts[i];
    forall k | 0 <= k < |p| ensures IsWhitespace(p[k]) {
      assert p[k] in Join(parts, ',');
      assert p[k] != ',';
    }
  }

  /** Every piece occurs in the joined text. */
  lemma {:induction false} PartsAreInfixes(parts: seq<string>, sep: char, i: nat)
    requires i < |parts|
    ensures forall c :: c in parts[i] ==> c in Join(parts, sep)
  {
    if |parts| > 1 {
      if i > 0 {
        PartsAreInfixes(parts[1..], sep, i - 1);
      }
    }
  }

  // ---------------------------------------------------------------------------------
  // Candidate statuses

  /** The list after an approve or reject call for `ids`: unchanged when the request
      failed, otherwise every candidate whose id is listed takes `status`. */
  function AfterReview(candidates: seq<GeneratedSentence>, ids: seq<string>, succeeded: bool,
                       status: CandidateStatus): (r: seq<GeneratedSentence>)
    ensures |r| == |candidates|
    ensures !succeeded ==> r == candidates
    ensures succeeded ==> forall i :: 0 <= i < |r| ==>
      r[i] == if candidates[i].id in ids then candidates[i].(status := status) else candidates[i]
  {
    if !succeeded then candidates
    else seq(|candidates|, i requires 0 <= i < |candidates| =>
           (if candidates[i].id in ids then candidates[i].(status := status) else candidates[i]))
  }

  /** After a successful review exactly the listed candidates carry the new status
      among those that did not already have it; every other field is unchanged. */
  lemma ReviewChangesOnlyStatus(candidates: seq<GeneratedSentence>, ids: seq<string>, status: CandidateStatus)
    ensures var r := AfterReview(candidates, ids, true, status);
      forall i :: 0 <= i < |r| ==>
        && (candidates[i].id in ids ==> r[i].status == status)
        && (candidates[i].id !in ids ==> r[i] == candidates[i])
        && r[i].(status := candidates[i].status) == candidates[i]
  {
  }

  /** Reviewing the same ids twice changes nothing the second time. */
  lemma ReviewIdempotent(candidates: seq<GeneratedSentence>, ids: seq<string>, status: CandidateStatus)
    ensures var once := AfterReview(candidates, ids, true, status);
      AfterReview(once, ids, true, status) == once
  {
  }

  /** The ids of the candidates scoring at least 60, in list order. */
  function HighQualityIds(candidates: seq<GeneratedSentence>): (ids: seq<string>)
    ensures |ids| == CountHighQuality(candidates)
  {
    if candidates == [] then []
    else (if CandidateScore(candidates[0]) >= HighQualityScore then [candidates[0].id] else []) + HighQualityIds(candidates[1..])
  }

  /** Candidates are judged one by one, keeping list order and repeats. */
  lemma {:induction false} HighQualityIdsAppend(a: seq<GeneratedSentence>, b: seq<GeneratedSentence>)
    ensures HighQualityIds(a + b) == HighQualityIds(a) + HighQualityIds(b)
  {
    if a == [] {
      assert a + b == b;
    } else {
      assert (a + b)[0] == a[0] && (a + b)[1..] == a[1..] + b;
      HighQualityIdsAppend(a[1..], b);
    }
  }

  lemma HighQualityIdsSingle(c: GeneratedSentence)
    ensures HighQualityIds([c]) == if CandidateScore(c) >= HighQualityScore then [c.id] else []
  {
    assert [c][1..] == [];
  }

  /** `approveHighQuality`: the ids to approve, or `None` when no candidate qualifies
      and no request is sent. */
  function ApproveHighQuality(candidates: seq<GeneratedSentence>): (request: Option<seq<string>>)
    ensures request.None? <==> CountHighQuality(candidates) == 0
    ensures request.Some? ==> request.value == HighQualityIds(candidates) && request.value != []
  {
    var ids := HighQualityIds(candidates);
    if ids == [] then None else Some(ids)
  }

  /** An id is selected exactly when some candidate with that id scores at least 60. */
  lemma {:induction false} HighQualityIdsExact(candidates: seq<GeneratedSentence>)
    ensures forall id :: id in HighQualityIds(candidates) <==>
      exists i :: 0 <= i < |candidates| && candidates[i].id == id && CandidateScore(candidates[i]) >= HighQualityScore
  {
    if candidates != [] {
      var rest := candidates[1..];
      HighQualityIdsExact(rest);
      forall id | (exists i :: 0 <= i < |candidates| && candidates[i].id == id && CandidateScore(candidates[i]) >= HighQualityScore)
        ensures id in HighQualityIds(candidates)
      {
        var i :| 0 <= i < |candidates| && candidates[i].id == id && CandidateScore(candidates[i]) >= HighQualityScore;
        if i > 0 {
          assert rest[i - 1] == candidates[i];
        }
      }
      forall id | id in HighQualityIds(rest)
        ensures exists i :: 0 <= i < |candidates| && candidates[i].id == id && CandidateScore(candidates[i]) >= HighQualityScore
      {
        var i :| 0 <= i < |rest| && rest[i].id == id && CandidateScore(rest[i]) >= HighQualityScore;
        assert candidates[i + 1] == rest[i];
      }
    }
  }

  /** On a freshly generated (ranked) list, "approve high scores" sends the ids of the
      first `summary.highQuality` candidates. */
  lemma {:induction false} RankedHighQualityIsPrefix(candidates: seq<GeneratedSentence>)
    requires NonIncreasing(candidates)
    ensures var n := CountHighQuality(candidates);
      HighQualityIds(candidates) == seq(n, i requires 0 <= i < n => candidates[i].id)
  {
    var n := CountHighQuality(candidates);
    HighQualityIsPrefix(candidates);
    if candidates != [] {
      var rest := candidates[1..];
      RankedHighQualityIsPrefix(rest);
      var m := CountHighQuality(rest);
      if CandidateScore(candidates[0]) >= HighQualityScore {
        assert HighQualityIds(candidates) == [candidates[0].id] + HighQualityIds(rest);
      } else {
        assert n == 0;
        HighQualityIsPrefix(rest);
        assert HighQualityIds(candidates) == HighQualityIds(rest);
      }
    }
  }
}
