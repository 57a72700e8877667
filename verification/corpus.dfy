/** The corpus-generation workflow: a request names an OpenAI-compatible endpoint; the
    reply's JSON is unwrapped into candidate sentences, each scored by the phonetic
    analyser, ranked by score and staged in `generated_corpus` as `pending`.  Approving
    copies staged sentences into `corpora`; rejecting only marks them. */
module Corpus {
  import opened Wrappers
  import opened Strings
  import opened SharedTypes
  import opened Phonetic
  import opened Database

  // ---------------------------------------------------------------------------------
  // Request helpers

  const FeaturePrefix: string := "必须包含音系特征："

  /** The feature line of the user prompt: empty without features, otherwise the
      features joined by 、 after a fixed prefix. */
  function FeatureLine(features: Option<seq<string>>): (line: string)
    ensures line == [] <==> features.None? || features.value == []
    ensures line != [] ==> StartsWith(line, FeaturePrefix)
  {
    match features
    case None => []
    case Some(fs) => if fs == [] then [] else FeaturePrefix + Join(fs, '、')
  }

  /** The features can be read back from the feature line when none contains 、. */
  lemma FeatureLineReadsBack(features: seq<string>)
    requires features != []
    requires forall i :: 0 <= i < |features| ==> '、' !in features[i]
    ensures var line := FeatureLine(Some(features));
      Split(line[|FeaturePrefix|..], '、') == features
  {
    var line := FeatureLine(Some(features));
    assert line[|FeaturePrefix|..] == Join(features, '、');
    SplitJoin(features, '、');
  }

  const VersionPath: string := "/v1"
  const CompletionsPath: string := "/chat/completions"
  const ChatPath: string := VersionPath + CompletionsPath

  /** `normalizeEndpoint`: trim, drop trailing slashes, and complete the path to
      `/v1/chat/completions` (adding only `/chat/completions` after a trailing `/v1`). */
  function NormalizeEndpoint(endpoint: string): (url: string)
    ensures EndsWith(url, ChatPath)
  {
    var trimmed := DropTrailing(Trim(endpoint), '/');
    CompletedPath(trimmed);
    if EndsWith(trimmed, VersionPath) then trimmed + CompletionsPath else trimmed + ChatPath
  }

  lemma CompletedPath(trimmed: string)
    ensures EndsWith(trimmed, VersionPath) ==> EndsWith(trimmed + CompletionsPath, ChatPath)
    ensures EndsWith(trimmed + ChatPath, ChatPath)
  {
    if EndsWith(trimmed, VersionPath) {
      EndsWithExtended(trimmed, VersionPath, CompletionsPath);
    }
    EndsWithExtended(trimmed, [], ChatPath);
  }

  lemma EndsWithExtended(s: string, suffix: string, more: string)
    requires EndsWith(s, suffix)
    ensures EndsWith(s + more, suffix + more)
  {
    assert (s + more)[|s + more| - |suffix + more|..] == s[|s| - |suffix|..] + more;
  }

  /** The base URL is kept: the result is the trimmed, slash-stripped endpoint, with
      `/v1` between it and `/chat/completions` unless it already ends with `/v1`. */
  lemma NormalizeEndpointKeepsBase(endpoint: string)
    ensures var trimmed := DropTrailing(Trim(endpoint), '/');
      var url := NormalizeEndpoint(endpoint);
      && StartsWith(url, trimmed)
      && (EndsWith(trimmed, VersionPath) ==> url == trimmed + CompletionsPath)
      && (!EndsWith(trimmed, VersionPath) ==> url == trimmed + VersionPath + CompletionsPath)
  {
    var trimmed := DropTrailing(Trim(endpoint), '/');
    if EndsWith(trimmed, VersionPath) {
      StartsWithAppended(trimmed, CompletionsPath);
    } else {
      StartsWithAppended(trimmed, ChatPath);
      ChatPathSplit(trimmed);
    }
  }

  lemma ChatPathSplit(s: string)
    ensures s + VersionPath + CompletionsPath == s + ChatPath
  {
  }

  lemma StartsWithAppended(s: string, more: string)
    ensures StartsWith(s + more, s)
  {
    assert (s + more)[..|s|] == s;
  }

  /** An endpoint given with or without `/v1`, and with or without trailing slashes and
      surrounding whitespace, is called at the same URL. */
  lemma VersionSuffixOptional(base: string, slashes: string, pad: string)
    requires base != [] && !IsWhitespace(base[0]) && !IsWhitespace(base[|base| - 1]) && base[|base| - 1] != '/'
    requires !EndsWith(base, VersionPath)
    requires forall i :: 0 <= i < |slashes| ==> slashes[i] == '/'
    requires forall i :: 0 <= i < |pad| ==> IsWhitespace(pad[i])
    ensures NormalizeEndpoint(pad + (base + VersionPath + slashes) + pad) == NormalizeEndpoint(base)
  {
    var e := pad + (base + VersionPath + slashes) + pad;
    CleanedVersioned(base, slashes, pad);
    VersionedNormalized(e, base);
    CleanBase(base);
  }

  /** An endpoint that cleans to `base + "/v1"` is completed to `base + ChatPath`. */
  lemma VersionedNormalized(e: string, base: string)
    requires DropTrailing(Trim(e), '/') == base + VersionPath
    ensures NormalizeEndpoint(e) == base + ChatPath
  {
    var t := base + VersionPath;
    assert EndsWith(t, VersionPath) by { assert t[|t| - |VersionPath|..] == VersionPath; }
    NormalizeEndpointKeepsBase(e);
    ChatPathSplit(base);
  }

  /** Trimming and dropping slashes leaves `base + "/v1"`. */
  lemma CleanedVersioned(base: string, slashes: string, pad: string)
    requires base != [] && !IsWhitespace(base[0])
    requires forall i :: 0 <= i < |slashes| ==> slashes[i] == '/'
    requires forall i :: 0 <= i < |pad| ==> IsWhitespace(pad[i])
    ensures DropTrailing(Trim(pad + (base + VersionPath + slashes) + pad), '/') == base + VersionPath
  {
    var t := base + VersionPath;
    var u := t + slashes;
    assert u[0] == base[0];
    assert t[|t| - 1] == '1';
    LastNotWhitespace(t, slashes);
    TrimAround(pad, u);
    DropSlashes(t, slashes);
  }

  lemma LastNotWhitespace(t: string, slashes: string)
    requires t != [] && t[|t| - 1] == '1'
    requires forall i :: 0 <= i < |slashes| ==> slashes[i] == '/'
    ensures !IsWhitespace((t + slashes)[|t + slashes| - 1])
  {
  }

  /** A base without edge whitespace, trailing slash or `/v1` gets the whole path. */
  lemma CleanBase(base: string)
    requires base != [] && !IsWhitespace(base[0]) && !IsWhitespace(base[|base| - 1]) && base[|base| - 1] != '/'
    requires !EndsWith(base, VersionPath)
    ensures NormalizeEndpoint(base) == base + ChatPath
  {
    assert Trim(base) == base;
    DropTrailingNone(base);
  }

  lemma {:induction false} DropSlashes(t: string, s: string)
    requires t != [] && t[|t| - 1] != '/'
    requires forall i :: 0 <= i < |s| ==> s[i] == '/'
    ensures DropTrailing(t + s, '/') == t
    decreases |s|
  {
    if s == [] {
      assert t + s == t;
    } else {
      assert (t + s)[..|t + s| - 1] == t + s[..|s| - 1];
      DropSlashes(t, s[..|s| - 1]);
    }
  }

  lemma DropTrailingNone(t: string)
    requires t != [] && t[|t| - 1] != '/'
    ensures DropTrailing(t, '/') == t
  {
  }

  /** Whitespace around a string without edge whitespace is trimmed away. */
  lemma TrimAround(pad: string, t: string)
    requires forall i :: 0 <= i < |pad| ==> IsWhitespace(pad[i])
    requires t != [] && !IsWhitespace(t[0]) && !IsWhitespace(t[|t| - 1])
    ensures Trim(pad + t + pad) == t
  {
    var u := pad + t + pad;
    assert u == pad + (t + pad);
    TrimStartPad(pad, t + pad);
    assert TrimStart(u) == t + pad;
    TrimEndPad(t, pad);
  }

  lemma {:induction false} TrimStartPad(pad: string, t: string)
    requires forall i :: 0 <= i < |pad| ==> IsWhitespace(pad[i])
    requires t != [] && !IsWhitespace(t[0])
    ensures TrimStart(pad + t) == t
  {
    if pad == [] {
      assert pad + t == t;
    } else {
      assert (pad + t)[1..] == pad[1..] + t;
      TrimStartPad(pad[1..], t);
    }
  }

  lemma {:induction false} TrimEndPad(t: string, pad: string)
    requires forall i :: 0 <= i < |pad| ==> IsWhitespace(pad[i])
    requires t != [] && !IsWhitespace(t[|t| - 1])
    ensures TrimEnd(t + pad) == t
    decreases |pad|
  {
    if pad == [] {
      assert t + pad == t;
    } else {
      assert (t + pad)[..|t + pad| - 1] == t + pad[..|pad| - 1];
      TrimEndPad(t, pad[..|pad| - 1]);
    }
  }

  // ---------------------------------------------------------------------------------
  // Unwrapping the reply

  /** A parsed JSON value. */
  datatype Json =
    | JNull
    | JBool(b: bool)
    | JNum(n: real)
    | JStr(s: string)
    | JArr(items: seq<Json>)
    | JObj(fields: map<string, Json>)

  const Fence: string := "```"

  predicate IsAsciiLetter(c: char) {
    'a' <= c <= 'z' || 'A' <= c <= 'Z'
  }

  /** `s.replace(/^```[a-zA-Z]*\n?/, '')` for a string that starts with the fence: the
      fence, the whole run of ASCII letters after it and one line break, if one follows
      the run, are removed. */
  function StripOpeningFence(s: string): (r: string)
    requires StartsWith(s, Fence)
    ensures |r| <= |s| - |Fence| && r == s[|s| - |r|..]
    ensures var cut := |s| - |r|;
      if cut > |Fence| && s[cut - 1] == '\n' then
        forall k :: |Fence| <= k < cut - 1 ==> IsAsciiLetter(s[k])
      else
        (forall k :: |Fence| <= k < cut ==> IsAsciiLetter(s[k])) &&
        (r == [] || (!IsAsciiLetter(r[0]) && r[0] != '\n'))
  {
    var tagEnd := LetterRunEnd(s, |Fence|);
    if tagEnd < |s| && s[tagEnd] == '\n' then s[tagEnd + 1..] else s[tagEnd..]
  }

  function LetterRunEnd(s: string, from: nat): (e: nat)
    requires from <= |s|
    ensures from <= e <= |s|
    ensures forall k :: from <= k < e ==> IsAsciiLetter(s[k])
    ensures e == |s| || !IsAsciiLetter(s[e])
    decreases |s| - from
  {
    if from < |s| && IsAsciiLetter(s[from]) then LetterRunEnd(s, from + 1) else from
  }

  /** `s.replace(/```$/, '')`. */
  function StripClosingFence(s: string): (r: string)
    ensures EndsWith(s, Fence) ==> r + Fence == s
    ensures !EndsWith(s, Fence) ==> r == s
  {
    if EndsWith(s, Fence) then s[..|s| - |Fence|] else s
  }

  /** The text `extractJson` hands to `JSON.parse`; it has no surrounding whitespace. */
  function Unfence(content: string): (r: string)
    ensures r == [] || (!IsWhitespace(r[0]) && !IsWhitespace(r[|r| - 1]))
  {
    var trimmed := Trim(content);
    if StartsWith(trimmed, Fence) then Trim(StripClosingFence(StripOpeningFence(trimmed))) else trimmed
  }

  /** `extractJson`, with `JSON.parse` as the parameter `parse` (`None` when it throws). */
  function ExtractJson(content: string, parse: string -> Option<Json>): Option<Json> {
    parse(Unfence(content))
  }

  /** Unfenced content is parsed as it is, after trimming. */
  lemma UnfencedIsTrimmed(content: string)
    requires !StartsWith(Trim(content), Fence)
    ensures Unfence(content) == Trim(content)
  {
  }

  /** A fenced block with a language tag gives back its body. */
  lemma FenceRoundTrip(tag: string, body: string)
    requires forall i :: 0 <= i < |tag| ==> IsAsciiLetter(tag[i])
    requires body != [] && !IsWhitespace(body[0]) && !IsWhitespace(body[|body| - 1])
    ensures Unfence(Fence + tag + "\n" + body + "\n" + Fence) == body
  {
    var s := Fence + tag + "\n" + body + "\n" + Fence;
    var rest := body + "\n" + Fence;
    assert s == Fence + tag + "\n" + rest;
    OpeningFenceStripped(s, tag, rest);
    ClosingFenceStripped(body);
    TrimNewline(body);
    UnfenceSteps(s, rest, body);
  }

  lemma UnfenceSteps(s: string, rest: string, body: string)
    requires Trim(s) == s && StartsWith(s, Fence) && StripOpeningFence(s) == rest
    requires StripClosingFence(rest) == body + "\n" && Trim(body + "\n") == body
    ensures Unfence(s) == body
  {
  }

  lemma ClosingFenceStripped(body: string)
    ensures StripClosingFence(body + "\n" + Fence) == body + "\n"
  {
    var rest := body + "\n" + Fence;
    assert rest[|rest| - 3..] == Fence;
    assert rest[..|rest| - 3] == body + "\n";
  }

  lemma TrimNewline(body: string)
    requires body != [] && !IsWhitespace(body[0]) && !IsWhitespace(body[|body| - 1])
    ensures Trim(body + "\n") == body
  {
    assert TrimStart(body + "\n") == body + "\n";
    TrimEndPad(body, "\n");
  }

  /** The opening fence and its tag line are removed. */
  lemma OpeningFenceStripped(s: string, tag: string, rest: string)
    requires forall i :: 0 <= i < |tag| ==> IsAsciiLetter(tag[i])
    requires rest != [] && rest[|rest| - 1] == '`'
    requires s == Fence + tag + "\n" + rest
    ensures Trim(s) == s && StartsWith(s, Fence)
    ensures StripOpeningFence(s) == rest
  {
    assert s[0] == '`' && s[|s| - 1] == rest[|rest| - 1];
    assert s[..3] == Fence;
    assert forall k :: 3 <= k < 3 + |tag| ==> s[k] == tag[k - 3];
    assert s[3 + |tag|] == '\n';
    LetterRunFixed(s, 3, 3 + |tag|);
    assert s[3 + |tag| + 1..] == rest;
  }

  lemma {:induction false} LetterRunFixed(s: string, from: nat, e: nat)
    requires from <= e < |s|
    requires forall k :: from <= k < e ==> IsAsciiLetter(s[k])
    requires !IsAsciiLetter(s[e])
    ensures LetterRunEnd(s, from) == e
    decreases e - from
  {
    if from < e {
      LetterRunFixed(s, from + 1, e);
    }
  }

  // ---------------------------------------------------------------------------------
  // Candidates

  /** A staged sentence (`GeneratedSentence`). */
  datatype GeneratedSentence = GeneratedSentence(
    id: string,
    text: string,
    features: Option<seq<Json>>,
    analysis: Analysis,
    heatmap: seq<HeatCell>,
    status: CandidateStatus,
    topic: string,
    difficulty: Difficulty)

  /** `Array.isArray(parsed) ? parsed : parsed.sentences ?? []`; `None` is the
      TypeError of reading `.sentences` of null or of mapping over a non-array. */
  function RawSentences(parsed: Json): Option<seq<Json>> {
    match parsed
    case JArr(items) => Some(items)
    case JNull => None
    case JObj(fields) =>
      if "sentences" !in fields || fields["sentences"] == JNull then Some([])
      else if fields["sentences"].JArr? then Some(fields["sentences"].items)
      else None
    case _ => Some([])
  }

  /** The text of an item: the item itself if it is a non-empty string, or its `text`
      field if that is a non-empty string. */
  function ItemText(item: Json): (t: Option<string>)
    ensures t.Some? ==> t.value != []
    ensures t.Some? ==> (item == JStr(t.value) ||
      (item.JObj? && "text" in item.fields && item.fields["text"] == JStr(t.value)))
    ensures item.JStr? && item.s != [] ==> t == Some(item.s)
    ensures item.JObj? && "text" in item.fields && item.fields["text"].JStr? && item.fields["text"].s != [] ==>
      t == Some(item.fields["text"].s)
  {
    match item
    case JStr(s) => if s != [] then Some(s) else None
    case JObj(fields) =>
      if "text" in fields && fields["text"].JStr? && fields["text"].s != [] then Some(fields["text"].s) else None
    case _ => None
  }

  function ItemFeatures(item: Json): Option<seq<Json>> {
    match item
    case JObj(fields) => if "features" in fields && fields["features"].JArr? then Some(fields["features"].items) else None
    case _ => None
  }

  /** A kept item: its text and, for an object, its `features` array. */
  datatype KeptItem = KeptItem(text: string, features: Option<seq<Json>>)

  /** The items that have a usable text, in order. */
  function Kept(items: seq<Json>): (kept: seq<KeptItem>)
    ensures |kept| <= |items|
    ensures forall k :: 0 <= k < |kept| ==> kept[k].text != []
  {
    if items == [] then []
    else
      var rest := Kept(items[1..]);
      match ItemText(items[0])
      case None => rest
      case Some(t) => [KeptItem(t, ItemFeatures(items[0]))] + rest
  }

  /** Filtering distributes over concatenation: each item is kept or dropped on its
      own, whatever surrounds it. */
  lemma {:induction false} KeptAppend(a: seq<Json>, b: seq<Json>)
    ensures Kept(a + b) == Kept(a) + Kept(b)
  {
    if a == [] {
      assert a + b == b;
    } else {
      assert (a + b)[0] == a[0] && (a + b)[1..] == a[1..] + b;
      KeptAppend(a[1..], b);
    }
  }

  /** An item without a usable text contributes nothing; one with a text contributes
      exactly its text. */
  lemma KeptSingle(item: Json)
    ensures Kept([item]) == match ItemText(item)
      case None => []
      case Some(t) => [KeptItem(t, ItemFeatures(item))]
  {
    assert [item][1..] == [];
  }

  /** The kept items as candidates, in order: the k-th gets the k-th fresh id, its
      analysis and heatmap, and starts `pending`. */
  function Candidates(kept: seq<KeptItem>, topic: string, difficulty: Difficulty,
                      freshId: nat -> string): (cs: seq<GeneratedSentence>)
    ensures |cs| == |kept|
    ensures forall i :: 0 <= i < |cs| ==>
      && cs[i].id == freshId(i) && cs[i].text == kept[i].text && cs[i].features == kept[i].features
      && cs[i].analysis == Analyze(kept[i].text) && cs[i].status == Pending
      && cs[i].topic == topic && cs[i].difficulty == difficulty
  {
    seq(|kept|, i requires 0 <= i < |kept| =>
      GeneratedSentence(freshId(i), kept[i].text, kept[i].features, Analyze(kept[i].text), Heatmap(kept[i].text),
                        Pending, topic, difficulty))
  }

  /** Strings and `{text}` objects are both read; empty texts and other values are
      dropped. */
  lemma ItemsKept(s: string, other: Json)
    ensures ItemText(JStr(s)) == (if s == [] then None else Some(s))
    ensures ItemText(JObj(map["text" := JStr(s)])) == (if s == [] then None else Some(s))
    ensures other.JNum? || other.JBool? || other.JNull? || other.JArr? ==> ItemText(other).None?
  {
  }

  // ---------------------------------------------------------------------------------
  // Ranking

  function CandidateScore(c: GeneratedSentence): int {
    c.analysis.score
  }

  /** Inserts `x` before the first element whose score is not higher, so that among
      equal scores the earlier element stays first. */
  function InsertByScore(x: GeneratedSentence, xs: seq<GeneratedSentence>): (r: seq<GeneratedSentence>)
    ensures |r| == |xs| + 1
    ensures multiset(r) == multiset(xs) + multiset{x}
  {
    if xs == [] then [x]
    else if CandidateScore(xs[0]) > CandidateScore(x) then
      assert xs == [xs[0]] + xs[1..];
      [xs[0]] + InsertByScore(x, xs[1..])
    else [x] + xs
  }

  /** `analyzed.sort((a, b) => b.analysis.score - a.analysis.score)`: a stable sort by
      non-increasing score. */
  function SortByScore(xs: seq<GeneratedSentence>): (r: seq<GeneratedSentence>)
    ensures multiset(r) == multiset(xs)
  {
    if xs == [] then []
    else
      assert xs == [xs[0]] + xs[1..];
      InsertByScore(xs[0], SortByScore(xs[1..]))
  }

  predicate NonIncreasing(xs: seq<GeneratedSentence>) {
    forall i, j :: 0 <= i < j < |xs| ==> CandidateScore(xs[i]) >= CandidateScore(xs[j])
  }

  lemma {:induction false} InsertKeepsOrder(x: GeneratedSentence, xs: seq<GeneratedSentence>)
    requires NonIncreasing(xs)
    ensures NonIncreasing(InsertByScore(x, xs))
  {
    if xs != [] && CandidateScore(xs[0]) > CandidateScore(x) {
      InsertKeepsOrder(x, xs[1..]);
      InsertBounded(x, xs[1..], CandidateScore(xs[0]));
      var r := InsertByScore(x, xs[1..]);
      assert InsertByScore(x, xs) == [xs[0]] + r;
    }
  }

  /** Inserting an element no higher than a bound keeps every score within it. */
  lemma {:induction false} InsertBounded(x: GeneratedSentence, xs: seq<GeneratedSentence>, bound: int)
    requires CandidateScore(x) <= bound
    requires forall k :: 0 <= k < |xs| ==> CandidateScore(xs[k]) <= bound
    ensures forall k :: 0 <= k < |InsertByScore(x, xs)| ==> CandidateScore(InsertByScore(x, xs)[k]) <= bound
  {
    if xs != [] && CandidateScore(xs[0]) > CandidateScore(x) {
      InsertBounded(x, xs[1..], bound);
      assert InsertByScore(x, xs) == [xs[0]] + InsertByScore(x, xs[1..]);
    }
  }

  /** The ranked list is in non-increasing score order (and, by its contract, a
      permutation of the candidates). */
  lemma {:induction false} SortIsOrdered(xs: seq<GeneratedSentence>)
    ensures NonIncreasing(SortByScore(xs))
    ensures multiset(SortByScore(xs)) == multiset(xs)
  {
    if xs != [] {
      SortIsOrdered(xs[1..]);
      InsertKeepsOrder(xs[0], SortByScore(xs[1..]));
    }
  }

  /** The candidates with score `s`, in order. */
  function WithScore(xs: seq<GeneratedSentence>, s: int): seq<GeneratedSentence> {
    if xs == [] then [] else (if CandidateScore(xs[0]) == s then [xs[0]] else []) + WithScore(xs[1..], s)
  }

  lemma {:induction false} InsertStable(x: GeneratedSentence, xs: seq<GeneratedSentence>, s: int)
    ensures WithScore(InsertByScore(x, xs), s) == (if CandidateScore(x) == s then [x] else []) + WithScore(xs, s)
  {
    var mine := if CandidateScore(x) == s then [x] else [];
    if xs == [] {
      WithScoreCons(x, [], s);
      assert [x] + [] == [x];
    } else if CandidateScore(xs[0]) > CandidateScore(x) {
      var r := InsertByScore(x, xs[1..]);
      var rest := WithScore(xs[1..], s);
      InsertStable(x, xs[1..], s);
      assert InsertByScore(x, xs) == [xs[0]] + r;
      WithScoreCons(xs[0], r, s);
      WithScoreCons(xs[0], xs[1..], s);
      assert [xs[0]] + xs[1..] == xs;
      // x goes only after elements scoring more than x, so at most one of the two
      // heads scores s
      SwapAroundEmpty(if CandidateScore(xs[0]) == s then [xs[0]] else [], mine, rest);
    } else {
      WithScoreCons(x, xs, s);
    }
  }

  lemma SwapAroundEmpty(a: seq<GeneratedSentence>, b: seq<GeneratedSentence>, w: seq<GeneratedSentence>)
    requires a == [] || b == []
    ensures a + (b + w) == b + (a + w)
  {
    if a == [] {
      assert [] + (b + w) == b + w == b + ([] + w);
    } else {
      assert a + ([] + w) == a + w == [] + (a + w);
    }
  }

  lemma WithScoreCons(y: GeneratedSentence, r: seq<GeneratedSentence>, s: int)
    ensures WithScore([y] + r, s) == (if CandidateScore(y) == s then [y] else []) + WithScore(r, s)
  {
    assert ([y] + r)[1..] == r;
  }

  /** The sort is stable: for every score, the candidates with that score keep their
      relative order. */
  lemma {:induction false} SortIsStable(xs: seq<GeneratedSentence>, s: int)
    ensures WithScore(SortByScore(xs), s) == WithScore(xs, s)
  {
    if xs != [] {
      SortIsStable(xs[1..], s);
      InsertStable(xs[0], SortByScore(xs[1..]), s);
    }
  }

  // ---------------------------------------------------------------------------------
  // Summary

  const HighQualityScore: int := 60

  function CountHighQuality(xs: seq<GeneratedSentence>): (n: nat)
    ensures n <= |xs|
  {
    if xs == [] then 0 else (if CandidateScore(xs[0]) >= HighQualityScore then 1 else 0) + CountHighQuality(xs[1..])
  }

  datatype Summary = Summary(total: nat, highQuality: nat)

  function Summarize(xs: seq<GeneratedSentence>): (s: Summary)
    ensures s.total == |xs| && s.highQuality <= s.total
  {
    Summary(|xs|, CountHighQuality(xs))
  }

  lemma {:induction false} CountAppend(a: seq<GeneratedSentence>, b: seq<GeneratedSentence>)
    ensures CountHighQuality(a + b) == CountHighQuality(a) + CountHighQuality(b)
  {
    if a == [] {
      assert a + b == b;
    } else {
      CountAppend(a[1..], b);
      assert (a + b)[1..] == a[1..] + b;
    }
  }

  lemma {:induction false} CountInsert(x: GeneratedSentence, xs: seq<GeneratedSentence>)
    ensures CountHighQuality(InsertByScore(x, xs)) == CountHighQuality([x]) + CountHighQuality(xs)
  {
    if xs != [] && CandidateScore(xs[0]) > CandidateScore(x) {
      CountInsert(x, xs[1..]);
      assert ([xs[0]] + InsertByScore(x, xs[1..]))[1..] == InsertByScore(x, xs[1..]);
    } else {
      CountAppend([x], xs);
    }
  }

  /** Ranking does not change the summary. */
  lemma {:induction false} SummaryIgnoresOrder(xs: seq<GeneratedSentence>)
    ensures Summarize(SortByScore(xs)) == Summarize(xs)
  {
    if xs != [] {
      SummaryIgnoresOrder(xs[1..]);
      CountInsert(xs[0], SortByScore(xs[1..]));
      CountAppend([xs[0]], xs[1..]);
      assert [xs[0]] + xs[1..] == xs;
    }
  }

  /** In the ranked list the high-quality candidates come first: they are exactly the
      first `highQuality` entries. */
  lemma {:induction false} HighQualityIsPrefix(xs: seq<GeneratedSentence>)
    requires NonIncreasing(xs)
    ensures forall i :: 0 <= i < |xs| ==> (CandidateScore(xs[i]) >= HighQualityScore <==> i < CountHighQuality(xs))
  {
    if xs != [] {
      var rest := xs[1..];
      HighQualityIsPrefix(rest);
      if CandidateScore(xs[0]) < HighQualityScore && rest != [] {
        assert CandidateScore(rest[0]) <= CandidateScore(xs[0]);
        assert CountHighQuality(rest) == 0;
      }
      forall i | 0 < i < |xs| ensures xs[i] == rest[i - 1] {
      }
    }
  }

  // ---------------------------------------------------------------------------------
  // The generate handler

  datatype GenerationRequest = GenerationRequest(
    endpoint: Option<string>,
    model: Option<string>,
    topic: string,
    difficulty: Difficulty,
    specificFeatures: Option<seq<string>>)

  /** What the endpoint answered: a non-2xx status with its body, or a 2xx reply with
      the first choice's message content (`None` when the path is missing). */
  datatype LlmReply = HttpFailure(detail: string) | Replied(content: Option<string>)

  /** 400 for a missing endpoint or model; 500 for the other four. `Crashed` is the
      TypeError of an unexpected JSON shape; `InsertFailed` a staging insert whose id
      is already taken. */
  datatype GenerateError = MissingConfig | LlmFailed(detail: string) | NoContent | JsonParseFailed | Crashed | InsertFailed

  datatype GenerationResponse = GenerationResponse(data: seq<GeneratedSentence>, summary: Summary)

  predicate Blank(s: Option<string>) {
    s.None? || s.value == []
  }

  /** Everything the handler does before touching the database: validation, the reply,
      JSON extraction, candidate building and ranking. */
  function Ranked(req: GenerationRequest, reply: LlmReply, parse: string -> Option<Json>,
                  freshId: nat -> string): Result<seq<GeneratedSentence>, GenerateError>
  {
    if Blank(req.endpoint) || Blank(req.model) then Err(MissingConfig)
    else match reply
      case HttpFailure(detail) => Err(LlmFailed(detail))
      case Replied(content) =>
        if Blank(content) then Err(NoContent)
        else match ExtractJson(content.value, parse)
          case None => Err(JsonParseFailed)
          case Some(parsed) =>
            match RawSentences(parsed)
            case None => Err(Crashed)
            case Some(items) => Ok(SortByScore(Candidates(Kept(items), req.topic, req.difficulty, freshId)))
  }

  /** The `generated_corpus` row of a staged sentence. */
  function StagedRowOf(c: GeneratedSentence): StagedRow {
    StagedRow(c.text, c.topic, c.difficulty.Name(), c.analysis, c.status)
  }

  /** The ids of the given sentences. */
  function Ids(rows: seq<GeneratedSentence>): (ids: set<string>)
    ensures forall id :: id in ids <==> exists i :: 0 <= i < |rows| && rows[i].id == id
  {
    set i | 0 <= i < |rows| :: rows[i].id
  }

  /** `generated_corpus` after inserting `rows` one by one. */
  function StageRows(table: map<string, StagedRow>, rows: seq<GeneratedSentence>): (r: map<string, StagedRow>)
    ensures r.Keys == table.Keys + Ids(rows)
  {
    if rows == [] then table
    else
      var init := rows[..|rows| - 1];
      var last := rows[|rows| - 1];
      assert Ids(rows) == Ids(init) + {last.id} by {
        forall id | id in Ids(rows) ensures id in Ids(init) + {last.id} {
          var i :| 0 <= i < |rows| && rows[i].id == id;
          if i < |rows| - 1 { assert init[i].id == id; }
        }
        forall id | id in Ids(init) ensures id in Ids(rows) {
          var i :| 0 <= i < |init| && init[i].id == id;
          assert rows[i].id == id;
        }
      }
      StageRows(table, init)[last.id := StagedRowOf(last)]
  }

  /** Each insert of the batch in turn finds its id free: neither taken already nor
      staged earlier in the batch. */
  predicate FreshIds(table: map<string, StagedRow>, rows: seq<GeneratedSentence>) {
    rows == [] ||
    (var init := rows[..|rows| - 1];
     FreshIds(table, init) && rows[|rows| - 1].id !in table && rows[|rows| - 1].id !in Ids(init))
  }

  /** The batch is fresh exactly when no id is taken and no two ids collide. */
  lemma {:induction false} FreshIdsMeaning(table: map<string, StagedRow>, rows: seq<GeneratedSentence>)
    ensures FreshIds(table, rows) <==>
      && (forall i :: 0 <= i < |rows| ==> rows[i].id !in table)
      && (forall i, j :: 0 <= i < j < |rows| ==> rows[i].id != rows[j].id)
  {
    if rows != [] {
      var init := rows[..|rows| - 1];
      var n := |rows| - 1;
      FreshIdsMeaning(table, init);
      if FreshIds(table, rows) {
        forall i, j | 0 <= i < j < |rows| ensures rows[i].id != rows[j].id {
          assert rows[i] == init[i];
          if j < n {
            assert rows[j] == init[j];
          }
        }
      }
    }
  }

  lemma FreshIdsStep(table: map<string, StagedRow>, rows: seq<GeneratedSentence>, i: nat)
    requires i < |rows|
    ensures FreshIds(table, rows[..i + 1]) <==>
      FreshIds(table, rows[..i]) && rows[i].id !in table && rows[i].id !in Ids(rows[..i])
  {
    assert rows[..i + 1][..i] == rows[..i];
  }

  /** A batch with a clash in a prefix is not fresh. */
  lemma {:induction false} FreshIdsPrefix(table: map<string, StagedRow>, rows: seq<GeneratedSentence>, n: nat)
    requires n <= |rows| && !FreshIds(table, rows[..n])
    ensures !FreshIds(table, rows)
    decreases |rows| - n
  {
    if n < |rows| {
      FreshIdsStep(table, rows, n);
      FreshIdsPrefix(table, rows, n + 1);
    } else {
      assert rows[..n] == rows;
    }
  }

  lemma StageRowsStep(table: map<string, StagedRow>, rows: seq<GeneratedSentence>, i: nat)
    requires i < |rows|
    ensures StageRows(table, rows[..i + 1]) == StageRows(table, rows[..i])[rows[i].id := StagedRowOf(rows[i])]
  {
    assert rows[..i + 1][..i] == rows[..i];
  }

  /** `insertMany`: a transaction of plain inserts; the first taken id aborts it and
      rolls every insert back. */
  method StageAll(db: Db, rows: seq<GeneratedSentence>) returns (ok: bool)
    modifies db
    ensures db.corpora == old(db.corpora) && db.recordings == old(db.recordings)
    ensures ok <==> FreshIds(old(db.generated), rows)
    ensures db.generated == if ok then StageRows(old(db.generated), rows) else old(db.generated)
  {
    var before := db.generated;
    var i := 0;
    while i < |rows|
      invariant 0 <= i <= |rows|
      invariant db.corpora == old(db.corpora) && db.recordings == old(db.recordings)
      invariant FreshIds(before, rows[..i])
      invariant db.generated == StageRows(before, rows[..i])
    {
      FreshIdsStep(before, rows, i);
      StageRowsStep(before, rows, i);
      if rows[i].id in db.generated {
        FreshIdsPrefix(before, rows, i + 1);
        db.generated := before;
        return false;
      }
      db.generated := db.generated[rows[i].id := StagedRowOf(rows[i])];
      i := i + 1;
    }
    assert rows[..i] == rows;
    ok := true;
  }

  /** `POST /api/corpus/generate`.  `reply` is the endpoint's answer to the request sent
      to `NormalizeEndpoint(endpoint)`, `parse` is `JSON.parse` and `freshId(k)` the k-th
      id `nanoid` hands out. */
  method Generate(db: Db, req: GenerationRequest, reply: LlmReply, parse: string -> Option<Json>,
                  freshId: nat -> string)
    returns (r: Result<GenerationResponse, GenerateError>)
    modifies db
    ensures db.corpora == old(db.corpora) && db.recordings == old(db.recordings)
    ensures match Ranked(req, reply, parse, freshId)
      case Err(e) => r == Err(e) && db.generated == old(db.generated)
      case Ok(ranked) =>
        if FreshIds(old(db.generated), ranked) then
          r == Ok(GenerationResponse(ranked, Summarize(ranked)))
          && db.generated == StageRows(old(db.generated), ranked)
        else
          r == Err(InsertFailed) && db.generated == old(db.generated)
  {
    var ranked := Ranked(req, reply, parse, freshId);
    if ranked.Err? {
      return Err(ranked.error);
    }
    var ok := StageAll(db, ranked.value);
    if !ok {
      return Err(InsertFailed);
    }
    r := Ok(GenerationResponse(ranked.value, Summarize(ranked.value)));
  }

  /** A missing endpoint or model is refused whatever the endpoint would answer. */
  lemma MissingConfigFirst(req: GenerationRequest, reply: LlmReply, parse: string -> Option<Json>,
                           freshId: nat -> string)
    requires Blank(req.endpoint) || Blank(req.model)
    ensures Ranked(req, reply, parse, freshId) == Err(MissingConfig)
  {
  }

  /** A successful generation stages every ranked sentence as `pending`, with its
      text, topic, difficulty name and analysis, and leaves other staged rows alone. */
  lemma {:induction false} StagedContents(table: map<string, StagedRow>, rows: seq<GeneratedSentence>)
    requires FreshIds(table, rows)
    ensures var t := StageRows(table, rows);
      && (forall i :: 0 <= i < |rows| ==> t[rows[i].id] == StagedRowOf(rows[i]))
      && (forall k :: k in table ==> t[k] == table[k])
  {
    if rows != [] {
      var init := rows[..|rows| - 1];
      FreshIdsMeaning(table, rows);
      StagedContents(table, init);
      forall i | 0 <= i < |rows| - 1 ensures rows[i].id != rows[|rows| - 1].id && init[i] == rows[i] {
      }
    }
  }

  /** A successful reply yields the candidates ranked: the staged list holds exactly
      the kept items, is ordered by score, and every entry starts `pending`. */
  lemma GeneratedListIsRanked(req: GenerationRequest, reply: LlmReply, parse: string -> Option<Json>,
                              freshId: nat -> string)
    requires Ranked(req, reply, parse, freshId).Ok?
    ensures var ranked := Ranked(req, reply, parse, freshId).value;
      && NonIncreasing(ranked)
      && (forall i :: 0 <= i < |ranked| ==> ranked[i].status == Pending && ranked[i].text != [])
  {
    var items := RawSentences(ExtractJson(reply.content.value, parse).value).value;
    var cs := Candidates(Kept(items), req.topic, req.difficulty, freshId);
    SortIsOrdered(cs);
    var ranked := SortByScore(cs);
    forall i | 0 <= i < |ranked| ensures ranked[i].status == Pending && ranked[i].text != [] {
      assert ranked[i] in multiset(cs);
    }
  }

  // ---------------------------------------------------------------------------------
  // Approve and reject

  const LlmSource: string := "llm_generated"

  /** `corpora` after `INSERT OR REPLACE`: any row with the same id is deleted and the
      new row is appended. */
  function Upsert(rows: seq<CorpusRow>, row: CorpusRow): (r: seq<CorpusRow>)
    ensures r != [] && r[|r| - 1] == row
    ensures forall x :: x in r <==> x == row || (x in rows && x.id != row.id)
  {
    RemoveId(rows, row.id) + [row]
  }

  function RemoveId(rows: seq<CorpusRow>, id: string): (r: seq<CorpusRow>)
    ensures forall x :: x in r <==> x in rows && x.id != id
  {
    if rows == [] then []
    else
      assert rows == [rows[0]] + rows[1..];
      if rows[0].id == id then RemoveId(rows[1..], id) else [rows[0]] + RemoveId(rows[1..], id)
  }

  lemma {:induction false} RemoveIdUnique(rows: seq<CorpusRow>, id: string)
    requires UniqueCorpusIds(rows)
    ensures UniqueCorpusIds(RemoveId(rows, id))
    ensures id !in CorpusIds(RemoveId(rows, id))
  {
    if rows != [] {
      RemoveIdUnique(rows[1..], id);
      var rest := RemoveId(rows[1..], id);
      if rows[0].id != id {
        forall k | 0 <= k < |rest| ensures rest[k].id != rows[0].id {
          assert rest[k] in rows[1..];
        }
        ConsUnique(rows[0], rest);
      }
    }
  }

  /** A row whose id is not among a unique list's ids can go in front of it. */
  lemma ConsUnique(row: CorpusRow, rest: seq<CorpusRow>)
    requires UniqueCorpusIds(rest)
    requires forall k :: 0 <= k < |rest| ==> rest[k].id != row.id
    ensures UniqueCorpusIds([row] + rest)
  {
    var all := [row] + rest;
    forall i, j | 0 <= i < j < |all| ensures all[i].id != all[j].id {
      if i > 0 {
        assert all[i] == rest[i - 1];
      }
      assert all[j] == rest[j - 1];
    }
  }

  /** An upsert keeps the primary key unique and leaves one row with the new id, the
      new row. */
  lemma UpsertUnique(rows: seq<CorpusRow>, row: CorpusRow)
    requires UniqueCorpusIds(rows)
    ensures UniqueCorpusIds(Upsert(rows, row))
    ensures forall x :: x in Upsert(rows, row) && x.id == row.id ==> x == row
  {
    RemoveIdUnique(rows, row.id);
  }

  /** Deleting by id works row by row: the kept rows stay in their order, one per
      occurrence. */
  lemma {:induction false} RemoveIdAppend(a: seq<CorpusRow>, b: seq<CorpusRow>, id: string)
    ensures RemoveId(a + b, id) == RemoveId(a, id) + RemoveId(b, id)
  {
    if a == [] {
      assert a + b == b;
    } else {
      assert (a + b)[0] == a[0] && (a + b)[1..] == a[1..] + b;
      RemoveIdAppend(a[1..], b, id);
    }
  }

  lemma RemoveIdSingle(row: CorpusRow, id: string)
    ensures RemoveId([row], id) == if row.id == id then [] else [row]
  {
    assert [row][1..] == [];
  }

  /** Deleting an id no row has changes nothing. */
  lemma {:induction false} RemoveIdAbsent(rows: seq<CorpusRow>, id: string)
    requires forall k :: 0 <= k < |rows| ==> rows[k].id != id
    ensures RemoveId(rows, id) == rows
  {
    if rows != [] {
      RemoveIdAbsent(rows[1..], id);
      assert rows == [rows[0]] + rows[1..];
    }
  }

  /** A row with a new id is appended to the table. */
  lemma UpsertNew(rows: seq<CorpusRow>, row: CorpusRow)
    requires forall k :: 0 <= k < |rows| ==> rows[k].id != row.id
    ensures Upsert(rows, row) == rows + [row]
  {
    RemoveIdAbsent(rows, row.id);
  }

  /** In a table with unique ids, the row holding the id is taken out of its place and
      the new row is appended; every other row keeps its place. */
  lemma UpsertReplaces(rows: seq<CorpusRow>, row: CorpusRow, i: nat)
    requires UniqueCorpusIds(rows) && i < |rows| && rows[i].id == row.id
    ensures Upsert(rows, row) == rows[..i] + rows[i + 1..] + [row]
  {
    assert rows == rows[..i] + ([rows[i]] + rows[i + 1..]);
    RemoveIdAppend(rows[..i], [rows[i]] + rows[i + 1..], row.id);
    RemoveIdAppend([rows[i]], rows[i + 1..], row.id);
    RemoveIdSingle(rows[i], row.id);
    RemoveIdAbsent(rows[..i], row.id);
    RemoveIdAbsent(rows[i + 1..], row.id);
  }

  /** The `corpora` row an approval writes. */
  function ApprovedRow(id: string, staged: StagedRow): (row: CorpusRow)
    ensures row.id == id && row.title == staged.topic && row.content == staged.text
    ensures row.category == staged.topic && row.source == LlmSource
    ensures row.difficultyScore == DifficultyScore(staged.difficulty)
  {
    CorpusRow(id, staged.topic, staged.text, staged.topic, DifficultyScore(staged.difficulty), LlmSource)
  }

  /** The tables after approving one id, and whether the id was found: a found id's
      staged row is written to `corpora` and marked `approved`. */
  function ApproveOne(corpora: seq<CorpusRow>, staged: map<string, StagedRow>, id: string)
    : (r: (seq<CorpusRow>, map<string, StagedRow>, bool))
    ensures r.1.Keys == staged.Keys
    ensures r.2 <==> id in staged
    ensures !r.2 ==> r.0 == corpora && r.1 == staged
  {
    if id in staged then (Upsert(corpora, ApprovedRow(id, staged[id])), staged[id := staged[id].(status := Approved)], true)
    else (corpora, staged, false)
  }

  /** The tables and the count after approving `ids` in order. */
  function ApplyApprovals(corpora: seq<CorpusRow>, staged: map<string, StagedRow>, ids: seq<string>)
    : (r: (seq<CorpusRow>, map<string, StagedRow>, nat))
    ensures r.1.Keys == staged.Keys
    ensures r.2 <= |ids|
  {
    if ids == [] then (corpora, staged, 0)
    else
      var before := ApplyApprovals(corpora, staged, ids[..|ids| - 1]);
      var after := ApproveOne(before.0, before.1, ids[|ids| - 1]);
      (after.0, after.1, if after.2 then before.2 + 1 else before.2)
  }

  /** One statement pair of the transaction: look the id up, and when it is staged
      write its `corpora` row and mark it `approved`. */
  method ApproveId(db: Db, id: string) returns (found: bool)
    requires db.Valid()
    modifies db
    ensures db.Valid() && db.recordings == old(db.recordings)
    ensures (db.corpora, db.generated, found) == ApproveOne(old(db.corpora), old(db.generated), id)
  {
    found := id in db.generated;
    if found {
      var row := db.generated[id];
      UpsertUnique(db.corpora, ApprovedRow(id, row));
      db.corpora := Upsert(db.corpora, ApprovedRow(id, row));
      db.generated := db.generated[id := row.(status := Approved)];
    }
  }

  /** `POST /api/corpus/approve`; `ids` is `None` for a body without ids. */
  method Approve(db: Db, ids: Option<seq<string>>) returns (approved: nat)
    requires db.Valid()
    modifies db
    ensures db.Valid()
    ensures db.recordings == old(db.recordings)
    ensures NoIds(ids) ==> approved == 0 && db.corpora == old(db.corpora) && db.generated == old(db.generated)
    ensures !NoIds(ids) ==>
      (db.corpora, db.generated, approved) == ApplyApprovals(old(db.corpora), old(db.generated), ids.value)
  {
    if ids.None? || ids.value == [] {
      return 0;
    }
    var rows := ids.value;
    approved := 0;
    var i := 0;
    while i < |rows|
      invariant 0 <= i <= |rows|
      invariant db.Valid() && db.recordings == old(db.recordings)
      invariant db.corpora == ApplyApprovals(old(db.corpora), old(db.generated), rows[..i]).0
      invariant db.generated == ApplyApprovals(old(db.corpora), old(db.generated), rows[..i]).1
      invariant approved == ApplyApprovals(old(db.corpora), old(db.generated), rows[..i]).2
    {
      ApplyApprovalsStep(old(db.corpora), old(db.generated), rows, i);
      var found := ApproveId(db, rows[i]);
      if found {
        approved := approved + 1;
      }
      i := i + 1;
    }
    assert rows[..i] == rows;
  }

  lemma ApplyApprovalsStep(corpora: seq<CorpusRow>, staged: map<string, StagedRow>, ids: seq<string>, i: nat)
    requires i < |ids|
    ensures var before := ApplyApprovals(corpora, staged, ids[..i]);
      var after := ApproveOne(before.0, before.1, ids[i]);
      ApplyApprovals(corpora, staged, ids[..i + 1]) == (after.0, after.1, if after.2 then before.2 + 1 else before.2)
  {
    assert ids[..i + 1][..i] == ids[..i];
    assert ids[..i + 1][i] == ids[i];
  }

  /** A body without ids, or with an empty list. */
  predicate NoIds(ids: Option<seq<string>>) {
    ids.None? || ids.value == []
  }

  /** How many of `ids` (repeats included) are keys of `staged`. */
  function CountKnown(ids: seq<string>, staged: map<string, StagedRow>): (n: nat)
    ensures n <= |ids|
  {
    if ids == [] then 0 else CountKnown(ids[..|ids| - 1], staged) + (if ids[|ids| - 1] in staged then 1 else 0)
  }

  /** The approval count is the number of ids found in `generated_corpus`, repeats
      included; every found id is `approved` and every other staged row is unchanged;
      the current status is not consulted. */
  lemma {:induction false} ApprovalEffect(corpora: seq<CorpusRow>, staged: map<string, StagedRow>, ids: seq<string>)
    ensures var (c, g, n) := ApplyApprovals(corpora, staged, ids);
      && n == CountKnown(ids, staged)
      && (forall k :: k in staged && k in ids ==> g[k] == staged[k].(status := Approved))
      && (forall k :: k in staged && k !in ids ==> g[k] == staged[k])
  {
    if ids != [] {
      var init := ids[..|ids| - 1];
      ApprovalEffect(corpora, staged, init);
      forall k | k in ids ensures k in init || k == ids[|ids| - 1] {
        var i :| 0 <= i < |ids| && ids[i] == k;
        if i < |ids| - 1 { assert init[i] == k; }
      }
      forall k | k in init ensures k in ids {
        var i :| 0 <= i < |init| && init[i] == k;
        assert ids[i] == k;
      }
    }
  }

  /** After an approval every found id has exactly one `corpora` row, the one the
      approval wrote; rows of other ids are kept; and there is no other row. */
  lemma {:induction false} ApprovalWritesCorpora(corpora: seq<CorpusRow>, staged: map<string, StagedRow>, ids: seq<string>)
    requires UniqueCorpusIds(corpora)
    ensures var (c, g, n) := ApplyApprovals(corpora, staged, ids);
      && UniqueCorpusIds(c)
      && (forall k :: k in staged && k in ids ==> ApprovedRow(k, staged[k].(status := Approved)) in c)
      && (forall x :: x in corpora && !(x.id in staged && x.id in ids) ==> x in c)
      && (forall x :: x in c ==>
            (x in corpora && !(x.id in staged && x.id in ids)) ||
            (x.id in staged && x.id in ids && x == ApprovedRow(x.id, staged[x.id].(status := Approved))))
  {
    if ids != [] {
      var init := ids[..|ids| - 1];
      var last := ids[|ids| - 1];
      ApprovalWritesCorpora(corpora, staged, init);
      ApprovalEffect(corpora, staged, init);
      var (c, g, n) := ApplyApprovals(corpora, staged, init);
      if last in g {
        UpsertUnique(c, ApprovedRow(last, g[last]));
      }
      forall k | k in ids ensures k in init || k == last {
        var i :| 0 <= i < |ids| && ids[i] == k;
        if i < |ids| - 1 { assert init[i] == k; }
      }
    }
  }

  /** The status map of a rejection: the found ids become `rejected`, nothing else
      changes. */
  function RejectAll(staged: map<string, StagedRow>, ids: seq<string>): (r: map<string, StagedRow>)
    ensures r.Keys == staged.Keys
    ensures forall k :: k in staged ==> r[k] == if k in ids then staged[k].(status := Rejected) else staged[k]
  {
    map k | k in staged :: if k in ids then staged[k].(status := Rejected) else staged[k]
  }

  /** `POST /api/corpus/reject`: the count is the number of ids sent, found or not. */
  method Reject(db: Db, ids: Option<seq<string>>) returns (rejected: nat)
    modifies db
    ensures db.corpora == old(db.corpora) && db.recordings == old(db.recordings)
    ensures rejected == if NoIds(ids) then 0 else |ids.value|
    ensures db.generated == if NoIds(ids) then old(db.generated) else RejectAll(old(db.generated), ids.value)
  {
    if ids.None? || ids.value == [] {
      return 0;
    }
    var rows := ids.value;
    rejected := 0;
    var i := 0;
    while i < |rows|
      invariant 0 <= i <= |rows| && rejected == i
      invariant db.corpora == old(db.corpora) && db.recordings == old(db.recordings)
      invariant db.generated == RejectAll(old(db.generated), rows[..i])
    {
      var id := rows[i];
      if id in db.generated {
        db.generated := db.generated[id := db.generated[id].(status := Rejected)];
      }
      assert forall k :: k in rows[..i + 1] <==> k in rows[..i] || k == id by {
        assert rows[..i + 1] == rows[..i] + [id];
      }
      rejected := rejected + 1;
      i := i + 1;
    }
    assert rows[..i] == rows;
  }
}
