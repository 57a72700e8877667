/** The report-reading half of the audio analyser: ffmpeg's `astats` and `silencedetect`
    filters write a textual report to standard error; the analyser accepts exit codes 0
    and 1, reads the first peak, RMS and clipped-sample values from the report, adds up
    every silence duration, and derives a signal-to-noise estimate.  The report text and
    the exit code are inputs here; running ffmpeg is not part of the model. */
module AudioProcessor {
  import opened Wrappers
  import opened Strings

  // ---------------------------------------------------------------------------------
  // Numbers in the report

  predicate IsDigit(c: char) {
    '0' <= c <= '9'
  }

  predicate AllDigits(s: string) {
    forall i :: 0 <= i < |s| ==> IsDigit(s[i])
  }

  /** The value of a string of decimal digits (the empty string is 0). */
  function DigitsValue(ds: string): nat
    requires AllDigits(ds)
  {
    if ds == [] then 0 else DigitsValue(ds[..|ds| - 1]) * 10 + (ds[|ds| - 1] as int - '0' as int)
  }

  function Pow10(n: nat): (p: nat)
    ensures p >= 1
  {
    if n == 0 then 1 else 10 * Pow10(n - 1)
  }

  /** The value of `whole.frac`: each digit after the point is worth a tenth of the one
      before it. */
  function DecimalValue(whole: string, frac: string): real
    requires AllDigits(whole) && AllDigits(frac)
  {
    DigitsValue(whole) as real + DigitsValue(frac) as real / Pow10(|frac|) as real
  }

  /** An unsigned decimal literal: `digits`, `digits.`, `digits.digits` or `.digits`. */
  function UnsignedDecimal(s: string): (r: Option<real>)
    ensures r.Some? ==> r.value >= 0.0
  {
    var parts := Split(s, '.');
    if |parts| == 1 && s != [] && AllDigits(s) then
      Some(DigitsValue(s) as real)
    else if |parts| == 2 && parts[0] + parts[1] != [] && AllDigits(parts[0]) && AllDigits(parts[1]) then
      Some(DecimalValue(parts[0], parts[1]))
    else
      None
  }

  /** JavaScript's `Number(tok)` on a token made of `-`, digits and `.` (the only tokens
      the report patterns capture): an optional minus sign and an unsigned decimal
      literal.  `None` stands for NaN: a lone `-` or `.`, a second sign, a second point.
      The empty string is 0. */
  function NumberOfToken(tok: string): (r: Option<real>)
    ensures tok != [] && tok[0] != '-' ==> r == UnsignedDecimal(tok)
    ensures r.Some? && r.value < 0.0 ==> tok != [] && tok[0] == '-'
  {
    if tok == [] then Some(0.0)
    else if tok[0] == '-' then
      match UnsignedDecimal(tok[1..])
      case Some(v) => Some(-v)
      case None => None
    else UnsignedDecimal(tok)
  }

  /** `parseNumber`: a missing or empty token is null, and so is one that is not a
      finite number; otherwise the number. */
  function ParseNumber(value: Option<string>): (r: Option<real>)
    ensures value.None? || value == Some([]) ==> r.None?
    ensures value.Some? && value.value != [] ==> r == NumberOfToken(value.value)
  {
    match value
    case None => None
    case Some(tok) => if tok == [] then None else NumberOfToken(tok)
  }

  /** The digits of a natural number, most significant first, without leading zeros. */
  function DecimalDigits(n: nat): (ds: string)
    ensures AllDigits(ds) && ds != []
    ensures |ds| > 1 ==> ds[0] != '0'
  {
    var last := ['0' + (n % 10) as char];
    if n < 10 then last else DecimalDigits(n / 10) + last
  }

  lemma {:induction false} DecimalDigitsValue(n: nat)
    ensures DigitsValue(DecimalDigits(n)) == n
  {
    var ds := DecimalDigits(n);
    if n >= 10 {
      DecimalDigitsValue(n / 10);
      assert ds[..|ds| - 1] == DecimalDigits(n / 10);
    }
  }

  /** A whole number written in decimal, with or without a minus sign, reads back as
      itself. */
  lemma ParseNumberReadsIntegers(n: nat)
    ensures ParseNumber(Some(DecimalDigits(n))) == Some(n as real)
    ensures ParseNumber(Some("-" + DecimalDigits(n))) == Some(-(n as real))
  {
    var ds := DecimalDigits(n);
    DecimalDigitsValue(n);
    SplitJoin([ds], '.');
    assert Join([ds], '.') == ds;
    assert ("-" + ds)[1..] == ds;
  }

  /** A literal with a decimal point reads as its whole part plus its fraction, each
      digit after the point worth a tenth of the one before it. */
  lemma UnsignedDecimalReadsDecimal(a: string, b: string)
    requires AllDigits(a) && AllDigits(b) && a + b != []
    ensures UnsignedDecimal(a + "." + b) == Some(DecimalValue(a, b))
  {
    DigitsHaveNoPoint(a);
    DigitsHaveNoPoint(b);
    SplitNoSeparator(a, '.');
    SplitNoSeparator(b, '.');
    SplitAppend(a, b, '.');
    UnsignedDecimalOfParts(a + "." + b, a, b);
  }

  lemma DigitsHaveNoPoint(a: string)
    requires AllDigits(a)
    ensures '.' !in a
  {
  }

  lemma UnsignedDecimalOfParts(s: string, a: string, b: string)
    requires Split(s, '.') == [a, b]
    requires AllDigits(a) && AllDigits(b) && a + b != []
    ensures UnsignedDecimal(s) == Some(DecimalValue(a, b))
  {
  }

  /** A decimal written with or without a minus sign reads back as its value, negated for
      the minus sign. */
  lemma ParseNumberReadsDecimals(a: string, b: string)
    requires AllDigits(a) && AllDigits(b) && a + b != []
    ensures ParseNumber(Some(a + "." + b)) == Some(DecimalValue(a, b))
    ensures ParseNumber(Some("-" + a + "." + b)) == Some(-DecimalValue(a, b))
  {
    UnsignedDecimalReadsDecimal(a, b);
    var t := a + "." + b;
    assert t != [] && t[0] != '-' by {
      if a != [] { assert t[0] == a[0] && IsDigit(a[0]); } else { assert t[0] == '.'; }
    }
    assert ("-" + a + "." + b)[1..] == t;
  }

  /** A typical RMS level from the report. */
  lemma ParseNumberReadsRmsLevel()
    ensures ParseNumber(Some("-23.45")) == Some(-23.45)
  {
    ParseNumberReadsDecimals("23", "45");
    assert DecimalValue("23", "45") == 23.45 by {
      assert DigitsValue("23") == 23 by { assert "23"[..1] == "2"; }
      assert DigitsValue("45") == 45 by { assert "45"[..1] == "4"; }
      assert Pow10(2) == 100;
    }
    assert "-" + "23" + "." + "45" == "-23.45";
  }

  /** What `-inf` and other non-numbers leave in the capture is null. */
  lemma ParseNumberRejectsNonNumbers()
    ensures ParseNumber(Some("-")) == None
    ensures ParseNumber(Some(".")) == None
    ensures ParseNumber(Some("1.2.3")) == None
    ensures ParseNumber(Some("--1")) == None
  {
    assert Split("", '.') == [[]];
    assert Split(".", '.') == [[], []];
    assert Join(["1", "2", "3"], '.') == "1.2.3";
    SplitJoin(["1", "2", "3"], '.');
    assert Join(["-1"], '.') == "-1";
    SplitJoin(["-1"], '.');
  }

  // ---------------------------------------------------------------------------------
  // Matching the report

  const PeakKey: string := "lavfi.astats.Overall.Peak_level="
  const RmsKey: string := "lavfi.astats.Overall.RMS_level="
  const ClipKey: string := "lavfi.astats.Overall.Clipped_samples="
  const SilenceKey: string := "silence_duration:"

  /** `[-\d.]`: the characters of a stat value. */
  predicate IsStatChar(c: char) {
    c == '-' || c == '.' || IsDigit(c)
  }

  /** `[\d.]`: the characters of a silence duration. */
  predicate IsSilenceChar(c: char) {
    c == '.' || IsDigit(c)
  }

  /** The end of the longest run of units from `from` on that satisfy `p`. */
  function RunEnd(s: string, from: nat, p: char -> bool): (e: nat)
    requires from <= |s|
    ensures from <= e <= |s|
    ensures forall k :: from <= k < e ==> p(s[k])
    ensures e == |s| || !p(s[e])
    decreases |s| - from
  {
    if from < |s| && p(s[from]) then RunEnd(s, from + 1, p) else from
  }

  /** `key([-\d.]+)` matches at index `i`. */
  predicate StatAt(s: string, key: string, i: nat) {
    OccursAt(s, key, i) && i + |key| < |s| && IsStatChar(s[i + |key|])
  }

  /** The index of the first match of `key([-\d.]+)` at or after `from`. */
  function FirstStat(s: string, key: string, from: nat): (r: Option<nat>)
    ensures r.Some? ==> from <= r.value && StatAt(s, key, r.value)
    ensures forall j :: from <= j && (r.None? || j < r.value) ==> !StatAt(s, key, j)
    decreases |s| - from
  {
    if from + |key| >= |s| then None
    else if StatAt(s, key, from) then Some(from)
    else FirstStat(s, key, from + 1)
  }

  /** `s.match(/key([-\d.]+)/)?.[1]`: the value captured by the first match, greedily. */
  function StatValue(s: string, key: string): (r: Option<string>)
    ensures r.Some? ==> r.value != [] && forall k :: 0 <= k < |r.value| ==> IsStatChar(r.value[k])
  {
    match FirstStat(s, key, 0)
    case None => None
    case Some(i) =>
      var start := i + |key|;
      Some(s[start..RunEnd(s, start, IsStatChar)])
  }

  /** One match of `silence_duration:\s*([\d.]+)`: where it starts, the captured token
      and the index just after it, where the next search resumes. */
  datatype SilenceMatch = SilenceMatch(at: nat, token: string, end: nat)

  predicate SilenceAt(s: string, i: nat) {
    OccursAt(s, SilenceKey, i) &&
    var j := RunEnd(s, i + |SilenceKey|, IsWhitespace);
    j < |s| && IsSilenceChar(s[j])
  }

  /** The match that starts at `i`: the token is everything after the key and its
      whitespace up to the first unit that cannot belong to a duration. */
  function MatchAt(s: string, i: nat): (m: SilenceMatch)
    requires SilenceAt(s, i)
    ensures m.at == i && i + |SilenceKey| < m.end <= |s|
    ensures m.token != [] && forall k :: 0 <= k < |m.token| ==> IsSilenceChar(m.token[k])
    ensures |m.token| <= m.end && i + |SilenceKey| <= m.end - |m.token|
    ensures m.token == s[m.end - |m.token|..m.end]
    ensures forall k :: i + |SilenceKey| <= k < m.end - |m.token| ==> IsWhitespace(s[k])
    ensures m.end == |s| || !IsSilenceChar(s[m.end])
  {
    var j := RunEnd(s, i + |SilenceKey|, IsWhitespace);
    var e := RunEnd(s, j, IsSilenceChar);
    SilenceMatch(i, s[j..e], e)
  }

  /** `silenceRegex.exec(s)` with `lastIndex == from`: the leftmost match at or after
      `from`, or none when there is none. */
  function NextSilence(s: string, from: nat): (r: Option<SilenceMatch>)
    ensures r.None? <==> forall j :: from <= j ==> !SilenceAt(s, j)
    ensures r.Some? ==> from <= r.value.at && SilenceAt(s, r.value.at) && r.value == MatchAt(s, r.value.at)
    ensures r.Some? ==> forall j :: from <= j < r.value.at ==> !SilenceAt(s, j)
    decreases |s| - from
  {
    if from + |SilenceKey| > |s| then None
    else if SilenceAt(s, from) then Some(MatchAt(s, from))
    else NextSilence(s, from + 1)
  }

  /** The sum of the durations matched at or after `from`; values that are not finite
      numbers are skipped.  A duration has no sign, so the sum is never negative. */
  function SilenceFrom(s: string, from: nat): (total: real)
    ensures total >= 0.0
    decreases |s| - from
  {
    match NextSilence(s, from)
    case None => 0.0
    case Some(m) =>
      (match NumberOfToken(m.token) case Some(v) => v case None => 0.0) + SilenceFrom(s, m.end)
  }

  /** Every silence duration in the report, added up in order. */
  function SilenceTotal(s: string): (total: real)
    ensures total >= 0.0
  {
    SilenceFrom(s, 0)
  }

  /** The `while (silenceResult)` loop over `silenceRegex.exec`. */
  method SumSilence(report: string) returns (total: real)
    ensures total == SilenceTotal(report)
  {
    total := 0.0;
    var pos := 0;
    var m := NextSilence(report, pos);
    while m.Some?
      invariant pos <= |report|
      invariant m == NextSilence(report, pos)
      invariant total + SilenceFrom(report, pos) == SilenceTotal(report)
      decreases |report| - pos
    {
      var value := NumberOfToken(m.value.token);
      if value.Some? {
        total := total + value.value;
      }
      pos := m.value.end;
      m := NextSilence(report, pos);
    }
  }

  // ---------------------------------------------------------------------------------
  // The metrics

  /** `Math.round` on a finite number: halves round up. */
  function Round(x: real): (n: int)
    ensures n as real - 0.5 <= x < n as real + 0.5
  {
    (x + 0.5).Floor
  }

  /** The clipped-sample count: a whole number, or NaN when the captured token is not a
      number (`Math.max(0, NaN)` is NaN). */
  datatype ClipCount = Clips(n: nat) | ClipsNaN {
    /** `clippingCount > 0`, false for NaN. */
    predicate Positive() {
      Clips? && n > 0
    }
  }

  /** `Math.max(0, Math.round(Number(token ?? 0)))`. */
  function ClipCountOf(token: Option<string>): (c: ClipCount)
    ensures token.None? ==> c == Clips(0)
    ensures token.Some? ==> (c.ClipsNaN? <==> NumberOfToken(token.value).None?)
    ensures token.Some? && NumberOfToken(token.value).Some? ==>
      var v := NumberOfToken(token.value).value;
      c.Clips? && c.n >= 0 && (v >= 0.0 ==> c.n == Round(v)) && (Round(v) <= 0 ==> c.n == 0)
  {
    match token
    case None => Clips(0)
    case Some(t) =>
      match NumberOfToken(t)
      case None => ClipsNaN
      case Some(v) => if Round(v) <= 0 then Clips(0) else Clips(Round(v))
  }

  datatype AudioQualityMetrics = AudioQualityMetrics(
    peakDbfs: Option<real>,
    rmsDbfs: Option<real>,
    clippingCount: ClipCount,
    silenceDuration: real,
    snrDb: Option<real>)

  /** The process ended with a code other than 0 or 1; `None` is a process killed by a
      signal, whose code is null. */
  datatype AudioError = ExitedWithCode(code: Option<int>)

  /** The noise floor the SNR estimate assumes: the silence threshold, -40 dB. */
  const NoiseFloorDb: real := -40.0

  /** The readings taken from the report, given the silence total the loop adds up. */
  function Readings(report: string, silenceDuration: real): (m: AudioQualityMetrics)
    ensures m.silenceDuration == silenceDuration
    ensures m.snrDb.Some? <==> m.rmsDbfs.Some?
    ensures m.rmsDbfs.Some? ==> m.snrDb.value == m.rmsDbfs.value + 40.0
  {
    var rms := ParseNumber(StatValue(report, RmsKey));
    AudioQualityMetrics(
      ParseNumber(StatValue(report, PeakKey)),
      rms,
      ClipCountOf(StatValue(report, ClipKey)),
      silenceDuration,
      match rms case Some(r) => Some(r - NoiseFloorDb) case None => None)
  }

  /** What the close handler resolves or rejects with, for a given exit code and report. */
  function ReportMetrics(exitCode: Option<int>, report: string): (r: Result<AudioQualityMetrics, AudioError>)
    ensures r.Ok? ==> r.value.silenceDuration == SilenceTotal(report) && r.value.silenceDuration >= 0.0
  {
    if exitCode != Some(0) && exitCode != Some(1) then Err(ExitedWithCode(exitCode))
    else Ok(Readings(report, SilenceTotal(report)))
  }

  /** The close handler of `analyzeAudio`. */
  method AnalyzeReport(exitCode: Option<int>, report: string) returns (r: Result<AudioQualityMetrics, AudioError>)
    ensures r == ReportMetrics(exitCode, report)
  {
    if exitCode != Some(0) && exitCode != Some(1) {
      return Err(ExitedWithCode(exitCode));
    }
    var silenceDuration := SumSilence(report);
    r := Ok(Readings(report, silenceDuration));
  }

  /** `Math.ceil(size / 1024)`. */
  function FileSizeKb(bytes: nat): (kb: nat)
    ensures bytes <= kb * 1024
    ensures kb == 0 || (kb - 1) * 1024 < bytes
  {
    (bytes + 1023) / 1024
  }

  // ---------------------------------------------------------------------------------
  // Properties of the report reading

  /** Exit codes 0 and 1 are both accepted; every other code, and a null code, is an
      error. */
  lemma ExitCodeTolerance(exitCode: Option<int>, report: string)
    ensures ReportMetrics(exitCode, report).Ok? <==> exitCode == Some(0) || exitCode == Some(1)
    ensures ReportMetrics(exitCode, report).Err? ==> ReportMetrics(exitCode, report).error.code == exitCode
  {
  }

  /** The SNR estimate is present exactly when the RMS level is, and is the RMS level
      plus 40 dB. */
  lemma SnrFollowsRms(exitCode: Option<int>, report: string)
    requires ReportMetrics(exitCode, report).Ok?
    ensures var m := ReportMetrics(exitCode, report).value;
      && (m.snrDb.Some? <==> m.rmsDbfs.Some?)
      && (m.rmsDbfs.Some? ==> m.snrDb.value == m.rmsDbfs.value + 40.0)
  {
  }

  /** A key that does not occur in the report gives null, not 0, for peak and RMS, and
      0 for the clipped-sample count. */
  lemma AbsentKeyGivesNull(exitCode: Option<int>, report: string)
    requires ReportMetrics(exitCode, report).Ok?
    ensures var m := ReportMetrics(exitCode, report).value;
      && (!Contains(report, PeakKey) ==> m.peakDbfs.None?)
      && (!Contains(report, RmsKey) ==> m.rmsDbfs.None? && m.snrDb.None?)
      && (!Contains(report, ClipKey) ==> m.clippingCount == Clips(0))
  {
    AbsentKeyNoStat(report, PeakKey);
    AbsentKeyNoStat(report, RmsKey);
    AbsentKeyNoStat(report, ClipKey);
  }

  lemma AbsentKeyNoStat(report: string, key: string)
    ensures !Contains(report, key) ==> StatValue(report, key).None?
  {
    if FirstStat(report, key, 0).Some? {
      var i := FirstStat(report, key, 0).value;
      assert OccursAt(report, key, i);
      ContainsIff(report, key);
    }
  }

  /** The first occurrence of a key with a value decides the reading; later occurrences
      are ignored. */
  lemma FirstOccurrenceWins(report: string, key: string, i: nat)
    requires StatAt(report, key, i)
    requires forall j: nat :: j < i ==> !StatAt(report, key, j)
    ensures StatValue(report, key) == Some(report[i + |key|..RunEnd(report, i + |key|, IsStatChar)])
  {
  }

  /** The silence total is never negative (the durations carry no sign) and is 0 when
      the report has no silence durations. */
  lemma {:induction false} SilenceFromNonNegative(s: string, from: nat)
    ensures SilenceFrom(s, from) >= 0.0
    decreases |s| - from
  {
    match NextSilence(s, from)
    case None =>
    case Some(m) =>
      assert m.token[0] != '-';
      SilenceFromNonNegative(s, m.end);
  }

  lemma SilenceTotalBounds(report: string)
    ensures SilenceTotal(report) >= 0.0
    ensures !Contains(report, SilenceKey) ==> SilenceTotal(report) == 0.0
  {
    SilenceFromNonNegative(report, 0);
    if !Contains(report, SilenceKey) {
      ContainsIff(report, SilenceKey);
      assert forall j :: 0 <= j ==> !SilenceAt(report, j);
    }
  }

  /** A silence duration that is not a number adds nothing; the search resumes after it. */
  lemma UnparseableSilenceSkipped(s: string, from: nat)
    requires NextSilence(s, from).Some? && NumberOfToken(NextSilence(s, from).value.token).None?
    ensures SilenceFrom(s, from) == SilenceFrom(s, NextSilence(s, from).value.end)
  {
  }

  /** A file of 0 bytes is 0 KB; 1 to 1024 bytes are 1 KB; 1025 bytes are 2 KB. */
  lemma FileSizeKbRounding(bytes: nat)
    ensures FileSizeKb(bytes) == 0 <==> bytes == 0
    ensures 1 <= bytes <= 1024 ==> FileSizeKb(bytes) == 1
    ensures FileSizeKb(1025) == 2
  {
  }
}
