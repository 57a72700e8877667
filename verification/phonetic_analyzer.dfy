/** The rule-based dialect-authenticity scorer of the Chenxu dialect: every text unit is
    checked against a set of checked-tone (rusheng) characters and a set of
    retroflex-merger (zhuzhuang) characters, the text is searched for dialect words, and
    four bonuses add up to a score between 0 and 100.  A second, independent pass
    tags every unit for the heatmap. */
module Phonetic {
  import opened Strings

  /** Characters that keep the checked tone in the dialect. */
  predicate IsRushengChar(c: char) {
    c in {
    '白', '竹', '石', '十', '一', '七', '吃', '日', '月', '客', '百', '尺', '作', '不', '出', '德',
    '发', '国', '活', '急', '脚', '渴', '力', '六', '没', '木', '入', '实', '室', '叔', '熟', '术',
    '束', '速', '宿', '塔', '铁', '托', '屋', '夕', '息', '习', '席', '赤', '色', '识', '失', '湿',
    '拾', '舌', '设', '涉', '射', '社', '胜', '诗', '狮', '施', '什', '食', '蚀'
    }
  }

  const RushengChars: set<char> := set c: char | IsRushengChar(c)

  /** Characters whose initials merged in the dialect; the set overlaps RushengChars. */
  predicate IsZhuzhuangChar(c: char) {
    c in {
    '知', '张', '中', '吹', '书', '穿', '水', '树', '说', '春', '船', '山', '师', '诗', '失',
    '狮', '施', '湿', '十', '石', '时', '识', '实', '拾', '食', '蚀', '上', '少', '收', '手', '受'
    }
  }

  const ZhuzhuangChars: set<char> := set c: char | IsZhuzhuangChar(c)

  /** The dialect words, in declaration order (what `Object.keys` yields for the word
      table's string keys); the standard-language glosses beside them are never read. */
  const DialectKeys: seq<string> := ["赶场", "背篓", "火塘", "吊脚楼", "崽伢子", "妹伢子", "摆龙门阵", "恰", "克", "冇得"]

  const RushengTag: string := "入声:"
  const ZhuzhuangTag: string := "知组:"
  const DialectTag: string := "方言:"

  datatype Analysis = Analysis(
    charCount: nat,
    rushengCount: nat,
    rushengDensity: real,
    zhuzhuangCount: nat,
    dialectWords: seq<string>,
    score: nat,
    features: seq<string>)

  datatype HeatType = Rusheng | Zhuzhuang | Dialect | Normal

  datatype HeatCell = HeatCell(index: nat, ch: char, kind: HeatType, intensity: real)

  predicate Distinct<T(==)>(xs: seq<T>) {
    forall i, j :: 0 <= i < j < |xs| ==> xs[i] != xs[j]
  }

  /** `xs` can be obtained from `ys` by deleting elements. */
  predicate SubsequenceOf<T(==)>(xs: seq<T>, ys: seq<T>)
    decreases |ys|
  {
    xs == [] || (ys != [] && if xs[0] == ys[0] then SubsequenceOf(xs[1..], ys[1..]) else SubsequenceOf(xs, ys[1..]))
  }

  /** `chars.filter((c) => set.has(c))`: the units of `text` that belong to `s`, in order,
      one per occurrence. */
  function Select(text: string, s: set<char>): (r: string)
    ensures |r| <= |text| && SubsequenceOf(r, text)
    ensures forall i :: 0 <= i < |r| ==> r[i] in s
  {
    if text == [] then []
    else
      var rest := Select(text[1..], s);
      if text[0] in s then [text[0]] + rest else rest
  }

  /** `Object.keys(DIALECT_WORDS).filter((word) => text.includes(word))`. */
  function MatchedWords(keys: seq<string>, text: string): (r: seq<string>)
    ensures forall w :: w in r <==> w in keys && Contains(text, w)
    ensures SubsequenceOf(r, keys)
  {
    if keys == [] then []
    else
      var rest := MatchedWords(keys[1..], text);
      if Contains(text, keys[0]) then [keys[0]] + rest else rest
  }

  /** A subsequence of a duplicate-free sequence is duplicate-free. */
  lemma {:induction false} SubsequenceDistinct<T>(xs: seq<T>, ys: seq<T>)
    requires SubsequenceOf(xs, ys) && Distinct(ys)
    ensures Distinct(xs) && forall x :: x in xs ==> x in ys
  {
    if xs != [] {
      if xs[0] == ys[0] {
        SubsequenceDistinct(xs[1..], ys[1..]);
        assert xs == [xs[0]] + xs[1..] && ys == [ys[0]] + ys[1..];
        assert forall x :: x in xs[1..] ==> x in ys[1..];
        forall i, j | 0 <= i < j < |xs| ensures xs[i] != xs[j] {
          if i == 0 {
            assert xs[j] in xs[1..];
            var k :| 0 <= k < |ys[1..]| && ys[1..][k] == xs[j];
            assert ys[k + 1] == xs[j];
          } else {
            assert xs[i] == xs[1..][i - 1] && xs[j] == xs[1..][j - 1];
          }
        }
      } else {
        SubsequenceDistinct(xs, ys[1..]);
      }
    }
  }

  /** `rushengCount / charCount`, or 0 for the empty text. */
  function Density(rushengCount: nat, charCount: nat): real {
    if charCount == 0 then 0.0 else rushengCount as real / charCount as real
  }

  /** +40 above 15%, otherwise +20 above 10%, otherwise nothing. */
  function DensityBonus(density: real): nat {
    if density > 0.15 then 40 else if density > 0.1 then 20 else 0
  }

  function LengthBonus(charCount: nat): nat {
    if 12 <= charCount <= 20 then 20 else 0
  }

  function PresenceBonus(count: nat): nat {
    if count > 0 then 20 else 0
  }

  function Min(a: nat, b: nat): nat {
    if a <= b then a else b
  }

  function Score(charCount: nat, rushengCount: nat, zhuzhuangCount: nat, dialectCount: nat): (score: nat)
    ensures score <= 100
  {
    var sum := DensityBonus(Density(rushengCount, charCount))
      + PresenceBonus(zhuzhuangCount) + PresenceBonus(dialectCount) + LengthBonus(charCount);
    Min(100, sum)
  }

  function CharTags(tag: string, cs: string): (r: seq<string>)
    ensures |r| == |cs|
  {
    seq(|cs|, i requires 0 <= i < |cs| => tag + [cs[i]])
  }

  function WordTags(tag: string, ws: seq<string>): (r: seq<string>)
    ensures |r| == |ws|
  {
    seq(|ws|, i requires 0 <= i < |ws| => tag + ws[i])
  }

  /** The feature list: rusheng tags, then zhuzhuang tags, then dialect tags. */
  function Features(rusheng: string, zhuzhuang: string, words: seq<string>): (f: seq<string>)
    ensures |f| == |rusheng| + |zhuzhuang| + |words|
  {
    CharTags(RushengTag, rusheng) + CharTags(ZhuzhuangTag, zhuzhuang) + WordTags(DialectTag, words)
  }

  /** `ChenxuPhoneticAnalyzer.analyze`.  `rushengDensity` is the exact ratio; the source
      rounds it to three decimals for display only, and the score uses the exact value. */
  function Analyze(text: string): (a: Analysis)
    ensures a.charCount == |text| && a.rushengCount <= |text| && a.zhuzhuangCount <= |text|
    ensures a.score <= 100
    ensures |a.features| == a.rushengCount + a.zhuzhuangCount + |a.dialectWords|
  {
    var rusheng := Select(text, RushengChars);
    var zhuzhuang := Select(text, ZhuzhuangChars);
    var words := MatchedWords(DialectKeys, text);
    Analysis(
      |text|,
      |rusheng|,
      Density(|rusheng|, |text|),
      |zhuzhuang|,
      words,
      Score(|text|, |rusheng|, |zhuzhuang|, |words|),
      Features(rusheng, zhuzhuang, words))
  }

  lemma {:induction false} SubsequenceLength<T>(xs: seq<T>, ys: seq<T>)
    requires SubsequenceOf(xs, ys)
    ensures |xs| <= |ys|
  {
    if xs != [] {
      if xs[0] == ys[0] { SubsequenceLength(xs[1..], ys[1..]); } else { SubsequenceLength(xs, ys[1..]); }
    }
  }

  /** The heatmap's dialect test: the unit occurs in some dialect word. */
  predicate InDialectWord(c: char) {
    exists i :: 0 <= i < |DialectKeys| && c in DialectKeys[i]
  }

  /** The tag of one unit, first match wins: rusheng, zhuzhuang, dialect, normal. */
  function CellKind(c: char): HeatType {
    if c in RushengChars then Rusheng
    else if c in ZhuzhuangChars then Zhuzhuang
    else if InDialectWord(c) then Dialect
    else Normal
  }

  function Intensity(kind: HeatType): real {
    match kind
    case Rusheng => 1.0
    case Zhuzhuang => 0.8
    case Dialect => 0.6
    case Normal => 0.0
  }

  /** `ChenxuPhoneticAnalyzer.generateHeatmap`. */
  function Heatmap(text: string): (h: seq<HeatCell>)
    ensures |h| == |text|
    ensures forall i :: 0 <= i < |h| ==> h[i].index == i && h[i].ch == text[i]
  {
    seq(|text|, i requires 0 <= i < |text| => HeatCell(i, text[i], CellKind(text[i]), Intensity(CellKind(text[i]))))
  }

  // ---------------------------------------------------------------------------------
  // Properties of the scorer

  /** The four bonuses never exceed 100 together, so the cap at 100 never changes the sum. */
  lemma ScoreIsSumOfBonuses(text: string)
    ensures var a := Analyze(text);
      a.score == DensityBonus(a.rushengDensity) + PresenceBonus(a.zhuzhuangCount)
        + PresenceBonus(|a.dialectWords|) + LengthBonus(a.charCount)
  {
  }

  /** The density bonus in whole numbers: above 15% means 20r > 3n, above 10% means 10r > n. */
  lemma DensityBonusByCounts(r: nat, n: nat)
    requires r <= n
    ensures DensityBonus(Density(r, n)) == if 20 * r > 3 * n then 40 else if 10 * r > n then 20 else 0
  {
    if n > 0 {
      RatioAbove(r, n, 0.15, 20, 3);
      RatioAbove(r, n, 0.1, 10, 1);
    }
  }

  /** r/n > t, where t = p/q, in whole numbers: r*q > p*n. */
  lemma RatioAbove(r: nat, n: nat, t: real, q: nat, p: nat)
    requires n > 0 && q > 0 && t * q as real == p as real
    ensures r as real / n as real > t <==> r * q > p * n
  {
    var d := r as real / n as real;
    assert d * n as real == r as real;
    ScaleStrict(d, t, n as real);
    assert d > t <==> r as real > t * n as real;
    ScaleStrict(r as real, t * n as real, q as real);
    assert t * n as real * q as real == p as real * n as real;
  }

  lemma ScaleStrict(a: real, b: real, c: real)
    requires c > 0.0
    ensures a > b <==> a * c > b * c
  {
    if a > b {
      assert (a - b) * c > 0.0;
    } else {
      assert (b - a) * c >= 0.0;
    }
  }

  /** The empty text has no units, no density, no score, no dialect words, no features
      and an empty heatmap. */
  lemma AnalyzeEmpty(text: string)
    requires text == []
    ensures Analyze(text) == Analysis(0, 0, 0.0, 0, [], 0, [])
  {
    EmptyMatchesNothing(text);
  }

  lemma EmptyMatchesNothing(text: string)
    requires text == []
    ensures MatchedWords(DialectKeys, text) == []
  {
    NoWordsMatched(DialectKeys, text);
  }

  lemma DialectKeysDistinct()
    ensures Distinct(DialectKeys)
  {
  }

  /** No word is matched in a text that contains none of the keys. */
  lemma {:induction false} NoWordsMatched(keys: seq<string>, text: string)
    requires forall i :: 0 <= i < |keys| ==> !Contains(text, keys[i])
    ensures MatchedWords(keys, text) == []
  {
    if keys != [] {
      NoWordsMatched(keys[1..], text);
    }
  }

  /** A one-unit text matches no dialect word unless it is one of the one-unit words. */
  lemma SingleUnitMatchesNothing(c: char)
    requires c != '恰' && c != '克'
    ensures MatchedWords(DialectKeys, [c]) == []
  {
    forall i | 0 <= i < |DialectKeys| ensures !Contains([c], DialectKeys[i]) {
      var w := DialectKeys[i];
      if |w| == 1 {
        assert w == "恰" || w == "克";
        assert w[0] != c && [c][0..1] == [c];
        assert IndexOf([c], w, 0) == IndexOf([c], w, 1);
      } else {
        assert |w| >= 2;
      }
    }
    NoWordsMatched(DialectKeys, [c]);
  }

  /** The dialect words are exactly the table keys found in the text, in table order,
      each at most once. */
  lemma DialectWordsAreMatchedKeys(text: string)
    ensures var ws := Analyze(text).dialectWords;
      && (forall w :: w in ws <==> w in DialectKeys && Contains(text, w))
      && SubsequenceOf(ws, DialectKeys)
      && Distinct(ws)
  {
    DialectKeysDistinct();
    SubsequenceDistinct(MatchedWords(DialectKeys, text), DialectKeys);
  }

  /** The feature list: one rusheng tag per rusheng unit, then one zhuzhuang tag per
      zhuzhuang unit, then one dialect tag per matched word. */
  lemma FeaturesLayout(text: string)
    ensures var a := Analyze(text);
      var rusheng := Select(text, RushengChars);
      var zhuzhuang := Select(text, ZhuzhuangChars);
      && a.rushengCount == |rusheng| && a.zhuzhuangCount == |zhuzhuang|
      && (forall i :: 0 <= i < |rusheng| ==> a.features[i] == RushengTag + [rusheng[i]])
      && (forall i :: 0 <= i < |zhuzhuang| ==> a.features[|rusheng| + i] == ZhuzhuangTag + [zhuzhuang[i]])
      && (forall i :: 0 <= i < |a.dialectWords| ==>
            a.features[|rusheng| + |zhuzhuang| + i] == DialectTag + a.dialectWords[i])
  {
    FeaturesOrder(Select(text, RushengChars), Select(text, ZhuzhuangChars), MatchedWords(DialectKeys, text));
  }

  lemma FeaturesOrder(rusheng: string, zhuzhuang: string, words: seq<string>)
    ensures var f := Features(rusheng, zhuzhuang, words);
      && (forall i :: 0 <= i < |rusheng| ==> f[i] == RushengTag + [rusheng[i]])
      && (forall i :: 0 <= i < |zhuzhuang| ==> f[|rusheng| + i] == ZhuzhuangTag + [zhuzhuang[i]])
      && (forall i :: 0 <= i < |words| ==> f[|rusheng| + |zhuzhuang| + i] == DialectTag + words[i])
  {
    var f := Features(rusheng, zhuzhuang, words);
    var rt, zt, wt := CharTags(RushengTag, rusheng), CharTags(ZhuzhuangTag, zhuzhuang), WordTags(DialectTag, words);
    assert f == rt + zt + wt;
    forall i | 0 <= i < |rusheng| ensures f[i] == RushengTag + [rusheng[i]] {
      assert f[i] == rt[i];
    }
    forall i | 0 <= i < |zhuzhuang| ensures f[|rusheng| + i] == ZhuzhuangTag + [zhuzhuang[i]] {
      assert f[|rusheng| + i] == zt[i];
    }
    forall i | 0 <= i < |words| ensures f[|rusheng| + |zhuzhuang| + i] == DialectTag + words[i] {
      assert f[|rusheng| + |zhuzhuang| + i] == wt[i];
    }
  }

  /** A unit in both sets is counted, and tagged, once in each. */
  lemma SharedCharCountedTwice(t: string)
    requires t == "十"
    ensures Analyze(t).rushengCount == 1 && Analyze(t).zhuzhuangCount == 1
    ensures Analyze(t).features == ["入声:十", "知组:十"]
  {
    SharedCharSelected(t);
    SingleUnitMatchesNothing('十');
    SharedCharFeatures(t);
  }

  lemma SharedCharFeatures(t: string)
    requires t == "十"
    ensures Features(t, t, []) == ["入声:十", "知组:十"]
  {
    FeaturesOrder(t, t, []);
    var f := Features(t, t, []);
    assert RushengTag + t == "入声:十" && ZhuzhuangTag + t == "知组:十";
    assert f == [f[0], f[1]];
  }

  lemma SharedCharSelected(t: string)
    requires t == "十"
    ensures Select(t, RushengChars) == t && Select(t, ZhuzhuangChars) == t
  {
    assert IsRushengChar('十') && IsZhuzhuangChar('十');
  }

  /** A text none of whose units is in `s` selects nothing. */
  lemma {:induction false} SelectNone(text: string, s: set<char>)
    requires forall i :: 0 <= i < |text| ==> text[i] !in s
    ensures Select(text, s) == []
  {
    if text != [] {
      SelectNone(text[1..], s);
    }
  }

  lemma {:induction false} SelectAppend(a: string, b: string, s: set<char>)
    ensures Select(a + b, s) == Select(a, s) + Select(b, s)
  {
    if a != [] {
      SelectAppend(a[1..], b, s);
      assert (a + b)[1..] == a[1..] + b;
    } else {
      assert a + b == b;
    }
  }

  /** One unit is kept exactly when it belongs to the set; with `SelectAppend` this fixes
      the result for every text. */
  lemma SelectSingle(c: char, s: set<char>)
    ensures Select([c], s) == if c in s then [c] else []
  {
    assert [c][1..] == [];
  }

  /** Each unit of the set occurs in the result as often as in the text; no other unit
      occurs at all. */
  lemma {:induction false} SelectCounts(text: string, s: set<char>)
    ensures forall c :: multiset(Select(text, s))[c] == if c in s then multiset(text)[c] else 0
  {
    if text != [] {
      SelectCounts(text[1..], s);
      assert text == [text[0]] + text[1..];
    }
  }

  lemma ExampleSentenceUnits(t: string)
    requires t == "赶场要恰白崽伢子的饭"
    ensures Select(t, RushengChars) == "白"
    ensures Select(t, ZhuzhuangChars) == ""
  {
    var a, b, c := "赶场要恰", "白", "崽伢子的饭";
    assert a + b + c == t;
    NoRushengIn(a);
    NoRushengIn(c);
    assert Select(b, RushengChars) == b;
    SelectAppend(a, b, RushengChars);
    SelectAppend(a + b, c, RushengChars);
    NoZhuzhuangIn(t);
  }

  lemma NoRushengIn(t: string)
    requires t == "赶场要恰" || t == "崽伢子的饭"
    ensures Select(t, RushengChars) == []
  {
    SelectNone(t, RushengChars);
  }

  lemma NoZhuzhuangIn(t: string)
    requires t == "赶场要恰白崽伢子的饭"
    ensures Select(t, ZhuzhuangChars) == []
  {
    SelectNone(t, ZhuzhuangChars);
  }

  lemma ExampleSentenceHasWords(t: string)
    requires t == "赶场要恰白崽伢子的饭"
    ensures Contains(t, "赶场") && Contains(t, "崽伢子") && Contains(t, "恰")
  {
    assert OccursAt(t, "赶场", 0) && OccursAt(t, "崽伢子", 5) && OccursAt(t, "恰", 3);
  }

  /** The density thresholds are strict: exactly 10% rusheng units earns no density
      bonus, and exactly 15% earns only the lower one. */
  lemma DensityThresholdsStrict(text: string)
    ensures var a := Analyze(text);
      && (10 * a.rushengCount == |text| ==> DensityBonus(a.rushengDensity) == 0)
      && (20 * a.rushengCount == 3 * |text| && |text| > 0 ==> DensityBonus(a.rushengDensity) == 20)
  {
    var a := Analyze(text);
    DensityBonusByCounts(a.rushengCount, |text|);
  }

  /** A ten-unit sentence with one rusheng unit (density exactly 0.1, so no density
      bonus), no zhuzhuang unit and the dialect words 赶场, 崽伢子 and 恰 scores 20. */
  lemma ExampleSentence(t: string)
    requires t == "赶场要恰白崽伢子的饭"
    ensures var a := Analyze(t);
      && a.charCount == 10 && a.rushengCount == 1 && a.zhuzhuangCount == 0
      && "赶场" in a.dialectWords && "崽伢子" in a.dialectWords && "恰" in a.dialectWords
      && a.score == 20
  {
    ExampleSentenceUnits(t);
    ExampleSentenceHasWords(t);
    assert "赶场" in DialectKeys && "崽伢子" in DialectKeys && "恰" in DialectKeys;
    ExampleSentenceScore(t);
  }

  lemma ExampleSentenceScore(text: string)
    requires |text| == 10 && |Select(text, RushengChars)| == 1 && Select(text, ZhuzhuangChars) == []
    requires MatchedWords(DialectKeys, text) != []
    ensures Analyze(text).score == 20
  {
    DensityThresholdsStrict(text);
    ScoreIsSumOfBonuses(text);
  }

  // ---------------------------------------------------------------------------------
  // Properties of the heatmap

  /** The precedence of the heatmap tags, and the intensity that goes with each. */
  lemma HeatmapPrecedence(text: string, i: nat)
    requires i < |text|
    ensures var cell := Heatmap(text)[i]; var c := text[i];
      && (cell.kind == Rusheng <==> c in RushengChars)
      && (cell.kind == Zhuzhuang <==> c !in RushengChars && c in ZhuzhuangChars)
      && (cell.kind == Dialect <==> c !in RushengChars && c !in ZhuzhuangChars && InDialectWord(c))
      && (cell.kind == Normal <==> c !in RushengChars && c !in ZhuzhuangChars && !InDialectWord(c))
      && cell.intensity == match cell.kind
           case Rusheng => 1.0 case Zhuzhuang => 0.8 case Dialect => 0.6 case Normal => 0.0
  {
  }

  /** The dialect tag looks at the unit alone: 场 is tagged dialect although the text
      "场" contains no whole dialect word. */
  lemma HeatmapDialectIsPerUnit(t: string)
    requires t == "场"
    ensures Heatmap(t)[0].kind == Dialect
    ensures Analyze(t).dialectWords == []
  {
    ChangIsDialectUnit();
    SingleUnitMatchesNothing('场');
  }

  lemma ChangIsDialectUnit()
    ensures CellKind('场') == Dialect
  {
    assert '场' in DialectKeys[0];
  }

  function CountKind(cells: seq<HeatCell>, kind: HeatType): nat {
    if cells == [] then 0 else (if cells[0].kind == kind then 1 else 0) + CountKind(cells[1..], kind)
  }

  lemma {:induction false} CountKindMatchesSelect(cells: seq<HeatCell>, text: string)
    requires |cells| == |text|
    requires forall i :: 0 <= i < |text| ==> cells[i].kind == CellKind(text[i])
    ensures CountKind(cells, Rusheng) == |Select(text, RushengChars)|
    ensures CountKind(cells, Zhuzhuang) == |Select(text, ZhuzhuangChars - RushengChars)|
  {
    if text != [] {
      CountKindMatchesSelect(cells[1..], text[1..]);
    }
  }

  /** The two passes agree: the heatmap has one rusheng cell per rusheng unit counted by
      the scorer, and its zhuzhuang cells are the zhuzhuang units that are not rusheng. */
  lemma HeatmapAgreesWithCounts(text: string)
    ensures CountKind(Heatmap(text), Rusheng) == Analyze(text).rushengCount
    ensures CountKind(Heatmap(text), Zhuzhuang) == |Select(text, ZhuzhuangChars - RushengChars)|
    ensures CountKind(Heatmap(text), Zhuzhuang) <= Analyze(text).zhuzhuangCount
  {
    CountKindMatchesSelect(Heatmap(text), text);
    SelectSubset(text, ZhuzhuangChars - RushengChars, ZhuzhuangChars);
  }

  lemma {:induction false} SelectSubset(text: string, s: set<char>, t: set<char>)
    requires s <= t
    ensures |Select(text, s)| <= |Select(text, t)|
  {
    if text != [] {
      SelectSubset(text[1..], s, t);
    }
  }
}
