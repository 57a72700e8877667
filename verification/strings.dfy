/** The few JavaScript string operations the core relies on: `trim`, `startsWith`,
    `endsWith`, `includes`/`indexOf`, `replace` of a literal, `split` on one character
    and `Array.prototype.join`.  A string is a sequence of UTF-16 code units. */
module Strings {
  import opened Wrappers

  /** JavaScript's WhiteSpace and LineTerminator characters (ECMA-262, sections 12.2
      and 12.3): what `String.prototype.trim` removes and what `\s` matches. */
  predicate IsWhitespace(c: char) {
    || c == ' ' || c == '\t' || c == '\n' || c == '\r' || c == '\U{B}' || c == '\U{C}'
    || c == '\U{A0}' || c == '\U{FEFF}' || c == '\U{1680}' || ('\U{2000}' <= c <= '\U{200A}')
    || c == '\U{2028}' || c == '\U{2029}' || c == '\U{202F}' || c == '\U{205F}' || c == '\U{3000}'
  }

  /** Leading whitespace removed: the result is the suffix of `s` after the maximal
      whitespace prefix. */
  function TrimStart(s: string): (r: string)
    ensures |r| <= |s| && r == s[|s| - |r|..]
    ensures r == [] || !IsWhitespace(r[0])
    ensures forall i :: 0 <= i < |s| - |r| ==> IsWhitespace(s[i])
  {
    if s != [] && IsWhitespace(s[0]) then TrimStart(s[1..]) else s
  }

  /** Trailing whitespace removed: the result is the prefix of `s` before the maximal
      whitespace suffix. */
  function TrimEnd(s: string): (r: string)
    ensures |r| <= |s| && r == s[..|r|]
    ensures r == [] || !IsWhitespace(r[|r| - 1])
    ensures forall i :: |r| <= i < |s| ==> IsWhitespace(s[i])
  {
    if s != [] && IsWhitespace(s[|s| - 1]) then TrimEnd(s[..|s| - 1]) else s
  }

  /** `String.prototype.trim`. */
  function Trim(s: string): (r: string)
    ensures |r| <= |s|
    ensures r == [] || (!IsWhitespace(r[0]) && !IsWhitespace(r[|r| - 1]))
    ensures (s == [] || (!IsWhitespace(s[0]) && !IsWhitespace(s[|s| - 1]))) ==> r == s
  {
    var t := TrimStart(s);
    assert t != [] ==> t[0] == s[|s| - |t|];
    TrimEnd(t)
  }

  lemma TrimIdempotent(s: string)
    ensures Trim(Trim(s)) == Trim(s)
  {
  }

  predicate StartsWith(s: string, prefix: string) {
    |prefix| <= |s| && s[..|prefix|] == prefix
  }

  predicate EndsWith(s: string, suffix: string) {
    |suffix| <= |s| && s[|s| - |suffix|..] == suffix
  }

  /** `pat` occurs in `s` starting at index `i`. */
  predicate OccursAt(s: string, pat: string, i: nat) {
    i + |pat| <= |s| && s[i..i + |pat|] == pat
  }

  /** `s.indexOf(pat, from)`: the first index at or after `from` where `pat` occurs. */
  function IndexOf(s: string, pat: string, from: nat): (r: Option<nat>)
    ensures r.Some? ==> from <= r.value && OccursAt(s, pat, r.value)
    ensures forall j :: from <= j && (r.None? || j < r.value) ==> !OccursAt(s, pat, j)
    decreases |s| - from
  {
    if from + |pat| > |s| then None
    else if s[from..from + |pat|] == pat then Some(from)
    else IndexOf(s, pat, from + 1)
  }

  /** `text.includes(w)`. */
  predicate Contains(text: string, w: string) {
    IndexOf(text, w, 0).Some?
  }

  lemma ContainsIff(text: string, w: string)
    ensures Contains(text, w) <==> exists i: nat :: OccursAt(text, w, i)
  {
  }

  /** `s.replace(pat, rep)` with a literal pattern: only the first occurrence is replaced. */
  function ReplaceFirst(s: string, pat: string, rep: string): (r: string)
    ensures IndexOf(s, pat, 0).None? ==> r == s
    ensures IndexOf(s, pat, 0).Some? ==> (var i := IndexOf(s, pat, 0).value;
      |r| == |s| - |pat| + |rep| && r[..i] == s[..i] && r[i..i + |rep|] == rep && r[i + |rep|..] == s[i + |pat|..])
  {
    match IndexOf(s, pat, 0)
    case None => s
    case Some(i) => s[..i] + rep + s[i + |pat|..]
  }

  /** `s.replace(/c+$/, '')`: every trailing copy of `c` removed. */
  function DropTrailing(s: string, c: char): (r: string)
    ensures |r| <= |s| && r == s[..|r|]
    ensures r == [] || r[|r| - 1] != c
    ensures forall i :: |r| <= i < |s| ==> s[i] == c
  {
    if s != [] && s[|s| - 1] == c then DropTrailing(s[..|s| - 1], c) else s
  }

  /** `s.split(sep)` for a one-character separator; `"".split(sep)` is `[""]`. */
  function Split(s: string, sep: char): (parts: seq<string>)
    ensures |parts| >= 1
    ensures forall i :: 0 <= i < |parts| ==> sep !in parts[i]
  {
    if s == [] then [[]]
    else
      var rest := Split(s[1..], sep);
      if s[0] == sep then [[]] + rest
      else [[s[0]] + rest[0]] + rest[1..]
  }

  /** `parts.join(sep)`; `[].join(sep)` is `""`. */
  function Join(parts: seq<string>, sep: char): string {
    if |parts| == 0 then []
    else if |parts| == 1 then parts[0]
    else parts[0] + [sep] + Join(parts[1..], sep)
  }

  /** Joining the pieces of a split gives back the original string. */
  lemma {:induction false} JoinSplit(s: string, sep: char)
    ensures Join(Split(s, sep), sep) == s
  {
    if s != [] {
      var rest := Split(s[1..], sep);
      JoinSplit(s[1..], sep);
      if s[0] == sep {
        assert Split(s, sep) == [[]] + rest;
        assert Join([[]] + rest, sep) == [] + [sep] + Join(rest, sep);
      } else {
        var parts := Split(s, sep);
        assert parts == [[s[0]] + rest[0]] + rest[1..];
        if |rest| == 1 {
          assert Join(parts, sep) == [s[0]] + rest[0];
        } else {
          assert Join(rest, sep) == rest[0] + [sep] + Join(rest[1..], sep);
          assert parts[1..] == rest[1..];
        }
      }
    }
  }

  /** Splitting a separator-free prefix off the front of a string. */
  lemma {:induction false} SplitPrefix(p: string, t: string, sep: char)
    requires sep !in p
    ensures Split(p + t, sep) == [p + Split(t, sep)[0]] + Split(t, sep)[1..]
  {
    if p != [] {
      SplitPrefix(p[1..], t, sep);
      var s, r := Split(t, sep), Split(p[1..] + t, sep);
      assert (p + t)[1..] == p[1..] + t;
      assert (p + t)[0] == p[0] && p[0] != sep;
      assert Split(p + t, sep) == [[p[0]] + r[0]] + r[1..];
      assert r[0] == p[1..] + s[0] && r[1..] == s[1..];
      assert [p[0]] + (p[1..] + s[0]) == p + s[0];
    } else {
      var parts := Split(t, sep);
      assert p + t == t && p + parts[0] == parts[0];
      assert parts == [parts[0]] + parts[1..];
    }
  }

  /** Splitting a join of separator-free pieces gives back the pieces. */
  lemma {:induction false} SplitJoin(parts: seq<string>, sep: char)
    requires |parts| >= 1
    requires forall i :: 0 <= i < |parts| ==> sep !in parts[i]
    ensures Split(Join(parts, sep), sep) == parts
  {
    if |parts| == 1 {
      SplitPrefix(parts[0], [], sep);
      assert parts[0] + [] == parts[0];
    } else {
      var rest := Join(parts[1..], sep);
      SplitJoin(parts[1..], sep);
      SplitPrefix(parts[0], [sep] + rest, sep);
      assert parts[0] + [sep] + rest == parts[0] + ([sep] + rest);
      assert ([sep] + rest)[1..] == rest;
      assert Split([sep] + rest, sep) == [[]] + Split(rest, sep);
      assert parts[0] + [] == parts[0];
    }
  }

  /** A separator-free string is one piece. */
  lemma SplitNoSeparator(p: string, sep: char)
    requires sep !in p
    ensures Split(p, sep) == [p]
  {
    SplitPrefix(p, [], sep);
    assert p + [] == p;
  }

  /** Splitting at one separator splits the two sides independently. */
  lemma {:induction false} SplitAppend(a: string, b: string, sep: char)
    ensures Split(a + [sep] + b, sep) == Split(a, sep) + Split(b, sep)
  {
    if a == [] {
      SplitConsSeparator(b, sep);
      assert a + [sep] + b == [sep] + b;
    } else {
      var t := a[1..] + [sep] + b;
      var l, r := Split(a[1..], sep), Split(b, sep);
      SplitAppend(a[1..], b, sep);
      assert a + [sep] + b == [a[0]] + t;
      assert a == [a[0]] + a[1..];
      if a[0] == sep {
        SplitConsSeparator(t, sep);
        SplitConsSeparator(a[1..], sep);
        ConsAssoc([], l, r);
      } else {
        var h := [a[0]] + l[0];
        SplitConsOther(a[0], t, sep);
        SplitConsOther(a[0], a[1..], sep);
        HeadOfAppend(l, r);
        ConsAssoc(h, l[1..], r);
      }
    }
  }

  /** A leading separator closes an empty piece. */
  lemma SplitConsSeparator(t: string, sep: char)
    ensures Split([sep] + t, sep) == [[]] + Split(t, sep)
  {
    assert ([sep] + t)[1..] == t;
  }

  /** Any other leading unit starts the first piece. */
  lemma SplitConsOther(c: char, t: string, sep: char)
    requires c != sep
    ensures Split([c] + t, sep) == [[c] + Split(t, sep)[0]] + Split(t, sep)[1..]
  {
    assert ([c] + t)[0] == c && ([c] + t)[1..] == t;
  }

  lemma ConsAssoc<T>(h: T, l: seq<T>, r: seq<T>)
    ensures [h] + (l + r) == ([h] + l) + r
  {
  }

  lemma HeadOfAppend<T>(l: seq<T>, r: seq<T>)
    requires l != []
    ensures (l + r)[0] == l[0] && (l + r)[1..] == l[1..] + r
  {
  }

  /** Cutting an occurrence out and putting it back gives the original. */
  lemma RemovedRestored(s: string, pat: string, i: nat)
    requires OccursAt(s, pat, i)
    ensures var r := s[..i] + s[i + |pat|..];
      |r| + |pat| == |s| && i <= |r| && r[..i] + pat + r[i..] == s
  {
    var r := s[..i] + s[i + |pat|..];
    assert r[..i] == s[..i] && r[i..] == s[i + |pat|..];
    assert s == s[..i] + s[i..i + |pat|] + s[i + |pat|..];
  }
}
