/** The Python string built-ins the core relies on (`str.strip`, `str.lower`,
    `str.split`, `str.replace`, `str.startswith`, `int(str)`, `str(int)`,
    `os.path.basename` and the `\w` character class), restricted to ASCII. */
module PyText {
  import opened Wrappers

  /** `str.isspace` on the ASCII range. */
  predicate IsSpace(c: char) {
    c == ' ' || c == '\t' || c == '\n' || c == '\r' || c == '\U{B}' || c == '\U{C}'
    || c == '\U{1C}' || c == '\U{1D}' || c == '\U{1E}' || c == '\U{1F}'
  }

  predicate IsDigit(c: char) {
    '0' <= c <= '9'
  }

  predicate IsLowerAlnum(c: char) {
    'a' <= c <= 'z' || IsDigit(c)
  }

  /** The `\w` class of a `re` pattern, on ASCII. */
  predicate IsWordChar(c: char) {
    'a' <= c <= 'z' || 'A' <= c <= 'Z' || IsDigit(c) || c == '_'
  }

  predicate StartsWith(s: string, prefix: string) {
    |prefix| <= |s| && s[..|prefix|] == prefix
  }

  predicate EndsWith(s: string, suffix: string) {
    |suffix| <= |s| && s[|s| - |suffix|..] == suffix
  }

  /** The characters a strip removes: `str.isspace` for `str.strip()`, and the
      narrower C `isspace` set (space, `\t\n\v\f\r`) for the whitespace
      `int()` skips around the digits of an ASCII string. */
  datatype Blanks = StrBlanks | IntBlanks

  predicate IsBlank(b: Blanks, c: char) {
    match b
    case StrBlanks => IsSpace(c)
    case IntBlanks => c == ' ' || c == '\t' || c == '\n' || c == '\r' || c == '\U{B}' || c == '\U{C}'
  }

  function TrimLeft(s: string, b: Blanks): string {
    if s == [] || !IsBlank(b, s[0]) then s else TrimLeft(s[1..], b)
  }

  /** `lstrip` removes a run of leading blanks and stops at the first other character. */
  lemma {:induction false} TrimLeftFacts(s: string, b: Blanks)
    ensures var r := TrimLeft(s, b);
            && |r| <= |s| && r == s[|s| - |r|..]
            && (r == [] || !IsBlank(b, r[0]))
            && forall i :: 0 <= i < |s| - |r| ==> IsBlank(b, s[i])
  {
    if s != [] && IsBlank(b, s[0]) {
      var t, r := s[1..], TrimLeft(s[1..], b);
      TrimLeftFacts(t, b);
      assert r == TrimLeft(s, b);
      assert t[|t| - |r|..] == s[|s| - |r|..];
      forall i | 0 <= i < |s| - |r|
        ensures IsBlank(b, s[i])
      {
        if i > 0 {
          assert s[i] == t[i - 1];
        }
      }
    }
  }

  function TrimRight(s: string, b: Blanks): string {
    if s == [] || !IsBlank(b, s[|s| - 1]) then s else TrimRight(s[..|s| - 1], b)
  }

  /** `rstrip` removes a run of trailing blanks and stops at the last other character. */
  lemma {:induction false} TrimRightFacts(s: string, b: Blanks)
    ensures var r := TrimRight(s, b);
            && |r| <= |s| && r == s[..|r|]
            && (r == [] || !IsBlank(b, r[|r| - 1]))
            && forall i :: |r| <= i < |s| ==> IsBlank(b, s[i])
  {
    if s != [] && IsBlank(b, s[|s| - 1]) {
      var t, r := s[..|s| - 1], TrimRight(s[..|s| - 1], b);
      TrimRightFacts(t, b);
      assert r == TrimRight(s, b);
      assert t[..|r|] == s[..|r|];
      forall i | |r| <= i < |s|
        ensures IsBlank(b, s[i])
      {
        if i < |t| {
          assert s[i] == t[i];
        }
      }
    }
  }

  /** `s` without the blanks of kind `b` at either end. */
  function StripBlanks(s: string, b: Blanks): string {
    TrimRight(TrimLeft(s, b), b)
  }

  /** `str.strip()`: `s` without the whitespace at either end. */
  function Strip(s: string): string {
    StripBlanks(s, StrBlanks)
  }

  /** `str.strip()` leaves nothing exactly when every character is whitespace. */
  lemma StripEmptyIff(s: string)
    ensures Strip(s) == [] <==> forall i :: 0 <= i < |s| ==> IsSpace(s[i])
  {
    var l := TrimLeft(s, StrBlanks);
    TrimLeftFacts(s, StrBlanks);
    TrimRightFacts(l, StrBlanks);
    assert l == [] || l[0] == s[|s| - |l|];
    assert l != [] ==> TrimRight(l, StrBlanks) != [];
  }

  /** Every blank `int()` skips is whitespace to `str.strip()`, but not the
      other way round: the separators `\x1c`-`\x1f` are kept by `int()`. */
  lemma IntBlanksNarrower(c: char)
    ensures IsBlank(IntBlanks, c) ==> IsSpace(c)
    ensures IsSpace('\U{1C}') && !IsBlank(IntBlanks, '\U{1C}')
  {
  }

  lemma StripNoEdgeSpace(s: string, b: Blanks)
    requires s == [] || (!IsBlank(b, s[0]) && !IsBlank(b, s[|s| - 1]))
    ensures StripBlanks(s, b) == s
  {
  }

  function LowerChar(c: char): char {
    if 'A' <= c <= 'Z' then (c as int + 32) as char else c
  }

  /** `str.lower()` on ASCII letters; every other character is kept. */
  function Lower(s: string): (r: string)
    ensures |r| == |s|
    ensures forall i :: 0 <= i < |s| ==> r[i] == LowerChar(s[i])
  {
    seq(|s|, i requires 0 <= i < |s| => LowerChar(s[i]))
  }

  /** Length of the longest prefix of `s` without whitespace. */
  function TokenLength(s: string): (n: nat)
    ensures n <= |s|
    ensures forall i :: 0 <= i < n ==> !IsSpace(s[i])
    ensures n == |s| || IsSpace(s[n])
  {
    if s == [] || IsSpace(s[0]) then 0 else 1 + TokenLength(s[1..])
  }

  /** `str.split()` with no separator: the maximal runs of non-whitespace. */
  function Words(s: string): (ws: seq<string>)
    decreases |s|
  {
    if s == [] then []
    else if IsSpace(s[0]) then Words(s[1..])
    else
      var n := TokenLength(s);
      [s[..n]] + Words(s[n..])
  }

  /** `w` occurs in `s` at `i` with whitespace or an end of `s` on each side. */
  predicate DelimitedAt(s: string, w: string, i: int) {
    0 <= i && i + |w| <= |s| && s[i..i + |w|] == w
    && (i == 0 || IsSpace(s[i - 1]))
    && (i + |w| == |s| || IsSpace(s[i + |w|]))
  }

  predicate NoSpace(w: string) {
    forall i :: 0 <= i < |w| ==> !IsSpace(w[i])
  }

  lemma DelimitedDrop(s: string, w: string, k: nat, j: int)
    requires k <= j && DelimitedAt(s, w, j)
    ensures DelimitedAt(s[k..], w, j - k)
  {
    assert s[k..][j - k..j - k + |w|] == s[j..j + |w|];
  }

  lemma DelimitedLift(s: string, w: string, k: nat, i: int)
    requires k <= |s| && DelimitedAt(s[k..], w, i)
    requires i > 0 || k == 0 || IsSpace(s[k - 1])
    ensures DelimitedAt(s, w, i + k)
  {
    assert s[k..][i..i + |w|] == s[i + k..i + k + |w|];
  }

  /** What `Words` states about `s`: `w` is a word of `s` between delimiters. */
  predicate IsDelimitedWord(s: string, w: string) {
    w != [] && NoSpace(w) && exists i | 0 <= i <= |s| :: DelimitedAt(s, w, i)
  }

  /** Leading whitespace neither creates nor hides a delimited word. */
  lemma DelimitedAfterSpace(s: string, w: string)
    requires s != [] && IsSpace(s[0])
    ensures IsDelimitedWord(s, w) <==> IsDelimitedWord(s[1..], w)
  {
    if IsDelimitedWord(s, w) {
      var j :| DelimitedAt(s, w, j);
      assert w != [] && !IsSpace(w[0]);
      assert DelimitedAt(s, w, j);
      assert 0 <= j;
      assert j + |w| <= |s|;
      DelimitedDrop(s, w, 1, j);
    }
    if IsDelimitedWord(s[1..], w) {
      var i :| DelimitedAt(s[1..], w, i);
      DelimitedLift(s, w, 1, i);
    }
  }

  /** A leading token is a delimited word, and every other delimited word lies after it. */
  lemma DelimitedAfterToken(s: string, w: string)
    requires s != [] && !IsSpace(s[0])
    ensures IsDelimitedWord(s, w)
       <==> w == s[..TokenLength(s)] || IsDelimitedWord(s[TokenLength(s)..], w)
  {
    var n := TokenLength(s);
    if w == s[..n] {
      assert DelimitedAt(s, w, 0);
    }
    if IsDelimitedWord(s[n..], w) {
      var i :| DelimitedAt(s[n..], w, i);
      assert DelimitedAt(s[n..], w, i);
      assert w != [] && !IsSpace(w[0]);
      assert i != 0 by { assert s[n..][i] == w[0]; }
      DelimitedLift(s, w, n, i);
    }
    if IsDelimitedWord(s, w) {
      var j :| DelimitedAt(s, w, j);
      assert DelimitedAt(s, w, j);
      if j < n {
        assert j == 0;
        assert |w| == n;
        assert w == s[..n];
      } else {
        DelimitedDrop(s, w, n, j);
      }
    }
  }

  /** The tokens of `str.split()` are exactly the non-empty whitespace-free
      words standing between whitespace or the ends of the string. */
  lemma {:induction false} WordsAreDelimited(s: string, w: string)
    ensures w in Words(s) <==> IsDelimitedWord(s, w)
    decreases |s|
  {
    if s == [] {
    } else if IsSpace(s[0]) {
      WordsAreDelimited(s[1..], w);
      DelimitedAfterSpace(s, w);
    } else {
      var n := TokenLength(s);
      assert Words(s) == [s[..n]] + Words(s[n..]);
      WordsAreDelimited(s[n..], w);
      DelimitedAfterToken(s, w);
    }
  }

  /** `str.split(sep)` with a one-character separator. */
  function Split(s: string, sep: char): (parts: seq<string>)
    ensures |parts| >= 1
    ensures forall k :: 0 <= k < |parts| ==> sep !in parts[k]
  {
    if s == [] then [[]]
    else
      var rest := Split(s[1..], sep);
      if s[0] == sep then [[]] + rest
      else [[s[0]] + rest[0]] + rest[1..]
  }

  function Join(parts: seq<string>, sep: char): string
    requires |parts| >= 1
  {
    if |parts| == 1 then parts[0] else parts[0] + [sep] + Join(parts[1..], sep)
  }

  /** Splitting loses nothing: joining the parts with the separator gives back the string. */
  lemma {:induction false} SplitJoin(s: string, sep: char)
    ensures Join(Split(s, sep), sep) == s
  {
    if s != [] {
      SplitJoin(s[1..], sep);
      var rest := Split(s[1..], sep);
      if s[0] != sep && |rest| > 1 {
        assert Join(rest, sep) == rest[0] + [sep] + Join(rest[1..], sep);
      }
    }
  }

  /** A string without the separator is a single part. */
  lemma {:induction false} SplitWithoutSeparator(s: string, sep: char)
    requires sep !in s
    ensures Split(s, sep) == [s]
  {
    if s != [] {
      SplitWithoutSeparator(s[1..], sep);
      assert s[0] != sep && [s[0]] + s[1..] == s;
    }
  }

  /** `a + [sep] + b` splits into the parts of `a` followed by those of `b`, when `a` has no separator. */
  lemma {:induction false} SplitAtSeparator(a: string, sep: char, b: string)
    requires sep !in a
    ensures Split(a + [sep] + b, sep) == [a] + Split(b, sep)
  {
    if a == [] {
      assert (a + [sep] + b)[1..] == b;
    } else {
      assert (a + [sep] + b)[1..] == a[1..] + [sep] + b;
      SplitAtSeparator(a[1..], sep, b);
      assert a[0] != sep && [a[0]] + a[1..] == a;
    }
  }

  /** `str.replace(pattern, replacement)`: every non-overlapping occurrence, left to right. */
  function ReplaceAll(s: string, pattern: string, replacement: string): string
    requires pattern != []
    decreases |s|
  {
    if s == [] then []
    else if StartsWith(s, pattern) then replacement + ReplaceAll(s[|pattern|..], pattern, replacement)
    else [s[0]] + ReplaceAll(s[1..], pattern, replacement)
  }

  lemma {:induction false} ReplaceAbsent(s: string, pattern: string, replacement: string)
    requires pattern != [] && |s| < |pattern|
    ensures ReplaceAll(s, pattern, replacement) == s
    decreases |s|
  {
    if s != [] {
      ReplaceAbsent(s[1..], pattern, replacement);
    }
  }

  /** `os.path.basename`: what follows the last `/`. */
  function Basename(p: string): (b: string)
    ensures '/' !in b
    ensures EndsWith(p, b)
    ensures |b| < |p| ==> p[|p| - |b| - 1] == '/'
  {
    if p == [] || p[|p| - 1] == '/' then []
    else
      var b := Basename(p[..|p| - 1]) + [p[|p| - 1]];
      assert p[|p| - |b|..] == p[..|p| - 1][|p| - |b|..] + [p[|p| - 1]];
      b
  }

  function DigitValue(c: char): nat
    requires IsDigit(c)
  {
    c as nat - '0' as nat
  }

  function DigitChar(d: nat): (c: char)
    requires d < 10
    ensures IsDigit(c) && DigitValue(c) == d
  {
    ('0' as nat + d) as char
  }

  /** Digits with single underscores only between digits, as `int()` accepts them. */
  predicate IsDigitGroup(s: string) {
    |s| > 0 && IsDigit(s[0]) && IsDigit(s[|s| - 1])
    && (forall i :: 0 <= i < |s| ==> IsDigit(s[i]) || s[i] == '_')
    && (forall i :: 0 <= i < |s| - 1 ==> IsDigit(s[i]) || IsDigit(s[i + 1]))
  }

  function DigitsValue(s: string): nat
    requires forall i :: 0 <= i < |s| ==> IsDigit(s[i]) || s[i] == '_'
  {
    if s == [] then 0
    else if s[|s| - 1] == '_' then DigitsValue(s[..|s| - 1])
    else 10 * DigitsValue(s[..|s| - 1]) + DigitValue(s[|s| - 1])
  }

  /** `int(s)` in base 10: surrounding C whitespace, an optional sign, then digits. */
  function ParseInt(s: string): Option<int> {
    ParseSigned(StripBlanks(s, IntBlanks))
  }

  /** `int()` once the surrounding whitespace is gone: an optional sign, then digits. */
  function ParseSigned(t: string): Option<int> {
    if t == [] then None
    else
      var negative := t[0] == '-';
      var body := if t[0] == '-' || t[0] == '+' then t[1..] else t;
      if !IsDigitGroup(body) then None
      else Some(if negative then -(DigitsValue(body) as int) else DigitsValue(body))
  }

  function NatToString(n: nat): (s: string)
    ensures |s| > 0 && forall i :: 0 <= i < |s| ==> IsDigit(s[i])
  {
    if n < 10 then [DigitChar(n)] else NatToString(n / 10) + [DigitChar(n % 10)]
  }

  /** `str(n)` for an integer. */
  function IntToString(n: int): string {
    if n < 0 then "-" + NatToString(-n) else NatToString(n)
  }

  lemma {:induction false} NatToStringValue(n: nat)
    ensures DigitsValue(NatToString(n)) == n
  {
    if n >= 10 {
      var s := NatToString(n);
      assert s[..|s| - 1] == NatToString(n / 10);
      NatToStringValue(n / 10);
    }
  }

  /** `int(str(n)) == n`. */
  lemma IntToStringParses(n: int)
    ensures ParseInt(IntToString(n)) == Some(n)
  {
    var m: nat := if n < 0 then -n else n;
    NatToStringValue(m);
    if n < 0 {
      NegativeDigitsParse(NatToString(m));
    } else {
      DigitsParse(NatToString(m));
    }
  }

  /** A plain digit string reads back as its value. */
  lemma DigitsParse(digits: string)
    requires |digits| > 0 && forall i :: 0 <= i < |digits| ==> IsDigit(digits[i])
    ensures ParseInt(digits) == Some(DigitsValue(digits) as int)
  {
    PlainSigned(digits);
    ParseUnstripped(digits);
  }

  /** A digit string after `-` reads back as the negated value. */
  lemma NegativeDigitsParse(digits: string)
    requires |digits| > 0 && forall i :: 0 <= i < |digits| ==> IsDigit(digits[i])
    ensures ParseInt("-" + digits) == Some(-(DigitsValue(digits) as int))
  {
    NegativeSigned(digits);
    ParseUnstripped("-" + digits);
  }

  /** Without whitespace at either end, `int()` reads the text as it is. */
  lemma ParseUnstripped(s: string)
    requires s == [] || (!IsSpace(s[0]) && !IsSpace(s[|s| - 1]))
    ensures ParseInt(s) == ParseSigned(s)
  {
    StripNoEdgeSpace(s, IntBlanks);
  }

  /** `int()` keeps a leading file separator, so `"\x1c5"` is not a number,
      although `str.strip()` would remove it. */
  lemma SeparatorNotSkipped()
    ensures Strip("\U{1C}5") == "5"
    ensures ParseInt("\U{1C}5") == None
  {
    var s := "\U{1C}5";
    assert TrimLeft(s, StrBlanks) == TrimLeft(s[1..], StrBlanks);
    assert s[1..] == "5";
    assert StripBlanks(s, IntBlanks) == s;
    assert !IsDigitGroup(s);
  }

  lemma PlainSigned(digits: string)
    requires |digits| > 0 && forall i :: 0 <= i < |digits| ==> IsDigit(digits[i])
    ensures ParseSigned(digits) == Some(DigitsValue(digits) as int)
  {
    assert IsDigitGroup(digits);
  }

  lemma NegativeSigned(digits: string)
    requires |digits| > 0 && forall i :: 0 <= i < |digits| ==> IsDigit(digits[i])
    ensures ParseSigned("-" + digits) == Some(-(DigitsValue(digits) as int))
  {
    var t := "-" + digits;
    assert t[1..] == digits;
    assert IsDigitGroup(digits);
  }
}
