/**
 * The string primitives the bot's argument parsing relies on:
 * `str.split()` and `str.split(maxsplit=n)` with Python's whitespace set,
 * `str.split(sep)` with a one-character separator, and `str.isdigit()` and
 * base-10 `int()` over the ASCII digits 0-9 only (the other Unicode digits
 * Python also accepts are not modelled), with the whitespace `int()` skips
 * around a literal, which leaves out U+001C to U+001F.
 */
module Text {
  import opened Wrappers

  /** The characters Python's `str.split()` treats as whitespace. */
  predicate IsSpace(c: char) {
    || c == ' '
    || '\t' <= c <= '\r'                    // \t \n \x0b \x0c \r
    || '\U{001C}' <= c <= '\U{001F}'
    || c == '\U{0085}' || c == '\U{00A0}' || c == '\U{1680}'
    || '\U{2000}' <= c <= '\U{200A}'
    || c == '\U{2028}' || c == '\U{2029}' || c == '\U{202F}'
    || c == '\U{205F}' || c == '\U{3000}'
  }

  /** A token produced by `str.split()`: non-empty, without whitespace. */
  predicate IsWord(w: string) {
    |w| > 0 && forall i :: 0 <= i < |w| ==> !IsSpace(w[i])
  }

  /** Length of the run of non-whitespace characters that starts `t`. */
  function WordLen(t: string): (k: nat)
    ensures k <= |t|
    ensures forall i :: 0 <= i < k ==> !IsSpace(t[i])
    ensures k < |t| ==> IsSpace(t[k])
  {
    if t == [] || IsSpace(t[0]) then 0 else 1 + WordLen(t[1..])
  }

  /** Python's `s.split()`: the maximal runs of non-whitespace, in order. */
  function Split(s: string): (words: seq<string>)
    ensures forall i :: 0 <= i < |words| ==> IsWord(words[i])
    decreases |s|
  {
    if s == [] then []
    else if IsSpace(s[0]) then Split(s[1..])
    else
      var k := WordLen(s);
      [s[..k]] + Split(s[k..])
  }

  /**
   * Python's `s.split(maxsplit=n)`: at most `n` splits; the last part is the
   * rest of the string with its leading whitespace dropped and its trailing
   * whitespace kept.
   */
  function SplitMax(s: string, maxsplit: nat): (parts: seq<string>)
    ensures |parts| <= maxsplit + 1
    ensures forall i :: 0 <= i < |parts| ==> parts[i] != [] && !IsSpace(parts[i][0])
    decreases |s|
  {
    if s == [] then []
    else if IsSpace(s[0]) then SplitMax(s[1..], maxsplit)
    else if maxsplit == 0 then [s]
    else
      var k := WordLen(s);
      [s[..k]] + SplitMax(s[k..], maxsplit - 1)
  }

  /** Words joined by single spaces (the inverse of `Split` on words). */
  function Unwords(ws: seq<string>): string {
    if ws == [] then []
    else if |ws| == 1 then ws[0]
    else ws[0] + " " + Unwords(ws[1..])
  }

  lemma {:induction false} WordLenOfWord(w: string, rest: string)
    requires IsWord(w)
    requires rest == [] || IsSpace(rest[0])
    ensures WordLen(w + rest) == |w|
  {
    if |w| > 1 {
      WordLenOfWord(w[1..], rest);
      assert (w + rest)[1..] == w[1..] + rest;
    } else {
      assert (w + rest)[1..] == rest;
    }
  }

  /** Splitting words joined by spaces gives the words back. */
  lemma {:induction false} SplitUnwords(ws: seq<string>)
    requires forall i :: 0 <= i < |ws| ==> IsWord(ws[i])
    ensures Split(Unwords(ws)) == ws
  {
    if ws == [] {
    } else if |ws| == 1 {
      var w := ws[0];
      WordLenOfWord(w, []);
      assert w + [] == w;
      assert w[..|w|] == w;
      assert w[|w|..] == [];
    } else {
      var w := ws[0];
      var rest := Unwords(ws[1..]);
      var s := Unwords(ws);
      assert s == w + (" " + rest);
      WordLenOfWord(w, " " + rest);
      assert s[..|w|] == w;
      assert s[|w|..] == " " + rest;
      assert (" " + rest)[1..] == rest;
      SplitUnwords(ws[1..]);
    }
  }

  /** Whitespace before the first word is dropped. */
  lemma SplitSpace(c: char, rest: string)
    requires IsSpace(c)
    ensures Split([c] + rest) == Split(rest)
  {
    assert ([c] + rest)[1..] == rest;
  }

  /**
   * A word ended by whitespace or by the end of the string is the first
   * token. With `Split([]) == []` and `SplitSpace` this determines `Split`
   * on every string.
   */
  lemma SplitWord(w: string, rest: string)
    requires IsWord(w)
    requires rest == [] || IsSpace(rest[0])
    ensures Split(w + rest) == [w] + Split(rest)
  {
    var s := w + rest;
    WordLenOfWord(w, rest);
    assert s[..|w|] == w;
    assert s[|w|..] == rest;
  }

  /** A suffix of a suffix is a suffix. */
  lemma SuffixOfSuffix(s: string, k: nat, last: string)
    requires k <= |s| && |last| <= |s| - k
    requires last == s[k..][|s| - k - |last|..]
    ensures last == s[|s| - |last|..]
  {
  }

  /** The last part of `split(maxsplit=n)` is a suffix of the string, taken verbatim. */
  lemma {:induction false} SplitMaxLastSuffix(s: string, n: nat)
    requires |SplitMax(s, n)| == n + 1
    ensures |SplitMax(s, n)[n]| <= |s|
    ensures SplitMax(s, n)[n] == s[|s| - |SplitMax(s, n)[n]|..]
    decreases |s|, 1
  {
    if IsSpace(s[0]) {
      SplitMaxLastSuffixSpace(s, n);
    } else if n > 0 {
      SplitMaxLastSuffixWord(s, n);
    }
  }

  lemma {:induction false} SplitMaxLastSuffixSpace(s: string, n: nat)
    requires s != [] && IsSpace(s[0]) && |SplitMax(s, n)| == n + 1
    ensures |SplitMax(s, n)[n]| <= |s|
    ensures SplitMax(s, n)[n] == s[|s| - |SplitMax(s, n)[n]|..]
    decreases |s|, 0
  {
    var rest := s[1..];
    SplitMaxSpace(s, n);
    SplitMaxLastSuffix(rest, n);
    SuffixOfSuffix(s, 1, SplitMax(rest, n)[n]);
  }

  lemma {:induction false} SplitMaxLastSuffixWord(s: string, n: nat)
    requires s != [] && !IsSpace(s[0]) && n > 0 && |SplitMax(s, n)| == n + 1
    ensures |SplitMax(s, n)[n]| <= |s|
    ensures SplitMax(s, n)[n] == s[|s| - |SplitMax(s, n)[n]|..]
    decreases |s|, 0
  {
    var k := WordLen(s);
    var rest := s[k..];
    SplitMaxWordStep(s, n);
    SplitMaxLastSuffix(rest, n - 1);
    SuffixOfSuffix(s, k, SplitMax(rest, n - 1)[n - 1]);
  }

  lemma SplitMaxSpace(s: string, n: nat)
    requires s != [] && IsSpace(s[0])
    ensures SplitMax(s, n) == SplitMax(s[1..], n)
  {
  }

  lemma SplitMaxWordStep(s: string, n: nat)
    requires s != [] && !IsSpace(s[0]) && n > 0
    ensures SplitMax(s, n) == [s[..WordLen(s)]] + SplitMax(s[WordLen(s)..], n - 1)
  {
  }

  /** With no more words than allowed splits, `split(maxsplit=n)` is `split()`. */
  lemma {:induction false} SplitMaxFewWords(s: string, n: nat)
    requires |Split(s)| <= n
    ensures SplitMax(s, n) == Split(s)
    decreases |s|
  {
    if s == [] {
    } else if IsSpace(s[0]) {
      SplitMaxFewWords(s[1..], n);
    } else {
      var k := WordLen(s);
      SplitMaxFewWords(s[k..], n - 1);
    }
  }

  /**
   * With more words than allowed splits, `split(maxsplit=n)` agrees with
   * `split()` on the first `n` words and its last part holds exactly the
   * remaining words.
   */
  lemma {:induction false} SplitMaxManyWords(s: string, n: nat)
    requires |Split(s)| > n
    ensures |SplitMax(s, n)| == n + 1
    ensures SplitMax(s, n)[..n] == Split(s)[..n]
    ensures Split(SplitMax(s, n)[n]) == Split(s)[n..]
    decreases |s|
  {
    if IsSpace(s[0]) {
      assert SplitMax(s, n) == SplitMax(s[1..], n) && Split(s) == Split(s[1..]);
      SplitMaxManyWords(s[1..], n);
    } else if n > 0 {
      var k := WordLen(s);
      var tail := SplitMax(s[k..], n - 1);
      var words := Split(s[k..]);
      assert SplitMax(s, n) == [s[..k]] + tail;
      assert Split(s) == [s[..k]] + words;
      SplitMaxManyWords(s[k..], n - 1);
      assert SplitMax(s, n)[n] == tail[n - 1];
      assert Split(s)[n..] == words[n - 1..];
      assert SplitMax(s, n)[..n] == [s[..k]] + tail[..n - 1];
      assert Split(s)[..n] == [s[..k]] + words[..n - 1];
    }
  }

  /** A leading word and the space after it take one split. */
  lemma SplitMaxWord(w: string, rest: string, n: nat)
    requires IsWord(w) && n > 0
    ensures SplitMax(w + " " + rest, n) == [w] + SplitMax(rest, n - 1)
  {
    var s := w + " " + rest;
    var after := " " + rest;
    assert s == w + after;
    WordLenOfWord(w, after);
    assert s[..|w|] == w;
    assert s[|w|..] == after;
    assert after[1..] == rest;
  }

  /** Both cases of how `split(maxsplit=n)` relates to `split()`. */
  lemma SplitMaxAgrees(s: string, n: nat)
    ensures |Split(s)| <= n ==> SplitMax(s, n) == Split(s)
    ensures |Split(s)| > n ==>
      && |SplitMax(s, n)| == n + 1
      && SplitMax(s, n)[..n] == Split(s)[..n]
      && Split(SplitMax(s, n)[n]) == Split(s)[n..]
  {
    if |Split(s)| <= n {
      SplitMaxFewWords(s, n);
    } else {
      SplitMaxManyWords(s, n);
    }
  }

  // ---------------------------------------------------------------------
  // ASCII digits: Python's str.isdigit() and int() on such a string

  predicate IsDigit(c: char) {
    '0' <= c <= '9'
  }

  /** `s.isdigit()` on ASCII text: non-empty and every character a digit. */
  predicate IsDigits(s: string) {
    |s| > 0 && forall i :: 0 <= i < |s| ==> IsDigit(s[i])
  }

  /** `int(s)` for a string of decimal digits (leading zeros allowed). */
  function DigitsValue(s: string): nat
    requires forall i :: 0 <= i < |s| ==> IsDigit(s[i])
  {
    if s == [] then 0
    else
      var d := s[|s| - 1] as int - '0' as int;
      assert IsDigit(s[|s| - 1]);
      DigitsValue(s[..|s| - 1]) * 10 + d
  }

  function DigitChar(d: nat): (c: char)
    requires d < 10
    ensures IsDigit(c) && c as int - '0' as int == d
  {
    ('0' as int + d) as char
  }

  /** `str(n)` for a non-negative integer. */
  function DecimalString(n: nat): (s: string)
    ensures IsDigits(s) && IsWord(s)
  {
    if n < 10 then [DigitChar(n)] else DecimalString(n / 10) + [DigitChar(n % 10)]
  }

  /** `int(str(n)) == n`. */
  lemma {:induction false} DecimalRoundTrip(n: nat)
    ensures DigitsValue(DecimalString(n)) == n
  {
    if n >= 10 {
      var s := DecimalString(n);
      assert s[..|s| - 1] == DecimalString(n / 10);
      DecimalRoundTrip(n / 10);
    }
  }

  // ---------------------------------------------------------------------
  // Python's int(s) in base 10

  /**
   * The whitespace `int()` skips around a literal: `str.split()`'s set
   * without the separators U+001C to U+001F. CPython's `int()` keeps every
   * character below 127 as it is and then skips only ASCII space and `\t`
   * to `\r`; the non-ASCII whitespace it first turns into spaces.
   */
  predicate IsIntSpace(c: char) {
    IsSpace(c) && !('\U{001C}' <= c <= '\U{001F}')
  }

  /** The string without the leading whitespace `int()` skips. */
  function TrimStart(s: string): (t: string)
    ensures |t| <= |s| && t == s[|s| - |t|..]
    ensures forall i :: 0 <= i < |s| - |t| ==> IsIntSpace(s[i])
    ensures t == [] || !IsIntSpace(t[0])
    decreases |s|
  {
    if s != [] && IsIntSpace(s[0]) then
      var t := TrimStart(s[1..]);
      assert s[1..][|s| - 1 - |t|..] == s[|s| - |t|..];
      t
    else s
  }

  /** The string without the trailing whitespace `int()` skips. */
  function TrimEnd(s: string): (t: string)
    ensures |t| <= |s| && t == s[..|t|]
    ensures forall i :: |t| <= i < |s| ==> IsIntSpace(s[i])
    ensures t == [] || !IsIntSpace(t[|t| - 1])
    decreases |s|
  {
    if s != [] && IsIntSpace(s[|s| - 1]) then
      var t := TrimEnd(s[..|s| - 1]);
      assert s[..|s| - 1][..|t|] == s[..|t|];
      t
    else s
  }

  /** The digits of a base-10 literal: single underscores may separate digits. */
  predicate IsNumeral(s: string) {
    && |s| > 0 && IsDigit(s[0]) && IsDigit(s[|s| - 1])
    && (forall i :: 0 <= i < |s| ==> IsDigit(s[i]) || s[i] == '_')
    && (forall i :: 0 <= i < |s| - 1 && s[i] == '_' ==> s[i + 1] != '_')
  }

  /** The string with its underscores removed. */
  function DropUnderscores(s: string): (d: string)
    ensures forall c :: c in d <==> c in s && c != '_'
  {
    if s == [] then []
    else
      assert s == [s[0]] + s[1..];
      (if s[0] == '_' then [] else [s[0]]) + DropUnderscores(s[1..])
  }

  /** A numeral without its underscores is a string of digits. */
  lemma NumeralDigits(body: string)
    requires IsNumeral(body)
    ensures forall i :: 0 <= i < |DropUnderscores(body)| ==> IsDigit(DropUnderscores(body)[i])
  {
    var digits := DropUnderscores(body);
    forall i | 0 <= i < |digits|
      ensures IsDigit(digits[i])
    {
      assert digits[i] in digits;
    }
  }

  /** `int()` on a string without surrounding whitespace: an optional sign, then a numeral. */
  function ParseLiteral(t: string): (r: Option<int>)
    ensures r.Some? ==> t != [] && forall i :: 0 <= i < |t| ==>
      IsDigit(t[i]) || t[i] == '_' || (i == 0 && (t[i] == '+' || t[i] == '-'))
    ensures r.Some? && r.value < 0 ==> t[0] == '-'
  {
    if t == [] then None
    else
      var body := if t[0] == '-' || t[0] == '+' then t[1..] else t;
      if !IsNumeral(body) then None
      else
        NumeralDigits(body);
        assert forall i :: 1 <= i < |t| && body == t[1..] ==> t[i] == body[i - 1];
        var v: int := DigitsValue(DropUnderscores(body));
        Some(if t[0] == '-' then -v else v)
  }

  /**
   * `int(s)`: the whitespace `IsIntSpace` names is skipped around an
   * optional sign and a numeral. None stands for the ValueError any other
   * string raises.
   */
  function ParseInt(s: string): (r: Option<int>)
    ensures r.Some? ==> forall i :: 0 <= i < |s| ==>
      IsDigit(s[i]) || s[i] == '_' || s[i] == '+' || s[i] == '-' || IsIntSpace(s[i])
  {
    StrippedAlphabet(s);
    ParseLiteral(TrimEnd(TrimStart(s)))
  }

  /** A character `int()` may accept somewhere in its argument. */
  predicate IsIntChar(c: char) {
    IsDigit(c) || c == '_' || c == '+' || c == '-' || IsIntSpace(c)
  }

  /** What `int()` accepts holds only digits, underscores, signs and the whitespace it skips. */
  lemma StrippedAlphabet(s: string)
    ensures ParseLiteral(TrimEnd(TrimStart(s))).Some? ==> forall i :: 0 <= i < |s| ==>
      IsDigit(s[i]) || s[i] == '_' || s[i] == '+' || s[i] == '-' || IsIntSpace(s[i])
  {
    var t1 := TrimStart(s);
    var t := TrimEnd(t1);
    if ParseLiteral(t).Some? {
      assert forall j :: 0 <= j < |t| ==> IsIntChar(t[j]);
      PaddedEnd(t1, |t|);
      PaddedStart(s, |s| - |t1|);
    }
  }

  /** A prefix of `int()` characters followed by skipped whitespace is all `int()` characters. */
  lemma PaddedEnd(x: string, n: nat)
    requires n <= |x|
    requires forall j :: 0 <= j < n ==> IsIntChar(x[..n][j])
    requires forall j :: n <= j < |x| ==> IsIntSpace(x[j])
    ensures forall j :: 0 <= j < |x| ==> IsIntChar(x[j])
  {
    forall j | 0 <= j < |x|
      ensures IsIntChar(x[j])
    {
      if j < n {
        assert x[j] == x[..n][j];
      }
    }
  }

  /** Skipped whitespace followed by `int()` characters is all `int()` characters. */
  lemma PaddedStart(x: string, n: nat)
    requires n <= |x|
    requires forall j :: 0 <= j < |x| - n ==> IsIntChar(x[n..][j])
    requires forall j :: 0 <= j < n ==> IsIntSpace(x[j])
    ensures forall j :: 0 <= j < |x| ==> IsIntChar(x[j])
  {
    forall j | 0 <= j < |x|
      ensures IsIntChar(x[j])
    {
      if n <= j {
        assert x[j] == x[n..][j - n];
      }
    }
  }

  /** A string that neither starts nor ends with whitespace `int()` skips is its own stripped form. */
  lemma TrimmedAlready(s: string)
    requires s != [] && !IsIntSpace(s[0]) && !IsIntSpace(s[|s| - 1])
    ensures TrimEnd(TrimStart(s)) == s
  {
    assert TrimStart(s) == s;
  }

  /** `str(n)` for any integer: a minus sign before the digits of a negative one. */
  function IntString(n: int): (s: string)
    ensures IsWord(s)
  {
    if n < 0 then "-" + DecimalString(-n) else DecimalString(n)
  }

  /** Leading whitespace `int()` skips is dropped whatever follows it. */
  lemma {:induction false} TrimStartSpaces(lead: string, s: string)
    requires forall i :: 0 <= i < |lead| ==> IsIntSpace(lead[i])
    ensures TrimStart(lead + s) == TrimStart(s)
  {
    if lead != [] {
      assert (lead + s)[0] == lead[0];
      assert (lead + s)[1..] == lead[1..] + s;
      assert TrimStart(lead + s) == TrimStart(lead[1..] + s);
      TrimStartSpaces(lead[1..], s);
    } else {
      assert lead + s == s;
    }
  }

  /** Trailing whitespace `int()` skips is dropped whatever precedes it. */
  lemma {:induction false} TrimEndSpaces(s: string, trail: string)
    requires forall i :: 0 <= i < |trail| ==> IsIntSpace(trail[i])
    ensures TrimEnd(s + trail) == TrimEnd(s)
  {
    if trail != [] {
      var init := trail[..|trail| - 1];
      assert (s + trail)[|s + trail| - 1] == trail[|trail| - 1];
      assert (s + trail)[..|s + trail| - 1] == s + init;
      assert TrimEnd(s + trail) == TrimEnd(s + init);
      TrimEndSpaces(s, init);
    } else {
      assert s + trail == s;
    }
  }

  lemma {:induction false} DropUnderscoresDigits(s: string)
    requires forall i :: 0 <= i < |s| ==> IsDigit(s[i])
    ensures DropUnderscores(s) == s
  {
    if s != [] {
      DropUnderscoresDigits(s[1..]);
      assert s == [s[0]] + s[1..];
    }
  }

  /** A string `isdigit()` accepts is read by `int()` as its decimal value. */
  lemma ParseIntDigits(s: string)
    requires IsDigits(s)
    ensures ParseInt(s) == Some(DigitsValue(s))
  {
    TrimmedAlready(s);
    assert IsNumeral(s);
    DropUnderscoresDigits(s);
  }

  /** A signed numeral is read as the value of its digits, negated after a minus sign. */
  lemma SignedNumeral(t: string)
    requires t != [] && (t[0] == '-' || t[0] == '+') && IsNumeral(t[1..])
    ensures forall i :: 0 <= i < |DropUnderscores(t[1..])| ==> IsDigit(DropUnderscores(t[1..])[i])
    ensures var v: int := DigitsValue(DropUnderscores(t[1..]));
      ParseLiteral(t) == Some(if t[0] == '-' then -v else v)
  {
    NumeralDigits(t[1..]);
  }

  /** A sign followed by decimal digits is read as the signed value of the digits. */
  lemma SignedLiteral(sign: char, digits: string)
    requires sign == '-' || sign == '+'
    requires IsDigits(digits)
    ensures ParseLiteral([sign] + digits) == Some(if sign == '-' then -(DigitsValue(digits) as int) else DigitsValue(digits))
  {
    var t := [sign] + digits;
    assert t[0] == sign && t[1..] == digits;
    assert IsNumeral(digits);
    DropUnderscoresDigits(digits);
    assert DropUnderscores(t[1..]) == digits;
    SignedNumeral(t);
  }

  /** `int("-" + str(n)) == -n`. */
  lemma NegativeRoundTrip(n: nat)
    ensures ParseLiteral("-" + DecimalString(n)) == Some(-(n as int))
  {
    SignedLiteral('-', DecimalString(n));
    DecimalRoundTrip(n);
  }

  /** `int("+" + str(n)) == n`. */
  lemma PlusRoundTrip(n: nat)
    ensures ParseLiteral("+" + DecimalString(n)) == Some(n as int)
  {
    SignedLiteral('+', DecimalString(n));
    DecimalRoundTrip(n);
  }

  /** `int(str(n)) == n` for every integer, negative ones included. */
  lemma IntRoundTrip(n: int)
    ensures ParseInt(IntString(n)) == Some(n)
  {
    var s := IntString(n);
    if n < 0 {
      TrimmedAlready(s);
      NegativeRoundTrip(-n);
    } else {
      ParseIntDigits(s);
      DecimalRoundTrip(n);
    }
  }

  /** Whitespace around a literal does not change what `int()` reads. */
  lemma ParseIntPadded(lead: string, s: string, trail: string)
    requires forall i :: 0 <= i < |lead| ==> IsIntSpace(lead[i])
    requires forall i :: 0 <= i < |trail| ==> IsIntSpace(trail[i])
    requires s != [] && !IsIntSpace(s[0]) && !IsIntSpace(s[|s| - 1])
    ensures ParseInt(lead + s + trail) == ParseInt(s)
  {
    assert lead + s + trail == lead + (s + trail);
    TrimStartSpaces(lead, s + trail);
    assert TrimStart(s + trail) == s + trail;
    TrimEndSpaces(s, trail);
    TrimmedAlready(s);
  }

  /** A letter or any other character outside a literal's alphabet makes `int()` fail. */
  lemma ParseIntRejects(s: string, i: nat)
    requires i < |s|
    requires !IsDigit(s[i]) && s[i] != '_' && s[i] != '+' && s[i] != '-' && !IsIntSpace(s[i])
    ensures ParseInt(s) == None
  {
  }

  /** The separators U+001C to U+001F are not skipped: `int("\x1c42")` raises ValueError. */
  lemma ParseIntKeepsSeparators(digits: string)
    ensures ParseInt(['\U{001C}'] + digits) == None
    ensures ParseInt(digits + ['\U{001F}']) == None
  {
    ParseIntRejects(['\U{001C}'] + digits, 0);
    ParseIntRejects(digits + ['\U{001F}'], |digits|);
  }

  // ---------------------------------------------------------------------
  // Python's s.split(sep) for a one-character separator

  /** Length of the prefix of `s` before the first `sep`. */
  function FieldLen(s: string, sep: char): (k: nat)
    ensures k <= |s|
    ensures sep !in s[..k]
    ensures k < |s| ==> s[k] == sep
  {
    if s == [] || s[0] == sep then 0
    else
      var k := 1 + FieldLen(s[1..], sep);
      assert s[..k] == [s[0]] + s[1..][..k - 1];
      k
  }

  /** Python's `s.split(sep)`: the fields between separators, empty ones included. */
  function SplitOn(s: string, sep: char): (fields: seq<string>)
    ensures |fields| >= 1
    ensures |fields| == 1 <==> sep !in s
    ensures forall i :: 0 <= i < |fields| ==> sep !in fields[i]
    decreases |s|
  {
    var k := FieldLen(s, sep);
    if k == |s| then
      assert s[..k] == s;
      [s]
    else
      [s[..k]] + SplitOn(s[k + 1..], sep)
  }

  /** Python's `sep.join(fields)`. */
  function JoinWith(fields: seq<string>, sep: char): string
    requires |fields| >= 1
  {
    if |fields| == 1 then fields[0] else fields[0] + [sep] + JoinWith(fields[1..], sep)
  }

  /** Joining the fields of a split with the separator restores the string. */
  lemma {:induction false} JoinSplitOn(s: string, sep: char)
    ensures JoinWith(SplitOn(s, sep), sep) == s
    decreases |s|
  {
    var k := FieldLen(s, sep);
    if k < |s| {
      var rest := SplitOn(s[k + 1..], sep);
      var fields := SplitOn(s, sep);
      assert fields == [s[..k]] + rest;
      assert fields[1..] == rest;
      JoinSplitOn(s[k + 1..], sep);
      assert JoinWith(fields, sep) == s[..k] + [sep] + s[k + 1..];
      CutAround(s, k);
    } else {
      assert s[..k] == s;
    }
  }

  /** A string is its part before index `k`, the element at `k` and its part after. */
  lemma CutAround(s: string, k: nat)
    requires k < |s|
    ensures s == s[..k] + [s[k]] + s[k + 1..]
  {
    assert s == s[..k] + s[k..];
    assert s[k..] == [s[k]] + s[k + 1..];
  }

  /** Appending a nonempty string is appending its head and then its tail. */
  lemma AppendUncons(a: string, rest: string)
    requires rest != []
    ensures a + rest == a + [rest[0]] + rest[1..]
  {
    assert rest == [rest[0]] + rest[1..];
  }

  /** A string without the separator is a single field. */
  lemma {:induction false} FieldLenNone(a: string, sep: char)
    requires sep !in a
    ensures FieldLen(a, sep) == |a|
  {
    if a != [] {
      FieldLenNone(a[1..], sep);
    }
  }

  /** A separator-free field followed by the separator is split off as a whole. */
  lemma {:induction false} FieldLenOf(a: string, sep: char, rest: string)
    requires sep !in a
    ensures FieldLen(a + [sep] + rest, sep) == |a|
  {
    if a != [] {
      assert (a + [sep] + rest)[1..] == a[1..] + [sep] + rest;
      FieldLenOf(a[1..], sep, rest);
    }
  }

  /** A separator-free field followed by the separator is the first field. */
  lemma SplitOnField(a: string, sep: char, rest: string)
    requires sep !in a
    ensures SplitOn(a + [sep] + rest, sep) == [a] + SplitOn(rest, sep)
  {
    var s := a + [sep] + rest;
    FieldLenOf(a, sep, rest);
    assert s[..|a|] == a;
    assert s[|a| + 1..] == rest;
  }

  /** A string without the separator is its only field. */
  lemma SplitOnNone(a: string, sep: char)
    requires sep !in a
    ensures SplitOn(a, sep) == [a]
  {
    FieldLenNone(a, sep);
    assert a[..|a|] == a;
  }
}
