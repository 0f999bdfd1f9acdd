/** C strings as the key parser uses them: blanks, tokens, case-insensitive
    comparison, and the number parsing of the C library in the C locale. */
module Text {
  import opened Common

  /** The contents of a C string: no NUL inside. */
  type CString = s: string | forall i :: 0 <= i < |s| ==> s[i] != '\0'

  predicate IsBlank(c: char) {
    c == ' ' || c == '\t'
  }

  predicate NoBlanks(s: string) {
    forall i :: 0 <= i < |s| ==> !IsBlank(s[i])
  }

  // ---- Case-insensitive comparison ---------------------------------------------

  function ToLower(c: char): char {
    if 'A' <= c <= 'Z' then (c as int + 32) as char else c
  }

  predicate SameNoCase(a: string, b: string) {
    |a| == |b| && forall i :: 0 <= i < |a| ==> ToLower(a[i]) == ToLower(b[i])
  }

  /** The character under a pointer; NUL at the end. */
  function At(s: string, i: nat): char {
    if i < |s| then s[i] else '\0'
  }

  /** Up to letter case the strings first differ at i, by d; with d zero, both end
      there. */
  ghost predicate FirstDifference(a: string, b: string, i: nat, d: int) {
    && i <= |a| && i <= |b|
    && (forall j :: 0 <= j < i ==> ToLower(a[j]) == ToLower(b[j]))
    && d == ToLower(At(a, i)) as int - ToLower(At(b, i)) as int
    && (d == 0 ==> i == |a| == |b|)
  }

  /** km_strcasecmp: zero exactly for strings equal up to letter case, and the
      difference at their first difference otherwise. */
  method StrCaseCmp(a: CString, b: CString) returns (r: int)
    ensures r == 0 <==> SameNoCase(a, b)
    ensures exists i :: FirstDifference(a, b, i, r)
  {
    var i := 0;
    while At(a, i) != '\0' && At(b, i) != '\0'
      invariant i <= |a| && i <= |b|
      invariant forall j :: 0 <= j < i ==> ToLower(a[j]) == ToLower(b[j])
      decreases |a| - i
    {
      var ca, cb := ToLower(At(a, i)) as int, ToLower(At(b, i)) as int;
      if ca != cb {
        r := ca - cb;
        assert FirstDifference(a, b, i, r);
        return;
      }
      i := i + 1;
    }
    r := ToLower(At(a, i)) as int - ToLower(At(b, i)) as int;
    if i < |a| {
      LowerNotNul(a, i);
    }
    if i < |b| {
      LowerNotNul(b, i);
    }
    assert FirstDifference(a, b, i, r);
  }

  lemma LowerNotNul(s: CString, i: nat)
    requires i < |s|
    ensures s[i] != '\0' && ToLower(s[i]) != '\0'
  {
  }

  /** The strings agree but for the case of some letters. */
  predicate Recased(a: string, b: string) {
    |a| == |b| && forall i :: 0 <= i < |a| ==> LetterTwins(a[i], b[i])
  }

  /** The same character, or the capital and the small form of one letter. */
  predicate LetterTwins(c: char, d: char) {
    || c == d
    || ('A' <= c <= 'Z' && d as int == c as int + 32)
    || ('A' <= d <= 'Z' && c as int == d as int + 32)
  }

  /** Comparing without case is comparing up to capital and small letters, and the
      fold itself goes to the small ones. */
  lemma CaseFolding(c: char, d: char)
    ensures ToLower(c) == ToLower(d) <==> LetterTwins(c, d)
    ensures ToLower(c) as int == if 'A' <= c <= 'Z' then c as int + 32 else c as int
  {
  }

  lemma SameNoCaseIsRecased(a: string, b: string)
    ensures SameNoCase(a, b) <==> Recased(a, b)
  {
    if |a| == |b| {
      forall i | 0 <= i < |a| ensures ToLower(a[i]) == ToLower(b[i]) <==> LetterTwins(a[i], b[i]) {
        CaseFolding(a[i], b[i]);
      }
    }
  }

  // ---- Numbers -------------------------------------------------------------------

  /** isspace in the C locale */
  predicate IsSpace(c: char) {
    c == ' ' || ('\t' as int <= c as int <= '\r' as int)
  }

  function SpaceRun(s: string): (n: nat)
    ensures n <= |s|
  {
    if s == [] || !IsSpace(s[0]) then 0 else 1 + SpaceRun(s[1..])
  }

  /** The value of a digit, or 36 for any other character. */
  function DigitOf(c: char): nat {
    if '0' <= c <= '9' then c as int - '0' as int
    else if 'a' <= c <= 'z' then c as int - 'a' as int + 10
    else if 'A' <= c <= 'Z' then c as int - 'A' as int + 10
    else 36
  }

  function DigitRun(s: string, base: nat): (n: nat)
    ensures n <= |s|
  {
    if s == [] || DigitOf(s[0]) >= base then 0 else 1 + DigitRun(s[1..], base)
  }

  function Magnitude(digits: string, base: nat): nat {
    if digits == [] then 0 else Scaled(Magnitude(Init(digits), base), base) + DigitOf(Last(digits))
  }

  /** m * base, written out for the bases in use. */
  function Scaled(m: nat, base: nat): nat {
    if base == 8 then 8 * m else if base == 10 then 10 * m else if base == 16 then 16 * m
    else
      ProductNotNegative(m, base);
      m * base
  }

  lemma MagnitudeSnoc(digits: string, d: char, base: nat)
    ensures Magnitude(digits + [d], base) == Scaled(Magnitude(digits, base), base) + DigitOf(d)
  {
    assert Init(digits + [d]) == digits;
  }

  lemma ProductNotNegative(a: nat, b: nat)
    ensures a * b >= 0
  {
  }

  /** The number at the front of a string and the characters it takes up; no
      characters if there is none. */
  datatype Number = Number(value: int, used: nat)

  /** strtol with base 10, or with base 0, which reads a 0x prefix as sixteen and a
      leading 0 as eight.  Values beyond the range of long are not clipped here:
      every caller rejects them either way. */
  function Strtol(s: string, base: nat): (r: Number)
    requires base == 0 || base == 10
    ensures r.used <= |s|
  {
    var blank := SpaceRun(s);
    var t := s[blank..];
    var sign := SignLength(t);
    var u := ReadDigits(t[sign..], base);
    if u.used == 0 then Number(0, 0)
    else Number(if sign == 1 && t[0] == '-' then -u.value else u.value, blank + sign + u.used)
  }

  function SignLength(t: string): (n: nat)
    ensures n <= |t|
  {
    if t != [] && (t[0] == '-' || t[0] == '+') then 1 else 0
  }

  /** The part of strtol after blanks and sign. */
  function ReadDigits(t: string, base: nat): (r: Number)
    requires base == 0 || base == 10
    ensures r.used <= |t|
  {
    var skip, radix := if IsHex(t, base) then 2 else 0, Radix(t, base);
    var n := DigitRun(t[skip..], radix);
    if n == 0 then Number(0, 0) else Number(Magnitude(t[skip..skip + n], radix), skip + n)
  }

  predicate IsHex(t: string, base: nat) {
    base == 0 && |t| > 2 && t[0] == '0' && (t[1] == 'x' || t[1] == 'X') && DigitOf(t[2]) < 16
  }

  function Radix(t: string, base: nat): nat {
    if base == 10 then 10 else if IsHex(t, base) then 16 else if |t| > 0 && t[0] == '0' then 8 else 10
  }

  /** strtol does not mind the case of letters. */
  lemma TwinsReadAlike(c: char, d: char)
    requires LetterTwins(c, d)
    ensures IsSpace(c) == IsSpace(d) && DigitOf(c) == DigitOf(d) && IsBlank(c) == IsBlank(d)
    ensures c == '0' <==> d == '0'
    ensures c == '-' <==> d == '-'
    ensures c == '+' <==> d == '+'
    ensures c == ',' <==> d == ','
    ensures c == 'x' || c == 'X' <==> d == 'x' || d == 'X'
  {
  }

  lemma {:induction false} RunsRecased(a: string, b: string, base: nat)
    requires Recased(a, b)
    ensures SpaceRun(a) == SpaceRun(b) && DigitRun(a, base) == DigitRun(b, base)
    decreases |a|
  {
    if a != [] {
      TwinsReadAlike(a[0], b[0]);
      RunsRecased(a[1..], b[1..], base);
    }
  }

  lemma {:induction false} MagnitudeRecased(a: string, b: string, base: nat)
    requires Recased(a, b)
    ensures Magnitude(a, base) == Magnitude(b, base)
    decreases |a|
  {
    if a != [] {
      TwinsReadAlike(Last(a), Last(b));
      MagnitudeRecased(Init(a), Init(b), base);
    }
  }

  lemma PrefixRecased(s: string, t: string, base: nat)
    requires Recased(s, t)
    ensures IsHex(s, base) == IsHex(t, base) && Radix(s, base) == Radix(t, base)
  {
    if |s| > 0 { TwinsReadAlike(s[0], t[0]); }
    if |s| > 1 { TwinsReadAlike(s[1], t[1]); }
    if |s| > 2 { TwinsReadAlike(s[2], t[2]); }
  }

  lemma DigitsRecased(s: string, t: string, base: nat)
    requires Recased(s, t) && (base == 0 || base == 10)
    ensures ReadDigits(s, base) == ReadDigits(t, base)
  {
    PrefixRecased(s, t, base);
    var skip, radix := if IsHex(s, base) then 2 else 0, Radix(s, base);
    RunsRecased(s[skip..], t[skip..], radix);
    var n := DigitRun(s[skip..], radix);
    MagnitudeRecased(s[skip..skip + n], t[skip..skip + n], radix);
  }

  lemma SliceRecased(a: string, b: string, i: nat)
    requires Recased(a, b) && i <= |a|
    ensures Recased(a[i..], b[i..])
  {
  }

  lemma SignRecased(s: string, t: string, base: nat)
    requires Recased(s, t) && (base == 0 || base == 10)
    ensures SignLength(s) == SignLength(t) && (s != [] ==> (s[0] == '-' <==> t[0] == '-'))
    ensures ReadDigits(s[SignLength(s)..], base) == ReadDigits(t[SignLength(t)..], base)
  {
    if s != [] {
      TwinsReadAlike(s[0], t[0]);
    }
    SliceRecased(s, t, SignLength(s));
    DigitsRecased(s[SignLength(s)..], t[SignLength(t)..], base);
  }

  lemma StrtolRecased(a: string, b: string, base: nat)
    requires Recased(a, b) && (base == 0 || base == 10)
    ensures Strtol(a, base) == Strtol(b, base)
  {
    RunsRecased(a, b, 10);
    SliceRecased(a, b, SpaceRun(a));
    SignRecased(a[SpaceRun(a)..], b[SpaceRun(b)..], base);
  }

  // ---- Numerals in other bases ----------------------------------------------------

  const DIGITS := "0123456789abcdef"

  /** A number written in octal or hexadecimal, with small letters. */
  function Printed(n: nat, base: nat): (s: string)
    requires base == 8 || base == 16
    ensures s != []
  {
    (if n < base then [] else Printed(n / base, base)) + [DIGITS[n % base]]
  }

  lemma PrintedDigit(d: nat)
    requires d < 16
    ensures DigitOf(DIGITS[d]) == d
  {
  }

  lemma {:induction false} PrintedDigits(n: nat, base: nat)
    requires base == 8 || base == 16
    ensures forall i :: 0 <= i < |Printed(n, base)| ==> DigitOf(Printed(n, base)[i]) < base
  {
    PrintedDigit(n % base);
    if n >= base {
      PrintedDigits(n / base, base);
    }
  }

  lemma DivMod(n: nat)
    ensures 8 * (n / 8) + n % 8 == n && 10 * (n / 10) + n % 10 == n && 16 * (n / 16) + n % 16 == n
  {
  }

  lemma PrintedStep(n: nat, base: nat)
    requires base == 8 || base == 16
    ensures Printed(n, base) == (if n < base then [] else Printed(n / base, base)) + [DIGITS[n % base]]
  {
  }

  lemma MagnitudeStep(high: string, d: char, base: nat, n: nat)
    requires (base == 8 || base == 10 || base == 16) && Magnitude(high, base) == n / base && DigitOf(d) == n % base
    ensures Magnitude(high + [d], base) == n
  {
    MagnitudeSnoc(high, d, base);
    DivMod(n);
  }

  lemma {:induction false} PrintedMagnitude(n: nat, base: nat)
    requires base == 8 || base == 16
    ensures Magnitude(Printed(n, base), base) == n
  {
    PrintedDigit(n % base);
    PrintedStep(n, base);
    var high := if n < base then [] else Printed(n / base, base);
    if n >= base {
      PrintedMagnitude(n / base, base);
    }
    MagnitudeStep(high, DIGITS[n % base], base, n);
  }

  lemma {:induction false} DigitRunAll(s: string, base: nat)
    requires forall i :: 0 <= i < |s| ==> DigitOf(s[i]) < base
    ensures DigitRun(s, base) == |s|
  {
    if s != [] {
      DigitRunAll(s[1..], base);
    }
  }

  /** With base 0, a 0x in front means base 16 and a 0 in front means base 8. */
  lemma StrtolHex(digits: string, zero: nat, sixteen: nat)
    requires zero == 0 && sixteen == 16 && digits != [] && forall i :: 0 <= i < |digits| ==> DigitOf(digits[i]) < sixteen
    ensures Strtol("0x" + digits, zero) == Number(Magnitude(digits, sixteen), 2 + |digits|)
  {
    var s := "0x" + digits;
    assert SpaceRun(s) == 0 && s[0..] == s && s[2..] == digits && s[2..2 + |digits|] == digits;
    DigitRunAll(digits, sixteen);
  }

  lemma StrtolOctal(digits: string, zero: nat, eight: nat)
    requires zero == 0 && eight == 8 && forall i :: 0 <= i < |digits| ==> DigitOf(digits[i]) < eight
    ensures Strtol("0" + digits, zero) == Number(Magnitude("0" + digits, eight), 1 + |digits|)
  {
    var s := "0" + digits;
    assert SpaceRun(s) == 0 && s[0..] == s && s[0..0 + |s|] == s;
    assert |s| > 1 ==> s[1] == digits[0];
    DigitRunAll(s, eight);
  }

  lemma {:induction false} LeadingZero(digits: string, base: nat)
    ensures Magnitude("0" + digits, base) == Magnitude(digits, base)
  {
    var s := "0" + digits;
    if digits == [] {
      assert Init(s) == [] && Last(s) == '0';
    } else {
      assert Init(s) == "0" + Init(digits) && Last(s) == Last(digits);
      LeadingZero(Init(digits), base);
    }
  }

  // ---- Tokens --------------------------------------------------------------------

  /** The maximal blank-free pieces of a string, in order, when `word` has already
      been read. */
  function Split(word: string, s: string): (ts: seq<string>)
    requires NoBlanks(word)
    ensures forall i :: 0 <= i < |ts| ==> ts[i] != [] && NoBlanks(ts[i])
    decreases |s|
  {
    if s == [] then (if word == [] then [] else [word])
    else if IsBlank(s[0]) then (if word == [] then [] else [word]) + Split([], s[1..])
    else Split(word + [s[0]], s[1..])
  }

  function Tokens(s: string): (ts: seq<string>)
    ensures forall i :: 0 <= i < |ts| ==> ts[i] != [] && NoBlanks(ts[i])
  {
    Split([], s)
  }

  function Join(ts: seq<string>): string {
    if ts == [] then [] else if |ts| == 1 then ts[0] else ts[0] + " " + Join(ts[1..])
  }

  lemma {:induction false} SplitWord(word: string, t: string, rest: string)
    requires NoBlanks(word) && NoBlanks(t)
    ensures Split(word, t + rest) == Split(word + t, rest)
    decreases |t|
  {
    if t == [] {
      assert t + rest == rest && word + t == word;
    } else {
      assert (t + rest)[1..] == t[1..] + rest;
      assert word + [t[0]] + t[1..] == word + t;
      SplitWord(word + [t[0]], t[1..], rest);
    }
  }

  /** Leading blanks do not matter. */
  lemma TokensSkipBlank(s: string)
    requires s != [] && IsBlank(s[0])
    ensures Tokens(s) == Tokens(s[1..])
  {
  }

  lemma TokensCons(t: string, rest: string)
    requires t != [] && NoBlanks(t) && (rest == [] || IsBlank(rest[0]))
    ensures Tokens(t + rest) == [t] + Tokens(rest)
  {
    SplitWord([], t, rest);
    assert [] + t == t;
  }

  lemma TokensPrepend(t: string, rest: string)
    requires t != [] && NoBlanks(t)
    ensures Tokens(t + " " + rest) == [t] + Tokens(rest)
  {
    assert t + " " + rest == t + (" " + rest) && (" " + rest)[1..] == rest;
    TokensCons(t, " " + rest);
    TokensSkipBlank(" " + rest);
  }

  /** Printing words with single spaces between them and splitting again. */
  lemma {:induction false} TokensOfJoin(ts: seq<string>)
    requires forall i :: 0 <= i < |ts| ==> ts[i] != [] && NoBlanks(ts[i])
    ensures Tokens(Join(ts)) == ts
  {
    if ts == [] {
    } else if |ts| == 1 {
      TokensCons(ts[0], []);
      assert ts[0] + [] == ts[0];
    } else {
      TokensOfJoin(ts[1..]);
      TokensPrepend(ts[0], Join(ts[1..]));
    }
  }

  function Letters(s: string): string {
    if s == [] then [] else (if IsBlank(s[0]) then [] else [s[0]]) + Letters(s[1..])
  }

  function Concat(ts: seq<string>): string {
    if ts == [] then [] else ts[0] + Concat(ts[1..])
  }

  /** Splitting drops the blanks and nothing else. */
  lemma {:induction false} SplitKeepsLetters(word: string, s: string)
    requires NoBlanks(word)
    ensures Concat(Split(word, s)) == word + Letters(s)
    decreases |s|
  {
    if s == [] {
      ConcatCons(word, []);
    } else if IsBlank(s[0]) {
      SplitKeepsLetters([], s[1..]);
      ConcatCons(word, Split([], s[1..]));
      assert word == [] ==> [] + Split([], s[1..]) == Split([], s[1..]);
    } else {
      SplitKeepsLetters(word + [s[0]], s[1..]);
    }
  }

  lemma TokensKeepLetters(s: string)
    ensures Concat(Tokens(s)) == Letters(s)
  {
    SplitKeepsLetters([], s);
  }

  lemma ConcatCons(t: string, ts: seq<string>)
    ensures Concat([t] + ts) == t + Concat(ts)
  {
    assert ([t] + ts)[1..] == ts;
  }

  // ---- km_tok ------------------------------------------------------------------------

  /** From `start` on the buffer holds one C string, ending at `end`. */
  ghost predicate StringAt(buf: seq<char>, start: nat, end: nat) {
    start <= end < |buf| && buf[end] == '\0' && forall i :: start <= i < end ==> buf[i] != '\0'
  }

  /** The first word of the string at `start` occupies `word..stop`; with no word
      left, both are `end`. */
  ghost predicate FirstWord(buf: seq<char>, start: nat, end: nat, word: nat, stop: nat) {
    && start <= word <= stop <= end <= |buf|
    && (forall i :: start <= i < word ==> IsBlank(buf[i]))
    && (forall i :: word <= i < stop ==> !IsBlank(buf[i]))
    && (stop < end ==> IsBlank(buf[stop]))
    && (word == stop ==> word == end)
  }

  lemma {:induction false} TokensDropBlanks(blanks: string, rest: string)
    requires forall i :: 0 <= i < |blanks| ==> IsBlank(blanks[i])
    ensures Tokens(blanks + rest) == Tokens(rest)
  {
    if blanks == [] {
      assert blanks + rest == rest;
    } else {
      assert (blanks + rest)[1..] == blanks[1..] + rest;
      TokensSkipBlank(blanks + rest);
      TokensDropBlanks(blanks[1..], rest);
    }
  }

  /** Splitting a string is splitting off its first word and the blank after it. */
  lemma FirstWordSplits(b: seq<char>, start: nat, end: nat, word: nat, stop: nat)
    requires FirstWord(b, start, end, word, stop)
    ensures word == stop ==> Tokens(b[start..end]) == []
    ensures word < stop ==>
      Tokens(b[start..end]) == [b[word..stop]] + Tokens(b[(if stop < end then stop + 1 else stop)..end])
  {
    var blanks := b[start..word];
    if word == stop {
      assert b[start..end] == blanks + [];
      TokensDropBlanks(blanks, []);
    } else {
      var text, rest := b[word..stop], b[stop..end];
      assert b[start..end] == blanks + (text + rest);
      TokensDropBlanks(blanks, text + rest);
      TokensCons(text, rest);
      if stop < end {
        TokensSkipBlank(rest);
        assert rest[1..] == b[stop + 1..end];
      }
    }
  }

  /** km_tok: cut the next token out of the buffer by overwriting the blank after
      it with NUL.  Returns the token's position, if any, and where to go on. */
  method KmTok(buf: array<char>, start: nat, ghost end: nat) returns (tok: Option<nat>, save: nat, ghost stop: nat)
    requires StringAt(buf[..], start, end)
    modifies buf
    ensures StringAt(buf[..], save, end) && start <= save && buf[save..end] == old(buf[save..end])
    ensures tok.None? ==> FirstWord(old(buf[..]), start, end, end, end)
    ensures tok.Some? ==>
      && FirstWord(old(buf[..]), start, end, tok.value, stop) && tok.value < stop
      && save == (if stop < end then stop + 1 else stop)
      && StringAt(buf[..], tok.value, stop) && buf[tok.value..stop] == old(buf[tok.value..stop])
  {
    var s: nat := start;
    while buf[s] == ' ' || buf[s] == '\t'
      invariant start <= s <= end
      invariant forall i :: start <= i < s ==> IsBlank(buf[i])
      decreases end - s
    {
      s := s + 1;
    }
    stop := s;
    if buf[s] == '\0' {
      return None, s, s;
    }
    var word: nat := s;
    while buf[s] != '\0' && buf[s] != ' ' && buf[s] != '\t'
      invariant word <= s <= end
      invariant forall i :: word <= i < s ==> !IsBlank(buf[i])
      decreases end - s
    {
      s := s + 1;
    }
    stop := s;
    if buf[s] != '\0' {
      buf[s] := '\0';
      s := s + 1;
    }
    return Some(word), s, stop;
  }

  /** Follow a pointer to a NUL-terminated string. */
  method Deref(buf: array<char>, p: nat, ghost stop: nat) returns (s: CString)
    requires StringAt(buf[..], p, stop)
    ensures s == buf[p..stop]
  {
    var q: nat := p;
    while buf[q] != '\0'
      invariant p <= q <= stop
      decreases stop - q
    {
      q := q + 1;
    }
    s := buf[p..q];
  }
}
