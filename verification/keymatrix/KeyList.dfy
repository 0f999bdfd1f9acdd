/** Keys, the table of their names, and the grammar of key lists. */
module KeyList {
  import opened Common
  import opened Text

  const MAX_KEYS := 16
  const BUFFER_SIZE := 256

  /** km_key_t; kind is 1 for keys outside the matrix, 0 otherwise. */
  datatype Key = Key(row: int, col: int, kind: int, name: string)

  // The key table, by matrix row.
  const ROW0: seq<Key> := [
    Key(0, 0, 0, "INSTDEL"), Key(0, 0, 0, "DEL"), Key(0, 0, 0, "INST"), Key(0, 0, 0, "BACKSPACE"),
    Key(0, 0, 0, "BS"), Key(0, 1, 0, "RETURN"), Key(0, 1, 0, "ENTER"), Key(0, 1, 0, "RTN"),
    Key(0, 2, 0, "CRSRLR"), Key(0, 2, 0, "CR"), Key(0, 2, 0, "RIGHT"), Key(0, 3, 0, "F7"), Key(0, 4, 0, "F1"),
    Key(0, 5, 0, "F3"), Key(0, 6, 0, "F5"), Key(0, 7, 0, "CRSRUD"), Key(0, 7, 0, "CD"), Key(0, 7, 0, "DOWN")
  ]
  const ROW1: seq<Key> := [
    Key(1, 0, 0, "3"), Key(1, 1, 0, "W"), Key(1, 2, 0, "A"), Key(1, 3, 0, "4"), Key(1, 4, 0, "Z"),
    Key(1, 5, 0, "S"), Key(1, 6, 0, "E"), Key(1, 7, 0, "LSHIFT"), Key(1, 7, 0, "SHIFT"),
    Key(1, 7, 0, "LEFTSHIFT")
  ]
  const ROW2: seq<Key> := [
    Key(2, 0, 0, "5"), Key(2, 1, 0, "R"), Key(2, 2, 0, "D"), Key(2, 3, 0, "6"), Key(2, 4, 0, "C"),
    Key(2, 5, 0, "F"), Key(2, 6, 0, "T"), Key(2, 7, 0, "X")
  ]
  const ROW3: seq<Key> := [
    Key(3, 0, 0, "7"), Key(3, 1, 0, "Y"), Key(3, 2, 0, "G"), Key(3, 3, 0, "8"), Key(3, 4, 0, "B"),
    Key(3, 5, 0, "H"), Key(3, 6, 0, "U"), Key(3, 7, 0, "V")
  ]
  const ROW4: seq<Key> := [
    Key(4, 0, 0, "9"), Key(4, 1, 0, "I"), Key(4, 2, 0, "J"), Key(4, 3, 0, "0"), Key(4, 4, 0, "M"),
    Key(4, 5, 0, "K"), Key(4, 6, 0, "O"), Key(4, 7, 0, "N")
  ]
  const ROW5: seq<Key> := [
    Key(5, 0, 0, "PLUS"), Key(5, 1, 0, "P"), Key(5, 2, 0, "L"), Key(5, 3, 0, "MINUS"), Key(5, 4, 0, "PERIOD"),
    Key(5, 4, 0, "DOT"), Key(5, 5, 0, "COLON"), Key(5, 6, 0, "AT"), Key(5, 7, 0, "COMMA")
  ]
  const ROW6: seq<Key> := [
    Key(6, 0, 0, "POUND"), Key(6, 0, 0, "STERLING"), Key(6, 1, 0, "TIMES"), Key(6, 1, 0, "STAR"),
    Key(6, 1, 0, "ASTERISK"), Key(6, 2, 0, "SEMICOLON"), Key(6, 2, 0, "SEMI"), Key(6, 3, 0, "CLR"),
    Key(6, 3, 0, "HOME"), Key(6, 3, 0, "CLRHOME"), Key(6, 4, 0, "RSHIFT"), Key(6, 4, 0, "RIGHTSHIFT"),
    Key(6, 5, 0, "EQUALS"), Key(6, 5, 0, "EQ"), Key(6, 6, 0, "UPARROW"), Key(6, 6, 0, "UP"),
    Key(6, 6, 0, "EXPONENT"), Key(6, 7, 0, "SLASH")
  ]
  const ROW7: seq<Key> := [
    Key(7, 0, 0, "1"), Key(7, 1, 0, "LEFTARROW"), Key(7, 1, 0, "LEFT"), Key(7, 2, 0, "CTRL"), Key(7, 3, 0, "2"),
    Key(7, 4, 0, "SPACE"), Key(7, 4, 0, "SP"), Key(7, 5, 0, "CBM"), Key(7, 5, 0, "COMMODORE"),
    Key(7, 6, 0, "Q"), Key(7, 7, 0, "RUNSTOP"), Key(7, 7, 0, "STOP"), Key(7, 7, 0, "RUN")
  ]
  const SPECIAL: seq<Key> := [
    Key(-3, 0, 1, "RESTORE"), Key(-4, 1, 1, "CAPSLOCK"), Key(-4, 1, 1, "CAPS"), Key(-4, 0, 1, "4080")
  ]

  const KEYS: seq<Key> := ROW0 + ROW1 + ROW2 + ROW3 + ROW4 + ROW5 + ROW6 + ROW7 + SPECIAL

  // ---- One key ------------------------------------------------------------------

  /** The first table entry from position i on with this name. */
  function Lookup(name: string, table: seq<Key>): Option<Key>
    decreases table, name
  {
    if table == [] then None
    else if SameNoCase(name, table[0].name) then Some(table[0])
    else Lookup(name, table[1..])
  }

  function Numeral(n: nat): (s: string)
    ensures s != []
  {
    (if n < 10 then [] else Numeral(n / 10)) + [('0' as int + n % 10) as char]
  }

  /** The decimal numeral of a number, as printf prints it. */
  function Decimal(n: int): (s: string)
    ensures s != []
  {
    if n < 0 then "-" + Numeral(-n) else Numeral(n)
  }

  predicate AllDigits(s: string) {
    forall i :: 0 <= i < |s| ==> '0' <= s[i] <= '9'
  }

  lemma {:induction false} NumeralDigits(n: nat)
    ensures AllDigits(Numeral(n))
  {
    if n >= 10 {
      NumeralDigits(n / 10);
    }
  }

  lemma DecimalDigits(n: int)
    ensures forall i :: 0 <= i < |Decimal(n)| ==> Decimal(n)[i] == '-' || '0' <= Decimal(n)[i] <= '9'
  {
    NumeralDigits(if n < 0 then -n else n);
  }

  /** A key outside the table, named by its position. */
  function KeyAt(row: int, col: int): Key {
    Key(row, col, if row < 0 then 1 else 0, Decimal(row) + "," + Decimal(col))
  }

  /** A "<row>,<col>" pair.  The column may be left empty, which reads as 0. */
  function ParsePair(tok: string): Option<Key> {
    PairFrom(tok, Strtol(tok, 10))
  }

  function PairFrom(tok: string, r: Number): Option<Key> {
    if r.used < |tok| && tok[r.used] == ',' then PairRest(r, tok[r.used + 1..]) else None
  }

  /** What is made of the row and the text after the comma. */
  function PairRest(r: Number, rest: string): Option<Key> {
    var c := Strtol(rest, 10);
    if r.used == 0 || c.used != |rest| || r.value < -8 || r.value > 15 || c.value < 0 || c.value > 7 then None
    else Some(KeyAt(r.value, c.value))
  }

  function ParseKey(tok: string): Option<Key> {
    if ',' in tok then ParsePair(tok) else Lookup(tok, KEYS)
  }

  // ---- Key lists ------------------------------------------------------------------

  datatype ParseResult =
    | Parsed(keys: seq<Key>, forFrames: int)
    | MissingFrameCount
    | BadFrameCount(tok: string)
    | TooManyKeys
    | UnknownKey(tok: string)

  function ParseFrames(tok: string): Option<int> {
    var v := Strtol(tok, 0);
    if v.used == 0 || v.used != |tok| || v.value < 1 || v.value > 65535 then None else Some(v.value)
  }

  /** Fold the tokens: keys accumulate, the last frame count wins. */
  function ParseTokens(ts: seq<string>, keys: seq<Key>, forFrames: int): ParseResult
    decreases |ts|
  {
    if ts == [] then Parsed(keys, forFrames)
    else if SameNoCase(ts[0], "for") then
      if |ts| == 1 then MissingFrameCount
      else
        match ParseFrames(ts[1])
        case None => BadFrameCount(ts[1])
        case Some(v) => ParseTokens(ts[2..], keys, v)
    else if |keys| >= MAX_KEYS then TooManyKeys
    else
      match ParseKey(ts[0])
      case None => UnknownKey(ts[0])
      case Some(k) => ParseTokens(ts[1..], keys + [k], forFrames)
  }

  function ParseArgs(args: string): ParseResult {
    ParseTokens(Tokens(args), [], -1)
  }

  // ---- What every accepted key is like ----------------------------------------------

  /** Only digits and capital letters. */
  predicate Plain(s: string) {
    forall i :: 0 <= i < |s| ==> '0' <= s[i] <= '9' || 'A' <= s[i] <= 'Z'
  }

  /** A table name that can be typed back: one token, not a pair, not "for". */
  predicate Typeable(name: string) {
    0 < |name| <= 10 && Plain(name) && (|name| != 3 || ToLower(name[0]) != 'f')
  }

  /** The position is in range and kind says which side of the matrix it is on. */
  predicate Placed(k: Key) {
    -8 <= k.row <= 15 && 0 <= k.col <= 7 && k.kind == if k.row < 0 then 1 else 0
  }

  predicate AllTypeable(table: seq<Key>) {
    forall i :: 0 <= i < |table| ==> Typeable(table[i].name) && Placed(table[i])
  }

  lemma Row0Typeable()
    ensures AllTypeable(ROW0)
  {
  }

  lemma Row1Typeable()
    ensures AllTypeable(ROW1)
  {
  }

  lemma Row2Typeable()
    ensures AllTypeable(ROW2)
  {
  }

  lemma Row3Typeable()
    ensures AllTypeable(ROW3)
  {
  }

  lemma Row4Typeable()
    ensures AllTypeable(ROW4)
  {
  }

  lemma Row5Typeable()
    ensures AllTypeable(ROW5)
  {
  }

  lemma Row6Typeable()
    ensures AllTypeable(ROW6)
  {
  }

  lemma Row7Typeable()
    ensures AllTypeable(ROW7)
  {
  }

  lemma SpecialTypeable()
    ensures AllTypeable(SPECIAL)
  {
  }

  lemma TableTypeable()
    ensures AllTypeable(KEYS)
  {
    Row0Typeable();
    Row1Typeable();
    Row2Typeable();
    Row3Typeable();
    Row4Typeable();
    Row5Typeable();
    Row6Typeable();
    Row7Typeable();
    SpecialTypeable();
  }

  /** Looking up a found key's own name finds it again: the first match of the
      name it was found under is also the first match of its own. */
  lemma {:induction false} LookupAgain(name: string, table: seq<Key>)
    requires AllTypeable(table) && Lookup(name, table).Some?
    ensures var k := Lookup(name, table).value;
      Lookup(k.name, table) == Some(k) && Typeable(k.name) && Placed(k) && SameNoCase(name, k.name)
  {
    if !SameNoCase(name, table[0].name) {
      LookupAgain(name, table[1..]);
      var k := Lookup(name, table[1..]).value;
      if SameNoCase(k.name, table[0].name) {
        SameNoCaseTransitive(name, k.name, table[0].name);
      }
    }
  }

  lemma SameNoCaseTransitive(a: string, b: string, c: string)
    requires SameNoCase(a, b) && SameNoCase(b, c)
    ensures SameNoCase(a, c)
  {
  }

  // ---- Printing and parsing again -----------------------------------------------------

  lemma {:induction false} DigitRunOf(digits: string, rest: string, base: nat)
    requires base == 10
    requires AllDigits(digits)
    requires rest == [] || rest[0] == ','
    ensures DigitRun(digits + rest, base) == |digits|
  {
    if digits == [] {
      assert digits + rest == rest;
    } else {
      assert (digits + rest)[1..] == digits[1..] + rest;
      DigitRunOf(digits[1..], rest, base);
    }
  }

  lemma NumeralStep(n: nat, high: string, d: char)
    requires high == (if n < 10 then [] else Numeral(n / 10)) && d == ('0' as int + n % 10) as char
    ensures Numeral(n) == high + [d] && DigitOf(d) == n % 10
  {
  }

  lemma {:induction false} MagnitudeOfNumeral(n: nat, base: nat)
    requires base == 10
    ensures Magnitude(Numeral(n), base) == n
  {
    var high, d := if n < 10 then [] else Numeral(n / 10), ('0' as int + n % 10) as char;
    NumeralStep(n, high, d);
    if n >= 10 {
      MagnitudeOfNumeral(n / 10, base);
    }
    MagnitudeStep(high, d, base, n);
  }

  lemma StrtolDigits(digits: string, rest: string, base: nat)
    requires base == 10 && digits != [] && AllDigits(digits)
    requires rest == [] || rest[0] == ','
    ensures Strtol(digits + rest, base) == Number(Magnitude(digits, base), |digits|)
  {
    var s := digits + rest;
    DigitRunOf(digits, rest, base);
    assert s[0..] == s && s[0..0 + |digits|] == digits;
  }

  /** Without a leading zero, base 0 means base 10. */
  lemma StrtolAnyBase(digits: string, zero: nat, ten: nat)
    requires zero == 0 && ten == 10 && digits != [] && AllDigits(digits)
    requires digits[0] != '0'
    ensures Strtol(digits, zero) == Number(Magnitude(digits, ten), |digits|)
  {
    DigitRunOf(digits, [], ten);
    assert digits + [] == digits && digits[0..] == digits && digits[0..0 + |digits|] == digits;
    assert SpaceRun(digits) == 0;
  }

  lemma {:induction false} NoLeadingZero(n: nat)
    requires n > 0
    ensures '1' <= Numeral(n)[0] <= '9'
  {
    if n >= 10 {
      NoLeadingZero(n / 10);
    }
  }

  lemma StrtolMinus(digits: string, rest: string, base: nat)
    requires base == 10 && digits != [] && AllDigits(digits)
    requires rest == [] || rest[0] == ','
    ensures Strtol("-" + digits + rest, base) == Number(-(Magnitude(digits, base) as int), 1 + |digits|)
  {
    var s, t := "-" + digits + rest, digits + rest;
    DigitRunOf(digits, rest, base);
    assert s[1..] == t && t[0..] == t && t[0..0 + |digits|] == digits;
  }

  /** strtol reads every printed number back, up to whatever follows it. */
  lemma StrtolDecimal(n: int, rest: string, base: nat)
    requires base == 10 && (rest == [] || rest[0] == ',')
    ensures Strtol(Decimal(n) + rest, base) == Number(n, |Decimal(n)|)
  {
    if n < 0 {
      NumeralDigits(-n);
      MagnitudeOfNumeral(-n, base);
      StrtolMinus(Numeral(-n), rest, base);
    } else {
      NumeralDigits(n);
      MagnitudeOfNumeral(n, base);
      StrtolDigits(Numeral(n), rest, base);
    }
  }

  lemma PairAgain(row: int, col: int)
    requires -8 <= row <= 15 && 0 <= col <= 7
    ensures ParsePair(KeyAt(row, col).name) == Some(KeyAt(row, col))
  {
    var r, c := Decimal(row), Decimal(col);
    StrtolDecimal(row, "," + c, 10);
    StrtolDecimal(col, [], 10);
    ParsedPair(r, c, row, col);
  }

  lemma ParsedPair(r: string, c: string, row: int, col: int)
    requires -8 <= row <= 15 && 0 <= col <= 7 && r != []
    requires Strtol(r + ("," + c), 10) == Number(row, |r|) && Strtol(c + [], 10) == Number(col, |c|)
    ensures ParsePair(r + "," + c) == Some(KeyAt(row, col))
  {
    var tok := r + "," + c;
    assert tok == r + ("," + c) && tok[|r|] == ',' && tok[|r| + 1..] == c && c + [] == c;
  }

  /** A key whose printed name is one token, not "for", that names it again. */
  predicate Reprintable(k: Key) {
    ParseKey(k.name) == Some(k) && Placed(k) && 0 < |k.name| <= 10 && NoBlanks(k.name) && !SameNoCase(k.name, "for")
  }

  lemma PairParsed(tok: string)
    requires ParsePair(tok).Some?
    ensures var k := ParsePair(tok).value; Placed(k) && k == KeyAt(k.row, k.col)
  {
  }

  lemma PairName(row: int, col: int)
    requires -8 <= row <= 15 && 0 <= col <= 7
    ensures var name := Decimal(row) + "," + Decimal(col);
      0 < |name| <= 10 && NoBlanks(name) && name[|Decimal(row)|] == ',' && ToLower(name[0]) != 'f'
  {
    ShortNumeral(if row < 0 then -row else row);
    ShortNumeral(col);
    DecimalDigits(row);
    DecimalDigits(col);
  }

  lemma ShortNumeral(n: nat)
    requires n < 100
    ensures |Numeral(n)| <= 2
  {
  }

  lemma PairReprintable(row: int, col: int)
    requires -8 <= row <= 15 && 0 <= col <= 7
    ensures Reprintable(KeyAt(row, col))
  {
    var name := KeyAt(row, col).name;
    PairName(row, col);
    assert name[|Decimal(row)|] in name;
    PairAgain(row, col);
    NotFor(name);
  }

  lemma NotFor(name: string)
    requires name != [] && ToLower(name[0]) != 'f'
    ensures !SameNoCase(name, "for")
  {
    assert "for"[0] == 'f';
  }

  lemma NameReprintable(tok: string, k: Key)
    requires Lookup(tok, KEYS) == Some(k)
    ensures Reprintable(k)
  {
    TableTypeable();
    LookupAgain(tok, KEYS);
    PlainIsOneWord(k.name);
    if |k.name| == 3 {
      NotFor(k.name);
    }
  }

  lemma PlainIsOneWord(name: string)
    requires Plain(name)
    ensures ',' !in name && NoBlanks(name)
  {
  }

  /** Every key a token can name parses back from its own printed name. */
  lemma KeyAgain(tok: string)
    requires ParseKey(tok).Some?
    ensures Reprintable(ParseKey(tok).value)
  {
    var k := ParseKey(tok).value;
    if ',' in tok {
      PairParsed(tok);
      PairReprintable(k.row, k.col);
    } else {
      NameReprintable(tok, k);
    }
  }

  function Names(keys: seq<Key>): (ns: seq<string>)
    ensures |ns| == |keys| && forall i :: 0 <= i < |keys| ==> ns[i] == keys[i].name
  {
    seq(|keys|, i requires 0 <= i < |keys| => keys[i].name)
  }

  lemma {:induction false} AcceptedReprintable(ts: seq<string>, keys: seq<Key>, forFrames: int)
    requires ParseTokens(ts, keys, forFrames).Parsed?
    requires |keys| <= MAX_KEYS && forall k :: k in keys ==> Reprintable(k)
    ensures var r := ParseTokens(ts, keys, forFrames).keys;
      |r| <= MAX_KEYS && keys <= r && forall k :: k in r ==> Reprintable(k)
    decreases |ts|
  {
    if ts == [] {
    } else if SameNoCase(ts[0], "for") {
      AcceptedReprintable(ts[2..], keys, ParseFrames(ts[1]).value);
    } else {
      KeyAgain(ts[0]);
      AcceptedReprintable(ts[1..], keys + [ParseKey(ts[0]).value], forFrames);
    }
  }

  lemma ParseOneKey(ts: seq<string>, k: Key, done: seq<Key>, forFrames: int)
    requires ts != [] && !SameNoCase(ts[0], "for") && |done| < MAX_KEYS && ParseKey(ts[0]) == Some(k)
    ensures ParseTokens(ts, done, forFrames) == ParseTokens(ts[1..], done + [k], forFrames)
  {
  }

  lemma {:induction false} JoinLength(keys: seq<Key>)
    requires forall k :: k in keys ==> |k.name| <= 10
    ensures |Join(Names(keys))| <= 11 * |keys|
    decreases |keys|
  {
    if keys != [] {
      assert keys[0] in keys && Names(keys)[1..] == Names(keys[1..]);
      JoinLength(keys[1..]);
    }
  }

  lemma FramesAgain(n: nat)
    requires 1 <= n <= 65535
    ensures ParseFrames(Decimal(n)) == Some(n)
  {
    NoLeadingZero(n);
    NumeralDigits(n);
    MagnitudeOfNumeral(n, 10);
    StrtolAnyBase(Numeral(n), 0, 10);
  }

  lemma {:induction false} JoinAppend(ts: seq<string>, us: seq<string>)
    requires us != []
    ensures |Join(ts + us)| <= |Join(ts)| + 1 + |Join(us)|
  {
    if ts == [] {
      assert ts + us == us;
    } else {
      assert (ts + us)[0] == ts[0] && (ts + us)[1..] == ts[1..] + us;
      JoinAppend(ts[1..], us);
      if |ts| == 1 {
        assert ts[1..] + us == us;
      }
    }
  }

  lemma {:induction false} NumeralLength(n: nat, k: nat)
    requires k > 0 && n < Power(10, k)
    ensures |Numeral(n)| <= k
  {
    if n >= 10 {
      assert k > 1;
      NumeralLength(n / 10, k - 1);
    }
  }

  lemma TailLength(tail: seq<string>, n: nat)
    requires n <= 65535 && |tail| == 2 && |tail[0]| == 3 && tail[1] == Decimal(n)
    ensures |Join(tail)| <= 9
  {
    assert Power(10, 5) == 100000;
    NumeralLength(n, 5);
    assert Join(tail[1..]) == tail[1];
  }
}
