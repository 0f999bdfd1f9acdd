/** The language of key lists, described without the parser: which tokens are keys
    and frame counts, which lists are accepted, and what letter case and blanks
    matter. */
module KeyGrammar {
  import opened Common
  import opened Text
  import opened KeyList

  // ---- Positions --------------------------------------------------------------

  predicate InRange(row: int, col: int) {
    -8 <= row <= 15 && 0 <= col <= 7
  }

  lemma PairOfNumbers(r: string, c: string, row: int, col: int)
    requires r != [] && Strtol(r + ("," + c), 10) == Number(row, |r|) && Strtol(c, 10) == Number(col, |c|)
    ensures ParsePair(r + "," + c) == if InRange(row, col) then Some(KeyAt(row, col)) else None
  {
    var tok := r + "," + c;
    assert tok == r + ("," + c) && tok[|r|] == ',' && tok[|r| + 1..] == c;
  }

  /** Of all pairs of numbers exactly those in range are keys, and the missing column
      of `row,` reads as 0. */
  lemma PairsAccepted(row: int, col: int)
    ensures ParsePair(Decimal(row) + "," + Decimal(col)) == if InRange(row, col) then Some(KeyAt(row, col)) else None
    ensures ParsePair(Decimal(row) + "," + "") == if InRange(row, 0) then Some(KeyAt(row, 0)) else None
  {
    var r, c := Decimal(row), Decimal(col);
    StrtolDecimal(row, "," + c, 10);
    StrtolDecimal(col, [], 10);
    assert c + [] == c;
    PairOfNumbers(r, c, row, col);
    StrtolDecimal(row, "," + "", 10);
    EmptyIsZero("");
    PairOfNumbers(r, "", row, 0);
  }

  lemma EmptyIsZero(s: string)
    requires s == []
    ensures Strtol(s, 10) == Number(0, |s|)
  {
  }

  // ---- Frame counts -------------------------------------------------------------

  predicate FramesInRange(n: int) {
    1 <= n <= 65535
  }

  lemma FramesOfNumber(tok: string, n: int)
    requires tok != [] && Strtol(tok, 0) == Number(n, |tok|)
    ensures ParseFrames(tok) == if FramesInRange(n) then Some(n) else None
  {
  }

  lemma DecimalFrames(n: nat)
    requires n > 0
    ensures Strtol(Decimal(n), 0) == Number(n, |Decimal(n)|)
  {
    NoLeadingZero(n);
    NumeralDigits(n);
    MagnitudeOfNumeral(n, 10);
    StrtolAnyBase(Numeral(n), 0, 10);
  }

  lemma HexFrames(n: nat)
    ensures Strtol("0x" + Printed(n, 16), 0) == Number(n, |"0x" + Printed(n, 16)|)
  {
    PrintedDigits(n, 16);
    PrintedMagnitude(n, 16);
    StrtolHex(Printed(n, 16), 0, 16);
  }

  lemma OctalFrames(n: nat)
    ensures Strtol("0" + Printed(n, 8), 0) == Number(n, |"0" + Printed(n, 8)|)
  {
    PrintedDigits(n, 8);
    PrintedMagnitude(n, 8);
    LeadingZero(Printed(n, 8), 8);
    StrtolOctal(Printed(n, 8), 0, 8);
  }

  /** Numbers are frame counts in decimal, in hexadecimal after 0x and in octal after
      0, exactly if they are in range. */
  lemma FramesAccepted(n: nat, tok: string)
    requires (n > 0 && tok == Decimal(n)) || tok == "0x" + Printed(n, 16) || tok == "0" + Printed(n, 8)
    ensures ParseFrames(tok) == if FramesInRange(n) then Some(n) else None
  {
    if n > 0 && tok == Decimal(n) {
      DecimalFrames(n);
    } else if tok == "0x" + Printed(n, 16) {
      HexFrames(n);
    } else {
      OctalFrames(n);
    }
    FramesOfNumber(tok, n);
  }

  // ---- Lists ----------------------------------------------------------------------

  /** What a list is made of: keys and frame clauses, in any order. */
  datatype Item = KeyItem(tok: string, key: Key) | ForItem(word: string, count: string, frames: int)

  predicate Good(item: Item) {
    match item
    case KeyItem(tok, key) => !SameNoCase(tok, "for") && ParseKey(tok) == Some(key)
    case ForItem(word, count, frames) => SameNoCase(word, "for") && ParseFrames(count) == Some(frames)
  }

  predicate AllGood(items: seq<Item>) {
    forall i :: 0 <= i < |items| ==> Good(items[i])
  }

  function Words(items: seq<Item>): seq<string> {
    if items == [] then []
    else (if items[0].KeyItem? then [items[0].tok] else [items[0].word, items[0].count]) + Words(items[1..])
  }

  function KeysOf(items: seq<Item>): seq<Key> {
    if items == [] then [] else (if items[0].KeyItem? then [items[0].key] else []) + KeysOf(items[1..])
  }

  /** The last frame clause decides. */
  function FramesOf(items: seq<Item>): int {
    if items == [] then -1 else if Last(items).ForItem? then Last(items).frames else FramesOf(Init(items))
  }

  lemma ForStep(ts: seq<string>, keys: seq<Key>, forFrames: int, frames: int)
    requires |ts| >= 2 && SameNoCase(ts[0], "for") && ParseFrames(ts[1]) == Some(frames)
    ensures ParseTokens(ts, keys, forFrames) == ParseTokens(ts[2..], keys, frames)
  {
  }

  function FramesFrom(items: seq<Item>, forFrames: int): int {
    if items == [] then forFrames
    else FramesFrom(items[1..], if items[0].ForItem? then items[0].frames else forFrames)
  }

  lemma {:induction false} FramesFromLast(items: seq<Item>, forFrames: int)
    requires items != []
    ensures FramesFrom(items, forFrames) ==
      if Last(items).ForItem? then Last(items).frames else FramesFrom(Init(items), forFrames)
    decreases |items|
  {
    if |items| > 1 {
      assert Init(items)[0] == items[0] && Init(items)[1..] == Init(items[1..]) && Last(items[1..]) == Last(items);
      FramesFromLast(items[1..], if items[0].ForItem? then items[0].frames else forFrames);
    }
  }

  lemma {:induction false} FramesAreLast(items: seq<Item>)
    ensures FramesFrom(items, -1) == FramesOf(items)
  {
    if items != [] {
      FramesFromLast(items, -1);
      FramesAreLast(Init(items));
    }
  }

  function KeysAfter(keys: seq<Key>, item: Item): seq<Key> {
    if item.KeyItem? then keys + [item.key] else keys
  }

  function FramesAfter(forFrames: int, item: Item): int {
    if item.ForItem? then item.frames else forFrames
  }

  lemma ItemsStep(items: seq<Item>, ts: seq<string>, rest: seq<string>, keys: seq<Key>, forFrames: int)
    requires items != [] && AllGood(items) && ts == Words(items) && rest == Words(items[1..])
    requires items[0].KeyItem? ==> |keys| < MAX_KEYS
    ensures AllGood(items[1..])
    ensures ParseTokens(ts, keys, forFrames) == ParseTokens(rest, KeysAfter(keys, items[0]), FramesAfter(forFrames, items[0]))
  {
    assert Good(items[0]);
    if items[0].KeyItem? {
      assert ts[1..] == rest;
      ParseOneKey(ts, items[0].key, keys, forFrames);
    } else {
      assert ts[2..] == rest;
      ForStep(ts, keys, forFrames, items[0].frames);
    }
  }

  lemma KeysOfStep(items: seq<Item>, keys: seq<Key>)
    requires items != []
    ensures keys + KeysOf(items) == KeysAfter(keys, items[0]) + KeysOf(items[1..])
  {
    if items[0].KeyItem? {
      Regroup(keys, [items[0].key], KeysOf(items[1..]));
    }
  }

  lemma NoMoreTokens(ts: seq<string>, keys: seq<Key>, forFrames: int)
    requires ts == []
    ensures ParseTokens(ts, keys, forFrames) == Parsed(keys + [], forFrames)
  {
    assert keys + [] == keys;
  }

  lemma {:induction false} ItemsParse(items: seq<Item>, ts: seq<string>, keys: seq<Key>, forFrames: int)
    requires AllGood(items) && |keys + KeysOf(items)| <= MAX_KEYS && ts == Words(items)
    ensures ParseTokens(ts, keys, forFrames) == Parsed(keys + KeysOf(items), FramesFrom(items, forFrames))
    decreases |items|
  {
    if items == [] {
      NoMoreTokens(ts, keys, forFrames);
    } else {
      KeysOfStep(items, keys);
      ItemsStep(items, ts, Words(items[1..]), keys, forFrames);
      ItemsParse(items[1..], Words(items[1..]), KeysAfter(keys, items[0]), FramesAfter(forFrames, items[0]));
    }
  }

  /** One accepted step, seen from the result. */
  lemma StepBack(ts: seq<string>, keys: seq<Key>, forFrames: int) returns (item: Item, rest: seq<string>)
    requires ts != [] && ParseTokens(ts, keys, forFrames).Parsed?
    ensures Good(item) && |rest| < |ts|
    ensures ts == (if item.KeyItem? then [item.tok] else [item.word, item.count]) + rest
    ensures item.KeyItem? ==> |keys| < MAX_KEYS
    ensures ParseTokens(ts, keys, forFrames) ==
      if item.KeyItem? then ParseTokens(rest, keys + [item.key], forFrames) else ParseTokens(rest, keys, item.frames)
  {
    if SameNoCase(ts[0], "for") {
      item, rest := ForItem(ts[0], ts[1], ParseFrames(ts[1]).value), ts[2..];
      assert ts == [ts[0], ts[1]] + rest;
    } else {
      item, rest := KeyItem(ts[0], ParseKey(ts[0]).value), ts[1..];
      assert ts == [ts[0]] + rest;
    }
  }

  lemma {:induction false} ParsedItems(ts: seq<string>, keys: seq<Key>, forFrames: int) returns (items: seq<Item>)
    requires ParseTokens(ts, keys, forFrames).Parsed? && |keys| <= MAX_KEYS
    ensures AllGood(items) && ts == Words(items) && |keys| + |KeysOf(items)| <= MAX_KEYS
    decreases |ts|
  {
    if ts == [] {
      items := [];
    } else {
      var item, rest := StepBack(ts, keys, forFrames);
      var more;
      if item.KeyItem? {
        more := ParsedItems(rest, keys + [item.key], forFrames);
      } else {
        more := ParsedItems(rest, keys, item.frames);
      }
      items := [item] + more;
      assert items[1..] == more;
    }
  }

  ghost predicate Reads(ts: seq<string>, items: seq<Item>) {
    AllGood(items) && ts == Words(items) && |KeysOf(items)| <= MAX_KEYS
  }

  /** A line is accepted exactly if its tokens are keys and frame clauses with at most
      16 keys, and then it yields the keys in order and the last frame count. */
  lemma AcceptedLines(args: string)
    ensures ParseArgs(args).Parsed? <==> exists items :: Reads(Tokens(args), items)
    ensures forall items :: Reads(Tokens(args), items) ==> ParseArgs(args) == Parsed(KeysOf(items), FramesOf(items))
  {
    if ParseArgs(args).Parsed? {
      var items := ParsedItems(Tokens(args), [], -1);
      assert Reads(Tokens(args), items);
    }
    forall items | Reads(Tokens(args), items) ensures ParseArgs(args) == Parsed(KeysOf(items), FramesOf(items)) {
      ItemsParse(items, Tokens(args), [], -1);
      FramesAreLast(items);
      assert [] + KeysOf(items) == KeysOf(items);
    }
  }

  // ---- Printing and parsing again -----------------------------------------------------

  function NameItems(keys: seq<Key>): (items: seq<Item>)
    ensures |items| == |keys| && forall i :: 0 <= i < |keys| ==> items[i] == KeyItem(keys[i].name, keys[i])
  {
    seq(|keys|, i requires 0 <= i < |keys| => KeyItem(keys[i].name, keys[i]))
  }

  lemma NameItemGood(k: Key)
    requires Reprintable(k)
    ensures Good(KeyItem(k.name, k))
  {
  }

  lemma NameItemsGood(keys: seq<Key>)
    requires forall i :: 0 <= i < |keys| ==> Reprintable(keys[i])
    ensures AllGood(NameItems(keys))
  {
    forall i | 0 <= i < |keys| ensures Good(NameItems(keys)[i]) {
      NameItemGood(keys[i]);
    }
  }

  lemma BothGood(items: seq<Item>, tail: seq<Item>)
    requires AllGood(items) && AllGood(tail)
    ensures AllGood(items + tail)
  {
  }

  lemma {:induction false} NameItemsSay(keys: seq<Key>, tail: seq<Item>, forFrames: int)
    ensures KeysOf(NameItems(keys) + tail) == keys + KeysOf(tail)
    ensures Words(NameItems(keys) + tail) == Names(keys) + Words(tail)
    ensures FramesFrom(NameItems(keys) + tail, forFrames) == FramesFrom(tail, forFrames)
    decreases |keys|
  {
    if keys == [] {
      assert NameItems(keys) + tail == tail;
      assert Names(keys) + Words(tail) == Words(tail) && keys + KeysOf(tail) == KeysOf(tail);
    } else {
      var item, more := KeyItem(keys[0].name, keys[0]), NameItems(keys[1..]) + tail;
      NameItemsSay(keys[1..], tail, forFrames);
      assert NameItems(keys) + tail == [item] + more;
      ConsItem(item, more, forFrames);
      assert Words([item]) == [keys[0].name] && Names(keys) == [keys[0].name] + Names(keys[1..]);
      assert KeysAfter([], item) == [keys[0]] && keys == [keys[0]] + keys[1..];
      Regroup([keys[0].name], Names(keys[1..]), Words(tail));
      Regroup([keys[0]], keys[1..], KeysOf(tail));
    }
  }

  lemma ConsItem(item: Item, more: seq<Item>, forFrames: int)
    ensures Words([item] + more) == Words([item]) + Words(more)
    ensures KeysOf([item] + more) == KeysAfter([], item) + KeysOf(more)
    ensures FramesFrom([item] + more, forFrames) == FramesFrom(more, FramesAfter(forFrames, item))
  {
    assert ([item] + more)[1..] == more && [item][1..] == [];
  }

  lemma PrintedParses(keys: seq<Key>, tail: seq<Item>, words: seq<string>)
    requires |keys| <= MAX_KEYS && forall i :: 0 <= i < |keys| ==> Reprintable(keys[i])
    requires AllGood(tail) && KeysOf(tail) == []
    requires words == Names(keys) + Words(tail) && forall i :: 0 <= i < |words| ==> words[i] != [] && NoBlanks(words[i])
    ensures ParseArgs(Join(words)) == Parsed(keys, FramesFrom(tail, -1))
  {
    NameItemsGood(keys);
    BothGood(NameItems(keys), tail);
    NameItemsSay(keys, tail, -1);
    TokensOfJoin(words);
    assert [] + (keys + []) == keys;
    ItemsParse(NameItems(keys) + tail, words, [], -1);
  }

  lemma PrintedKeysParse(keys: seq<Key>)
    requires |keys| <= MAX_KEYS && forall i :: 0 <= i < |keys| ==> Reprintable(keys[i])
    ensures |Join(Names(keys))| < BUFFER_SIZE && ParseArgs(Join(Names(keys))) == Parsed(keys, -1)
  {
    JoinLength(keys);
    assert Names(keys) + [] == Names(keys);
    PrintedParses(keys, [], Names(keys));
  }

  /** Printing the names of any accepted key list gives a line that fits the
      argument buffer and is accepted again with the same keys. */
  lemma PrintedListParsesAgain(args: string)
    requires ParseArgs(args).Parsed?
    ensures var keys := ParseArgs(args).keys;
      |Join(Names(keys))| < BUFFER_SIZE && ParseArgs(Join(Names(keys))) == Parsed(keys, -1)
  {
    var keys := ParseArgs(args).keys;
    AcceptedReprintable(Tokens(args), [], -1);
    assert forall i :: 0 <= i < |keys| ==> keys[i] in keys;
    PrintedKeysParse(keys);
  }

  lemma ForItemGood(word: string, count: string, n: nat)
    requires 1 <= n <= 65535 && word == "for" && count == Decimal(n)
    ensures AllGood([ForItem(word, count, n)])
  {
    FramesAgain(n);
  }

  lemma ForItemSays(word: string, count: string, n: int, forFrames: int)
    ensures var tail := [ForItem(word, count, n)];
      KeysOf(tail) == [] && FramesFrom(tail, forFrames) == n && Words(tail) == [word, count]
  {
    assert [ForItem(word, count, n)][1..] == [];
  }

  lemma PrintedTapWords(keys: seq<Key>, word: string, count: string, n: nat) returns (words: seq<string>)
    requires forall i :: 0 <= i < |keys| ==> Reprintable(keys[i])
    requires word == "for" && count == Decimal(n)
    ensures words == Names(keys) + [word, count]
    ensures forall i :: 0 <= i < |words| ==> words[i] != [] && NoBlanks(words[i])
  {
    DecimalDigits(n);
    words := Names(keys) + [word, count];
  }

  lemma ForClause(word: string, count: string, n: nat) returns (items: seq<Item>)
    requires 1 <= n <= 65535 && word == "for" && count == Decimal(n)
    ensures AllGood(items) && KeysOf(items) == [] && FramesFrom(items, -1) == n && Words(items) == [word, count]
  {
    ForItemGood(word, count, n);
    ForItemSays(word, count, n, -1);
    items := [ForItem(word, count, n)];
  }

  lemma PrintedTapParses(keys: seq<Key>, n: nat, word: string, count: string)
    requires |keys| <= MAX_KEYS && (forall i :: 0 <= i < |keys| ==> Reprintable(keys[i])) && 1 <= n <= 65535
    requires word == "for" && count == Decimal(n)
    ensures ParseArgs(Join(Names(keys) + [word, count])) == Parsed(keys, n)
  {
    var items := ForClause(word, count, n);
    var words := PrintedTapWords(keys, word, count, n);
    PrintedParses(keys, items, words);
  }

  lemma PrintedTapFits(keys: seq<Key>, n: nat, word: string, count: string)
    requires |keys| <= MAX_KEYS && (forall k :: k in keys ==> |k.name| <= 10) && n <= 65535
    requires |word| == 3 && count == Decimal(n)
    ensures |Join(Names(keys) + [word, count])| < BUFFER_SIZE
  {
    JoinLength(keys);
    TailLength([word, count], n);
    JoinAppend(Names(keys), [word, count]);
  }

  lemma AcceptedKeys(args: string) returns (keys: seq<Key>)
    requires ParseArgs(args).Parsed?
    ensures keys == ParseArgs(args).keys && |keys| <= MAX_KEYS
    ensures forall i :: 0 <= i < |keys| ==> Reprintable(keys[i])
    ensures forall k :: k in keys ==> |k.name| <= 10
  {
    keys := ParseArgs(args).keys;
    AcceptedReprintable(Tokens(args), [], -1);
    assert forall i :: 0 <= i < |keys| ==> keys[i] in keys;
  }

  /** The same with a frame count: printed after the names as `for n`, it comes back
      too. */
  lemma PrintedTapParsesAgain(args: string, n: nat, word: string, count: string)
    requires ParseArgs(args).Parsed? && 1 <= n <= 65535
    requires word == "for" && count == Decimal(n)
    ensures var line := Join(Names(ParseArgs(args).keys) + [word, count]);
      |line| < BUFFER_SIZE && ParseArgs(line) == Parsed(ParseArgs(args).keys, n)
  {
    var keys := AcceptedKeys(args);
    PrintedTapFits(keys, n, word, count);
    PrintedTapParses(keys, n, word, count);
  }

  // ---- Letter case ------------------------------------------------------------------

  predicate AllRecased(ts: seq<string>, us: seq<string>) {
    |ts| == |us| && forall i :: 0 <= i < |ts| ==> Recased(ts[i], us[i])
  }

  lemma {:induction false} SplitRecased(v: string, s: string, w: string, t: string)
    requires NoBlanks(v) && NoBlanks(w) && Recased(v, w) && Recased(s, t)
    ensures AllRecased(Split(v, s), Split(w, t))
    decreases |s|
  {
    if s != [] {
      TwinsReadAlike(s[0], t[0]);
      if IsBlank(s[0]) {
        SplitRecased([], s[1..], [], t[1..]);
      } else {
        SplitRecased(v + [s[0]], s[1..], w + [t[0]], t[1..]);
      }
    }
  }

  lemma SameNameRecased(a: string, b: string, name: string)
    requires Recased(a, b)
    ensures SameNoCase(a, name) <==> SameNoCase(b, name)
  {
    SameNoCaseIsRecased(a, b);
  }

  lemma {:induction false} LookupRecased(a: string, b: string, table: seq<Key>)
    requires Recased(a, b)
    ensures Lookup(a, table) == Lookup(b, table)
    decreases |table|
  {
    if table != [] {
      SameNameRecased(a, b, table[0].name);
      LookupRecased(a, b, table[1..]);
    }
  }

  lemma RestRecased(r: Number, a: string, b: string)
    requires Recased(a, b)
    ensures PairRest(r, a) == PairRest(r, b)
  {
    StrtolRecased(a, b, 10);
  }

  lemma CommaAndRest(a: string, b: string, r: Number)
    requires Recased(a, b) && r.used < |a|
    ensures a[r.used] == ',' <==> b[r.used] == ','
    ensures PairRest(r, a[r.used + 1..]) == PairRest(r, b[r.used + 1..])
  {
    TwinsReadAlike(a[r.used], b[r.used]);
    SliceRecased(a, b, r.used + 1);
    RestRecased(r, a[r.used + 1..], b[r.used + 1..]);
  }

  lemma WithComma(tok: string, r: Number, rest: string)
    requires r.used < |tok| && tok[r.used] == ',' && rest == tok[r.used + 1..]
    ensures PairFrom(tok, r) == PairRest(r, rest)
  {
  }

  lemma WithoutComma(tok: string, r: Number)
    requires r.used < |tok| ==> tok[r.used] != ','
    ensures PairFrom(tok, r) == None
  {
  }

  lemma PairFromRecased(a: string, b: string, r: Number)
    requires Recased(a, b)
    ensures PairFrom(a, r) == PairFrom(b, r)
  {
    if r.used < |a| {
      CommaAndRest(a, b, r);
    }
    if r.used < |a| && a[r.used] == ',' {
      WithComma(a, r, a[r.used + 1..]);
      WithComma(b, r, b[r.used + 1..]);
    } else {
      WithoutComma(a, r);
      WithoutComma(b, r);
    }
  }

  lemma PairRecased(a: string, b: string)
    requires Recased(a, b)
    ensures ParsePair(a) == ParsePair(b)
  {
    StrtolRecased(a, b, 10);
    PairFromRecased(a, b, Strtol(a, 10));
  }

  lemma CommaRecased(a: string, b: string)
    requires Recased(a, b) && ',' in a
    ensures ',' in b
  {
    var i :| 0 <= i < |a| && a[i] == ',';
    TwinsReadAlike(a[i], b[i]);
    assert b[i] == ',';
  }

  lemma KeyRecased(a: string, b: string)
    requires Recased(a, b)
    ensures ParseKey(a) == ParseKey(b) && ParseFrames(a) == ParseFrames(b)
  {
    assert Recased(b, a);
    if ',' in a {
      CommaRecased(a, b);
      PairRecased(a, b);
    } else if ',' in b {
      CommaRecased(b, a);
    } else {
      LookupRecased(a, b, KEYS);
    }
    StrtolRecased(a, b, 0);
  }

  function RecasedItem(item: Item, us: seq<string>, n: nat): Item
    requires n == (if item.KeyItem? then 1 else 2) && |us| >= n
  {
    if item.KeyItem? then KeyItem(us[0], item.key) else ForItem(us[0], us[1], item.frames)
  }

  lemma RecasedItemGood(item: Item, us: seq<string>, n: nat)
    requires Good(item) && n == (if item.KeyItem? then 1 else 2) && |us| >= n && AllRecased(Words([item]), us[..n])
    ensures Good(RecasedItem(item, us, n))
  {
    var ts := Words([item]);
    SameNameRecased(ts[0], us[0], "for");
    KeyRecased(ts[0], us[0]);
    if n == 2 {
      KeyRecased(ts[1], us[1]);
    }
  }

  lemma RecasedGood(items: seq<Item>, us: seq<string>, n: nat)
    requires items != [] && AllGood(items) && AllRecased(Words(items), us)
    requires n == if items[0].KeyItem? then 1 else 2
    ensures n <= |us| && AllGood([RecasedItem(items[0], us, n)]) && AllGood(items[1..])
  {
    assert Good(items[0]) && Words([items[0]]) == Words(items)[..n];
    RecasedItemGood(items[0], us, n);
  }

  lemma RecasedWords(items: seq<Item>, us: seq<string>, n: nat, other: Item)
    requires items != [] && AllRecased(Words(items), us) && n == (if items[0].KeyItem? then 1 else 2) && n <= |us|
    requires other == RecasedItem(items[0], us, n)
    ensures AllRecased(Words(items[1..]), us[n..]) && us == Words([other]) + us[n..]
    ensures KeysAfter([], other) == KeysAfter([], items[0])
  {
    assert Words(items)[n..] == Words(items[1..]);
    assert [other][1..] == [] && us == us[..n] + us[n..];
  }

  lemma {:induction false} ItemsRecased(items: seq<Item>, us: seq<string>, forFrames: int) returns (others: seq<Item>)
    requires AllGood(items) && AllRecased(Words(items), us)
    ensures AllGood(others) && us == Words(others) && KeysOf(others) == KeysOf(items)
    ensures FramesFrom(others, forFrames) == FramesFrom(items, forFrames)
    decreases |items|
  {
    if items == [] {
      others := [];
    } else {
      var n := if items[0].KeyItem? then 1 else 2;
      RecasedGood(items, us, n);
      var other := RecasedItem(items[0], us, n);
      RecasedWords(items, us, n, other);
      var more := ItemsRecased(items[1..], us[n..], FramesAfter(forFrames, items[0]));
      ConsItem(other, more, forFrames);
      ConsItem(items[0], items[1..], forFrames);
      assert items == [items[0]] + items[1..];
      BothGood([other], more);
      others := [other] + more;
    }
  }

  /** An accepted line with any of its letters re-cased gives the same keys and
      frames. */
  lemma CaseDoesNotMatter(args: string, other: string)
    requires ParseArgs(args).Parsed? && Recased(args, other)
    ensures ParseArgs(other) == ParseArgs(args)
  {
    SplitRecased([], args, [], other);
    var items := ParsedItems(Tokens(args), [], -1);
    var others := ItemsRecased(items, Tokens(other), -1);
    ItemsParse(items, Tokens(args), [], -1);
    ItemsParse(others, Tokens(other), [], -1);
  }

  // ---- Blanks -----------------------------------------------------------------------

  /** Spaces and tabs, at least `least` of them. */
  predicate Gap(s: string, least: nat) {
    |s| >= least && forall i :: 0 <= i < |s| ==> s[i] == ' ' || s[i] == '\t'
  }

  /** A word has at least one character and neither space nor tab. */
  predicate Word(s: string) {
    s != [] && forall i :: 0 <= i < |s| ==> s[i] != ' ' && s[i] != '\t'
  }

  /** A gap, then words each followed by a gap, of which only the last may be empty. */
  function Spaced(ts: seq<string>, gaps: seq<string>): string
    requires |gaps| == |ts| + 1
  {
    if ts == [] then gaps[0] else gaps[0] + ts[0] + Spaced(ts[1..], gaps[1..])
  }

  predicate Spacing(ts: seq<string>, gaps: seq<string>) {
    && |gaps| == |ts| + 1
    && (forall i :: 0 <= i < |ts| ==> Word(ts[i]))
    && (forall i :: 0 <= i < |gaps| ==> Gap(gaps[i], if 0 < i < |ts| then 1 else 0))
  }

  lemma {:induction false} SpacedTokens(ts: seq<string>, gaps: seq<string>)
    requires Spacing(ts, gaps)
    ensures Tokens(Spaced(ts, gaps)) == ts
    decreases |ts|
  {
    assert Gap(gaps[0], 0);
    if ts == [] {
      TokensDropBlanks(gaps[0], []);
      assert gaps[0] + [] == gaps[0];
    } else {
      var rest := Spaced(ts[1..], gaps[1..]);
      SpacedTokens(ts[1..], gaps[1..]);
      StartsBlank(ts, gaps, rest);
      assert Word(ts[0]) && Spaced(ts, gaps) == gaps[0] + (ts[0] + rest);
      TokensDropBlanks(gaps[0], ts[0] + rest);
      TokensCons(ts[0], rest);
    }
  }

  lemma StartsBlank(ts: seq<string>, gaps: seq<string>, rest: string)
    requires Spacing(ts, gaps) && ts != [] && rest == Spaced(ts[1..], gaps[1..])
    ensures Spacing(ts[1..], gaps[1..])
    ensures rest == [] || IsBlank(rest[0])
  {
    assert Gap(gaps[1], if 1 < |ts| then 1 else 0);
  }

  /** Every string is words with gaps around them. */
  lemma {:induction false} SpacingOf(s: string) returns (ts: seq<string>, gaps: seq<string>)
    ensures Spacing(ts, gaps) && Spaced(ts, gaps) == s
    decreases |s|
  {
    if s == [] {
      ts, gaps := [], [[]];
    } else {
      var us, hs := SpacingOf(s[1..]);
      ts, gaps := Prepend(s[0], us, hs);
      assert s == [s[0]] + s[1..];
    }
  }

  lemma Prepend(c: char, us: seq<string>, hs: seq<string>) returns (ts: seq<string>, gaps: seq<string>)
    requires Spacing(us, hs)
    ensures Spacing(ts, gaps) && Spaced(ts, gaps) == [c] + Spaced(us, hs)
  {
    if c == ' ' || c == '\t' {
      ts, gaps := us, [[c] + hs[0]] + hs[1..];
      assert Gap(hs[0], 0) && gaps[1..] == hs[1..];
      forall i | 0 <= i < |gaps| ensures Gap(gaps[i], if 0 < i < |ts| then 1 else 0) {
        assert Gap(hs[i], if 0 < i < |us| then 1 else 0);
      }
    } else if us != [] && hs[0] == [] {
      ts, gaps := [[c] + us[0]] + us[1..], hs;
      assert Word(us[0]) && ts[1..] == us[1..];
    } else {
      ts, gaps := [[c]] + us, [[]] + hs;
      assert ts[1..] == us && gaps[1..] == hs;
      forall i | 0 <= i < |gaps| ensures Gap(gaps[i], if 0 < i < |ts| then 1 else 0) {
        if i > 0 { assert Gap(hs[i - 1], if 0 < i - 1 < |us| then 1 else 0); }
      }
    }
  }

  /** Splitting at spaces and tabs, whatever their number: the tokens of a string are
      its words. */
  lemma TokensAreWords(s: string, ts: seq<string>)
    ensures Tokens(s) == ts <==> exists gaps :: Spacing(ts, gaps) && Spaced(ts, gaps) == s
  {
    var us, hs := SpacingOf(s);
    SpacedTokens(us, hs);
    forall gaps | Spacing(ts, gaps) && Spaced(ts, gaps) == s ensures Tokens(s) == ts {
      SpacedTokens(ts, gaps);
    }
  }
}
