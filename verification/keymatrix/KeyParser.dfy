/** The argument parser in place: a 256-byte buffer that the tokenizer cuts up
    and a fixed array the keys are collected in. */
module KeyParser {
  import opened Common
  import opened Text
  import opened KeyList

  /** find_key_by_name */
  method FindKeyByName(name: CString) returns (key: Option<Key>)
    ensures key == Lookup(name, KEYS)
  {
    TableTypeable();
    var i := 0;
    while i < |KEYS|
      invariant i <= |KEYS|
      invariant Lookup(name, KEYS[i..]) == Lookup(name, KEYS)
    {
      assert Typeable(KEYS[i].name);
      var cmp := StrCaseCmp(name, KEYS[i].name);
      if cmp == 0 {
        return Some(KEYS[i]);
      }
      i := i + 1;
    }
    return None;
  }

  /** parse_key_token: a comma makes it a pair */
  method ParseKeyToken(tok: CString) returns (key: Option<Key>)
    ensures key == ParseKey(tok)
  {
    if ',' in tok {
      key := ParsePair(tok);
    } else {
      key := FindKeyByName(tok);
    }
  }

  /** km_copy_args */
  method CopyArgs(args: CString, buf: array<char>) returns (ok: bool)
    requires buf.Length == BUFFER_SIZE
    modifies buf
    ensures ok <==> |args| < BUFFER_SIZE
    ensures ok ==> StringAt(buf[..], 0, |args|) && buf[..|args|] == args
  {
    if |args| >= BUFFER_SIZE {
      return false;
    }
    forall i | 0 <= i < |args| { buf[i] := args[i]; }
    buf[|args|] := '\0';
    ok := true;
  }

  /** The next token of the buffer, as the string it points to. */
  method TakeToken(buf: array<char>, start: nat, ghost end: nat) returns (tok: Option<CString>, save: nat)
    requires StringAt(buf[..], start, end)
    modifies buf
    ensures StringAt(buf[..], save, end)
    ensures Tokens(old(buf[start..end])) == if tok.None? then [] else [tok.value] + Tokens(buf[save..end])
    ensures tok.Some? ==> start < save
  {
    var p;
    ghost var b, stop := buf[..], 0;
    p, save, stop := KmTok(buf, start, end);
    assert b[start..end] == old(buf[start..end]) && b[save..end] == buf[save..end];
    if p.None? {
      FirstWordSplits(b, start, end, end, end);
      return None, save;
    }
    FirstWordSplits(b, start, end, p.value, stop);
    var s := Deref(buf, p.value, stop);
    assert s == b[p.value..stop];
    tok := Some(s);
  }

  /** km_strcasecmp(tok, "for") == 0 */
  method IsFor(tok: CString) returns (b: bool)
    ensures b <==> SameNoCase(tok, "for")
  {
    var cmp := StrCaseCmp(tok, "for");
    b := cmp == 0;
  }

  /** What follows a `for`. */
  datatype FrameCount = NoCount | BadCount(tok: string) | Count(frames: int)

  function CountOf(ts: seq<string>): FrameCount {
    if ts == [] then NoCount else if ParseFrames(ts[0]).None? then BadCount(ts[0]) else Count(ParseFrames(ts[0]).value)
  }

  /** The token after `for`, as a frame count. */
  method TakeFrames(buf: array<char>, start: nat, ghost end: nat) returns (c: FrameCount, save: nat)
    requires StringAt(buf[..], start, end)
    modifies buf
    ensures StringAt(buf[..], save, end) && (c.Count? ==> start < save)
    ensures c == CountOf(Tokens(old(buf[start..end])))
    ensures c.Count? ==> Tokens(buf[save..end]) == Tokens(old(buf[start..end]))[1..]
  {
    var tok;
    tok, save := TakeToken(buf, start, end);
    if tok.None? {
      return NoCount, save;
    }
    var v := ParseFrames(tok.value);
    c := if v.None? then BadCount(tok.value) else Count(v.value);
  }

  /** One turn of the loop on tokens, for either kind of token. */
  lemma ForTurn(ts: seq<string>, rest: seq<string>, keys: seq<Key>, forFrames: int)
    requires ts != [] && SameNoCase(ts[0], "for") && rest == ts[1..]
    ensures ParseTokens(ts, keys, forFrames) ==
      match CountOf(rest)
      case NoCount => MissingFrameCount
      case BadCount(tok) => BadFrameCount(tok)
      case Count(v) => ParseTokens(rest[1..], keys, v)
  {
    assert rest != [] ==> ts[2..] == rest[1..];
  }

  lemma KeyTurn(ts: seq<string>, keys: seq<Key>, forFrames: int, key: Option<Key>)
    requires ts != [] && !SameNoCase(ts[0], "for") && key == ParseKey(ts[0])
    ensures ParseTokens(ts, keys, forFrames) ==
      if |keys| >= MAX_KEYS then TooManyKeys
      else if key.None? then UnknownKey(ts[0])
      else ParseTokens(ts[1..], keys + [key.value], forFrames)
  {
  }

  method PutKey(outKeys: array<Key>, n: nat, key: Key)
    requires n < outKeys.Length
    modifies outKeys
    ensures outKeys[..n + 1] == old(outKeys[..n]) + [key]
  {
    outKeys[n] := key;
  }

  /** parse_key_list */
  method ParseKeyList(buf: array<char>, ghost end: nat, outKeys: array<Key>) returns (r: ParseResult)
    requires StringAt(buf[..], 0, end) && outKeys.Length == MAX_KEYS
    modifies buf, outKeys
    ensures r == ParseArgs(old(buf[..end]))
    ensures r.Parsed? ==> |r.keys| <= MAX_KEYS && outKeys[..|r.keys|] == r.keys
  {
    assert buf[..end] == buf[0..end];
    ghost var ts := Tokens(buf[0..end]);
    ghost var goal := ParseTokens(ts, [], -1);
    var n, forFrames, save := 0, -1, 0;
    while true
      invariant StringAt(buf[..], save, end) && 0 <= n <= MAX_KEYS
      invariant ts == Tokens(buf[save..end]) && ParseTokens(ts, outKeys[..n], forFrames) == goal
      decreases end - save
    {
      var tok;
      tok, save := TakeToken(buf, save, end);
      if tok.None? {
        return Parsed(outKeys[..n], forFrames);
      }
      ghost var rest := ts[1..];
      var isFor := IsFor(tok.value);
      if isFor {
        ForTurn(ts, rest, outKeys[..n], forFrames);
        var count;
        count, save := TakeFrames(buf, save, end);
        if count.NoCount? {
          return MissingFrameCount;
        }
        if count.BadCount? {
          return BadFrameCount(count.tok);
        }
        ts, forFrames := rest[1..], count.frames;
      } else {
        if n >= MAX_KEYS {
          KeyTurn(ts, outKeys[..n], forFrames, ParseKey(tok.value));
          return TooManyKeys;
        }
        var key := ParseKeyToken(tok.value);
        KeyTurn(ts, outKeys[..n], forFrames, key);
        if key.None? {
          return UnknownKey(tok.value);
        }
        PutKey(outKeys, n, key.value);
        ts, n := rest, n + 1;
      }
    }
  }
}
