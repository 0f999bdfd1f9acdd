/** The binary way to tap: what it accepts, and its agreement with the text verb. */
module KmBinary {
  import opened Common
  import opened Text
  import opened KeyList
  import opened KmModel
  import opened KmInvariants

  /** uint8_t of an int8_t */
  function Unsigned(n: int): Byte
    requires -0x80 <= n < 0x80
  {
    if n < 0 then n + 0x100 else n
  }

  function PairBytes(keys: seq<Key>): (bytes: seq<Byte>)
    requires forall i :: 0 <= i < |keys| ==> Placed(keys[i])
    ensures |bytes| == 2 * |keys|
  {
    if keys == [] then []
    else
      assert Placed(keys[0]);
      [Unsigned(keys[0].row), Unsigned(keys[0].col)] + PairBytes(keys[1..])
  }

  /** The binary request for the same keys: mode 1 with the frame count if there is
      one, mode 0 without a count if there is none. */
  function TapBody(r: ParseResult): (body: seq<Byte>)
    requires r.Parsed? && |r.keys| <= MAX_KEYS && r.forFrames <= 65535
    requires forall i :: 0 <= i < |r.keys| ==> Placed(r.keys[i])
  {
    var frames := if r.forFrames > 0 then r.forFrames else 0;
    [if frames > 0 then 1 else 0, frames % 0x100, frames / 0x100, |r.keys|] + PairBytes(r.keys)
  }

  function Unnamed(keys: seq<Key>): (us: seq<Key>)
    ensures |us| == |keys|
  {
    if keys == [] then [] else [keys[0].(name := "")] + Unnamed(keys[1..])
  }

  /** The same world but for the names of the held keys. */
  function WithoutNames(w: World): World {
    w.(km := w.km.(keys := Unnamed(w.km.keys)))
  }

  lemma {:induction false} PairBytesRoundTrip(keys: seq<Key>)
    requires forall i :: 0 <= i < |keys| ==> Placed(keys[i])
    ensures Unnamed(BinKeys(PairBytes(keys))) == Unnamed(keys)
  {
    if keys != [] {
      assert Placed(keys[0]);
      PairBytesRoundTrip(keys[1..]);
      var bytes := PairBytes(keys);
      assert bytes[2..] == PairBytes(keys[1..]);
      assert BinKeys(bytes)[1..] == BinKeys(bytes[2..]);
    }
  }

  lemma {:induction false} UnnamedPlaces(keys: seq<Key>)
    ensures Places(Unnamed(keys)) == Places(keys)
  {
    if keys != [] {
      UnnamedPlaces(keys[1..]);
      assert keys == [keys[0]] + keys[1..];
      assert Places(keys) == {(keys[0].row, keys[0].col)} + Places(keys[1..]);
      assert Places(Unnamed(keys)) == {(keys[0].row, keys[0].col)} + Places(Unnamed(keys[1..]));
    }
  }

  lemma ActivateUpToNames(w: World, a: Activation, b: Activation)
    requires a.mode == b.mode && a.frames == b.frames && Unnamed(a.keys) == Unnamed(b.keys)
    ensures WithoutNames(Activate(w, a)) == WithoutNames(Activate(w, b))
  {
    UnnamedPlaces(a.keys);
    UnnamedPlaces(b.keys);
  }

  lemma BodyIsRequest(r: ParseResult)
    requires r.Parsed? && 1 <= |r.keys| <= MAX_KEYS && r.forFrames <= 65535
    requires forall i :: 0 <= i < |r.keys| ==> Placed(r.keys[i])
    ensures var q := BinTapRequest(TapBody(r));
      && q.Some? && Unnamed(q.value.keys) == Unnamed(r.keys)
      && q.value.mode == (if r.forFrames > 0 then TapFixed else TapObserved)
      && q.value.frames == (if r.forFrames > 0 then r.forFrames else DEFAULT_TIMEOUT_FRAMES)
  {
    var body := TapBody(r);
    assert body[4..4 + 2 * body[3]] == PairBytes(r.keys);
    PairBytesRoundTrip(r.keys);
  }

  /** From any state, a text tap and the binary tap of the same keys and frame
      count reach the same injector and host state, up to the names of the keys. */
  lemma TextAndBinaryAgree(w: World, args: Option<CString>)
    requires AcceptedList(args).Some?
    ensures var r := AcceptedList(args).value;
      && r.Parsed? && |r.keys| <= MAX_KEYS && r.forFrames <= 65535
      && (forall i :: 0 <= i < |r.keys| ==> Placed(r.keys[i]))
      && WithoutNames(Step(w, Tap(args))) == WithoutNames(Step(w, BinTap(TapBody(r))))
  {
    AcceptedListGood(args);
    var r := AcceptedList(args).value;
    assert forall i :: 0 <= i < |r.keys| ==> r.keys[i] in r.keys;
    BodyIsRequest(r);
    ActivateUpToNames(w, TapRequest(args).value, BinTapRequest(TapBody(r)).value);
  }

  // ---- Positions ----------------------------------------------------------------

  /** The bytes name a position the text parser would accept too. */
  predicate PlacedBytes(row: Byte, col: Byte) {
    (row <= 15 || row >= 0xf8) && col <= 7
  }

  lemma BinKeyPlaced(row: Byte, col: Byte)
    ensures Placed(BinKey(row, col)) <==> PlacedBytes(row, col)
  {
  }

  lemma {:induction false} BinKeyAt(body: seq<Byte>, i: nat)
    requires 2 * i + 1 < |body|
    ensures BinKeys(body)[i] == BinKey(body[2 * i], body[2 * i + 1])
    decreases i
  {
    if i > 0 {
      BinKeyAt(body[2..], i - 1);
    }
  }

  predicate PairPlaced(body: seq<Byte>, i: nat)
    requires 5 + 2 * i < |body|
  {
    PlacedBytes(body[4 + 2 * i], body[5 + 2 * i])
  }

  lemma KeyOfPair(body: seq<Byte>, i: nat)
    requires BinTapRequest(body).Some? && i < body[3]
    ensures Placed(BinTapRequest(body).value.keys[i]) <==> PairPlaced(body, i)
  {
    var pairs := body[4..4 + 2 * body[3]];
    BinKeyAt(pairs, i);
    assert pairs[2 * i] == body[4 + 2 * i] && pairs[2 * i + 1] == body[5 + 2 * i];
    BinKeyPlaced(body[4 + 2 * i], body[5 + 2 * i]);
  }

  /** The binary tap takes any signed byte for a row or column; the keys it presses
      are all where the text parser allows them exactly if every pair is. */
  lemma BinaryPositions(body: seq<Byte>, keys: seq<Key>)
    requires BinTapRequest(body).Some? && keys == BinTapRequest(body).value.keys
    ensures |keys| == body[3]
    ensures (forall i :: 0 <= i < |keys| ==> Placed(keys[i])) <==> (forall i :: 0 <= i < |keys| ==> PairPlaced(body, i))
  {
    forall i | 0 <= i < |keys| ensures Placed(keys[i]) <==> PairPlaced(body, i) {
      KeyOfPair(body, i);
    }
  }
}
