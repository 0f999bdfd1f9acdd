/** Small shared vocabulary: an optional value, C's unsigned byte, the subsequence
    relation on value histories, and powers. */
module Common {
  datatype Option<+T> = None | Some(value: T)

  /** uint8_t */
  type Byte = x: int | 0 <= x < 0x100

  const TWO32: int := 0x1_0000_0000
  const TWO64: int := 0x1_0000_0000_0000_0000

  function Last<T>(s: seq<T>): T
    requires s != []
  {
    s[|s| - 1]
  }

  function Init<T>(s: seq<T>): seq<T>
    requires s != []
  {
    s[..|s| - 1]
  }

  /** a can be obtained from b by deleting elements. */
  predicate Subsequence<T(==)>(a: seq<T>, b: seq<T>)
    decreases |b|
  {
    a == [] ||
    (b != [] && ((Last(a) == Last(b) && Subsequence(Init(a), Init(b))) || Subsequence(a, Init(b))))
  }

  lemma {:induction false} SubsequenceOfInit<T>(a: seq<T>, b: seq<T>)
    requires a != [] && Subsequence(a, b)
    ensures Subsequence(Init(a), b)
    decreases |b|
  {
    if !(Last(a) == Last(b) && Subsequence(Init(a), Init(b))) {
      SubsequenceOfInit(a, Init(b));
    } else if Init(a) != [] {
      assert Subsequence(Init(a), Init(b));
    }
  }

  lemma SubsequenceExtend<T>(a: seq<T>, b: seq<T>, x: T)
    requires Subsequence(a, b)
    ensures Subsequence(a, b + [x])
    ensures Subsequence(a + [x], b + [x])
  {
    assert Init(b + [x]) == b;
    assert Init(a + [x]) == a;
  }

  lemma Regroup<T>(x: seq<T>, y: seq<T>, z: seq<T>)
    ensures x + (y + z) == (x + y) + z
  {
  }

  function Power(base: nat, n: nat): (p: nat)
    requires base > 0
    ensures p > 0
  {
    if n == 0 then 1
    else
      PositiveProduct(base, Power(base, n - 1));
      base * Power(base, n - 1)
  }

  lemma PositiveProduct(a: int, b: int)
    requires a > 0 && b > 0
    ensures a * b > 0
  {
  }

  lemma QuotientNotNegative(a: int, b: int)
    requires a >= 0 && b > 0
    ensures a / b >= 0
  {
  }

  lemma QuotientIs(a: int, d: int, q: int, r: int)
    requires d > 0 && 0 <= r < d && a == q * d + r
    ensures a / d == q && a % d == r
  {
    var q', r' := a / d, a % d;
    assert a == q' * d + r';
    assert (q - q') * d == r' - r && (q' - q) * d == r - r';
    if q > q' {
      Multiple(q - q', d);
    } else if q' > q {
      Multiple(q' - q, d);
    }
  }

  lemma Multiple(k: int, d: int)
    requires k >= 1 && d > 0
    ensures k * d >= d
  {
  }

  lemma Increment(x: bv8)
    requires x as int < 0xff
    ensures (x + 1) as int == x as int + 1
  {
  }

  lemma CastOfByte(x: bv8, n: int)
    requires x as int == n
    ensures n as bv8 == x
  {
  }

  lemma {:induction false} ByteValue(b: Byte)
    ensures (b as bv8) as int == b
  {
    if b > 0 {
      ByteValue(b - 1);
      var x := (b - 1) as bv8;
      Increment(x);
      CastOfByte(x + 1, b);
    }
  }
}
