/** Polynomials over GF(2) as coefficient lists, highest degree first, and long
    division by the generator of IEEE Std 802.3-2018, clause 3.2.9. */
module Gf2 {
  import opened Common

  type Poly = seq<bool>

  const DEGREE := 32

  function Xor(a: Poly, b: Poly): (c: Poly)
    requires |a| == |b|
    ensures |c| == |a| && forall i :: 0 <= i < |a| ==> c[i] == (a[i] != b[i])
  {
    seq(|a|, i requires 0 <= i < |a| => a[i] != b[i])
  }

  function Fill(v: bool, n: nat): (c: Poly)
    ensures |c| == n && forall i :: 0 <= i < n ==> c[i] == v
  {
    seq(n, _ => v)
  }

  function Zeros(n: nat): (c: Poly)
    ensures |c| == n && forall i :: 0 <= i < n ==> !c[i]
  {
    Fill(false, n)
  }

  /** x^e is a term of the generator, for e below its degree. */
  predicate HasTerm(e: int) {
    e == 26 || e == 23 || e == 22 || e == 16 || e == 12 || e == 11 || e == 10 ||
    e == 8 || e == 7 || e == 5 || e == 4 || e == 2 || e == 1 || e == 0
  }

  /** The generator without its leading term. */
  function Tail(): (c: Poly)
    ensures |c| == DEGREE && forall i :: 0 <= i < DEGREE ==> c[i] == HasTerm(31 - i)
  {
    seq(DEGREE, i => HasTerm(31 - i))
  }

  /** The generator if b is set, shifted up by n places. */
  function Lead(b: bool, n: nat): (c: Poly)
    ensures |c| == n + DEGREE + 1
  {
    (if b then [true] + Tail() else Zeros(DEGREE + 1)) + Zeros(n)
  }

  /** q times the generator. */
  function Times(q: Poly): (c: Poly)
    ensures |c| == |q| + DEGREE
  {
    if q == [] then Zeros(DEGREE)
    else Xor(Lead(q[0], |q| - 1), [false] + Times(q[1..]))
  }

  /** d is a multiple of the generator plus r. */
  ghost predicate IsRemainder(d: Poly, r: Poly) {
    |r| == DEGREE && |d| >= DEGREE &&
    exists q: Poly :: |q| == |d| - DEGREE && Sum(q, r) == d
  }

  /** q times the generator, plus r. */
  function Sum(q: Poly, r: Poly): (c: Poly)
    requires |r| == DEGREE
    ensures |c| == |q| + DEGREE
  {
    Xor(Times(q), Zeros(|q|) + r)
  }

  // ---- Division is unique -----------------------------------------------------

  lemma {:induction false} QuotientAndRemainderUnique(q: Poly, r: Poly, q': Poly, r': Poly)
    requires |q| == |q'| && |r| == |r'| == DEGREE && Sum(q, r) == Sum(q', r')
    ensures q == q' && r == r'
  {
    if q == [] {
      SumOfNone(r);
      SumOfNone(r');
    } else {
      SumRest(q, r, q', r');
      QuotientAndRemainderUnique(q[1..], r, q'[1..], r');
      assert q == [q[0]] + q[1..] && q' == [q'[0]] + q'[1..];
    }
  }

  lemma SumOfNone(r: Poly)
    requires |r| == DEGREE
    ensures Sum([], r) == r
  {
    assert Times([]) == Zeros(DEGREE);
  }

  lemma SumRest(q: Poly, r: Poly, q': Poly, r': Poly)
    requires |q| == |q'| > 0 && |r| == |r'| == DEGREE && Sum(q, r) == Sum(q', r')
    ensures q[0] == q'[0] && Sum(q[1..], r) == Sum(q'[1..], r')
  {
    SumFirst(q, r);
    SumFirst(q', r');
    var s, s', rest, rest' := Sum(q, r), Sum(q', r'), Sum(q[1..], r), Sum(q'[1..], r');
    forall i | 0 <= i < |rest| ensures rest[i] == rest'[i] {
      assert s[i + 1] == s'[i + 1];
    }
  }

  /** The leading coefficient of the product decides the rest. */
  lemma SumFirst(q: Poly, r: Poly)
    requires q != [] && |r| == DEGREE
    ensures Sum(q, r)[0] == q[0]
    ensures var lead := Lead(q[0], |q| - 1);
      forall i :: 0 <= i < |q| - 1 + DEGREE ==> Sum(q, r)[i + 1] == (lead[i + 1] != Sum(q[1..], r)[i])
  {
    var lead, t := Lead(q[0], |q| - 1), Times(q[1..]);
    assert Times(q)[0] == lead[0];
    forall i | 0 <= i < |t| ensures Sum(q, r)[i + 1] == (lead[i + 1] != Sum(q[1..], r)[i]) {
      assert Times(q)[i + 1] == (lead[i + 1] != t[i]);
      assert (Zeros(|q|) + r)[i + 1] == (Zeros(|q| - 1) + r)[i];
    }
  }

  lemma RemainderUnique(d: Poly, r: Poly, r': Poly)
    requires IsRemainder(d, r) && IsRemainder(d, r')
    ensures r == r'
  {
    var q: Poly :| |q| == |d| - DEGREE && Sum(q, r) == d;
    var q': Poly :| |q'| == |d| - DEGREE && Sum(q', r') == d;
    QuotientAndRemainderUnique(q, r, q', r');
  }

  // ---- The shift register -------------------------------------------------------

  /** Feed one coefficient: multiply by x, add the coefficient at x^32, reduce. */
  function Feed(r: Poly, b: bool): (r': Poly)
    requires |r| == DEGREE
    ensures |r'| == DEGREE
  {
    Xor(r[1..] + [false], if r[0] != b then Tail() else Zeros(DEGREE))
  }

  function Run(r: Poly, bits: Poly): (r': Poly)
    requires |r| == DEGREE
    ensures |r'| == DEGREE
    decreases |bits|, r
  {
    if bits == [] then r else Run(Feed(r, bits[0]), bits[1..])
  }

  lemma {:induction false} RunSplit(r: Poly, u: Poly, v: Poly)
    requires |r| == DEGREE
    ensures Run(r, u + v) == Run(Run(r, u), v)
    decreases |u|
  {
    if u == [] {
      assert u + v == v;
    } else {
      assert (u + v)[1..] == u[1..] + v;
      RunSplit(Feed(r, u[0]), u[1..], v);
    }
  }

  /** The message shifted up by 32 places, with the register's initial contents
      added to its leading coefficients. */
  function Dividend(r: Poly, bits: Poly): (d: Poly)
    requires |r| == DEGREE
    ensures |d| == |bits| + DEGREE
  {
    Xor(bits + Zeros(DEGREE), r + Zeros(|bits|))
  }

  lemma {:induction false} TimesSnoc(q: Poly, b: bool)
    ensures Times(q + [b]) == Xor(Times(q) + [false], Zeros(|q|) + Lead(b, 0))
  {
    if q == [] {
      TimesOne(b);
      assert q + [b] == [b];
    } else {
      TimesSnoc(q[1..], b);
      assert (q + [b])[1..] == q[1..] + [b];
      assert Times(q + [b]) == Xor(Lead(q[0], |q|), [false] + Times(q[1..] + [b]));
      TimesSnocStep(Times(q[1..]), q[0], |q| - 1, b);
    }
  }

  lemma TimesOne(b: bool)
    ensures Times([b]) == Xor(Times([]) + [false], Zeros(0) + Lead(b, 0))
  {
    assert [b][1..] == [];
  }

  lemma TimesSnocStep(t: Poly, a: bool, n: nat, b: bool)
    requires |t| == n + DEGREE
    ensures Xor(Lead(a, n + 1), [false] + Xor(t + [false], Zeros(n) + Lead(b, 0)))
      == Xor(Xor(Lead(a, n), [false] + t) + [false], Zeros(n + 1) + Lead(b, 0))
  {
  }

  /** The register always holds the remainder of what it has been fed. */
  lemma {:induction false} RunDivides(r: Poly, bits: Poly) returns (q: Poly)
    requires |r| == DEGREE
    ensures |q| == |bits| && Sum(q, Run(r, bits)) == Dividend(r, bits)
  {
    if bits == [] {
      q := [];
      SumOfNone(r);
      assert Dividend(r, []) == r;
    } else {
      var u, b := Init(bits), Last(bits);
      assert bits == u + [b];
      q := RunDivides(r, u);
      RunSplit(r, u, [b]);
      var s := Run(r, u);
      assert Run(s, [b]) == Feed(s, b);
      DivideStep(r, u, b, q, s);
      q := q + [s[0] != b];
    }
  }

  lemma DivideStep(r: Poly, u: Poly, b: bool, q: Poly, s: Poly)
    requires |r| == |s| == DEGREE && |q| == |u| && Sum(q, s) == Dividend(r, u)
    ensures Sum(q + [s[0] != b], Feed(s, b)) == Dividend(r, u + [b])
  {
    TimesSnoc(q, s[0] != b);
    FeedStep(Times(q), s, b, |q|);
    DividendSnoc(r, u, b);
  }

  lemma DividendSnoc(r: Poly, u: Poly, b: bool)
    requires |r| == DEGREE
    ensures Dividend(r, u + [b]) == Xor(Dividend(r, u) + [false], Zeros(|u|) + ([b] + Zeros(DEGREE)))
  {
  }

  lemma FeedStep(t: Poly, s: Poly, b: bool, n: nat)
    requires |s| == DEGREE && |t| == n + DEGREE
    ensures Xor(Xor(t + [false], Zeros(n) + Lead(s[0] != b, 0)), Zeros(n + 1) + Feed(s, b))
      == Xor(Xor(t, Zeros(n) + s) + [false], Zeros(n) + ([b] + Zeros(DEGREE)))
  {
  }

  /** The register's contents, and nothing else, is the remainder. */
  lemma RunIsTheRemainder(r: Poly, bits: Poly, rem: Poly)
    requires |r| == DEGREE
    ensures IsRemainder(Dividend(r, bits), rem) <==> rem == Run(r, bits)
  {
    var q := RunDivides(r, bits);
    assert IsRemainder(Dividend(r, bits), Run(r, bits));
    if IsRemainder(Dividend(r, bits), rem) {
      RemainderUnique(Dividend(r, bits), rem, Run(r, bits));
    }
  }

  // ---- Linearity, injectivity and bursts ------------------------------------------

  lemma FeedLinear(r: Poly, s: Poly, b: bool, c: bool)
    requires |r| == |s| == DEGREE
    ensures Feed(Xor(r, s), b != c) == Xor(Feed(r, b), Feed(s, c))
  {
  }

  lemma {:induction false} RunLinear(r: Poly, s: Poly, u: Poly, v: Poly)
    requires |r| == |s| == DEGREE && |u| == |v|
    ensures Run(Xor(r, s), Xor(u, v)) == Xor(Run(r, u), Run(s, v))
    decreases |u|
  {
    if u != [] {
      FeedLinear(r, s, u[0], v[0]);
      assert Xor(u, v)[1..] == Xor(u[1..], v[1..]);
      RunLinear(Feed(r, u[0]), Feed(s, v[0]), u[1..], v[1..]);
    }
  }

  /** The constant term of the generator is 1, so a step can be undone. */
  lemma FeedInjective(r: Poly, s: Poly, b: bool, c: bool)
    requires |r| == |s| == DEGREE && Feed(r, b) == Feed(s, c)
    ensures r[1..] == s[1..] && (r[0] != b) == (s[0] != c)
  {
    var x, y := Feed(r, b), Feed(s, c);
    assert x[31] == y[31];
    forall k | 1 <= k < DEGREE ensures r[k] == s[k] {
      assert x[k - 1] == y[k - 1];
    }
  }

  /** If two registers agree after equally many bits, at most 32, they differed
      exactly where those bits did. */
  lemma {:induction false} RunTracesBack(r: Poly, s: Poly, u: Poly, v: Poly)
    requires |r| == |s| == DEGREE && |u| == |v| <= DEGREE && Run(r, u) == Run(s, v)
    ensures Xor(r, s) == Xor(u, v) + Zeros(DEGREE - |u|)
    decreases |u|
  {
    if u == [] {
    } else {
      var r', s' := Feed(r, u[0]), Feed(s, v[0]);
      RunTracesBack(r', s', u[1..], v[1..]);
      FeedTracesBack(r, s, u, v);
    }
  }

  lemma FeedTracesBack(r: Poly, s: Poly, u: Poly, v: Poly)
    requires |r| == |s| == DEGREE && 0 < |u| == |v| <= DEGREE
    requires Xor(Feed(r, u[0]), Feed(s, v[0])) == Xor(u[1..], v[1..]) + Zeros(DEGREE + 1 - |u|)
    ensures Xor(r, s) == Xor(u, v) + Zeros(DEGREE - |u|)
  {
    SameReduction(r, s, u[0], v[0]);
    PadRest(u, v);
    assert Xor(r, s)[0] == (u[0] != v[0]);
  }

  lemma PadRest(u: Poly, v: Poly)
    requires 0 < |u| == |v| <= DEGREE
    ensures var e, w := Xor(u[1..], v[1..]) + Zeros(DEGREE + 1 - |u|), Xor(u, v) + Zeros(DEGREE - |u|);
      && !e[31] && w[0] == (u[0] != v[0])
      && (forall k :: 1 <= k < DEGREE ==> w[k] == e[k - 1])
  {
  }

  /** The last coefficient tells whether both registers were reduced alike. */
  lemma SameReduction(r: Poly, s: Poly, b: bool, c: bool)
    requires |r| == |s| == DEGREE
    ensures var d := Xor(Feed(r, b), Feed(s, c));
      && (d[31] <==> (r[0] != b) != (s[0] != c))
      && (!d[31] ==> forall k :: 1 <= k < DEGREE ==> (r[k] != s[k]) == d[k - 1])
  {
  }

  lemma {:induction false} RunInjective(r: Poly, s: Poly, w: Poly)
    requires |r| == |s| == DEGREE && Run(r, w) == Run(s, w)
    ensures r == s
    decreases |w|
  {
    if w != [] {
      RunInjective(Feed(r, w[0]), Feed(s, w[0]), w[1..]);
      FeedInjective(r, s, w[0], w[0]);
      assert r == [r[0]] + r[1..] && s == [s[0]] + s[1..];
    }
  }

  lemma BitsRecovered(s: Poly, u: Poly, v: Poly)
    requires |s| == DEGREE && |u| == |v| <= DEGREE && Run(s, u) == Run(s, v)
    ensures u == v
  {
    RunTracesBack(s, s, u, v);
    forall i | 0 <= i < |u| ensures u[i] == v[i] {
      assert Xor(s, s)[i] == (Xor(u, v) + Zeros(DEGREE - |u|))[i];
    }
  }

  /** Streams that differ, but only inside one window of 32 bits, leave different
      remainders. */
  lemma BurstChangesRemainder(r: Poly, before: Poly, u: Poly, v: Poly, after: Poly)
    requires |r| == DEGREE && |u| == |v| <= DEGREE && u != v
    ensures Run(r, before + u + after) != Run(r, before + v + after)
  {
    RunSplit(r, before + u, after);
    RunSplit(r, before + v, after);
    RunSplit(r, before, u);
    RunSplit(r, before, v);
    var s := Run(r, before);
    if Run(Run(s, u), after) == Run(Run(s, v), after) {
      RunInjective(Run(s, u), Run(s, v), after);
      BitsRecovered(s, u, v);
    }
  }

  /** Feeding bits one at a time is adding them to the register up front. */
  lemma {:induction false} RunIsShiftOfSum(r: Poly, u: Poly)
    requires |r| == DEGREE && |u| <= DEGREE
    ensures Run(r, u) == Run(Xor(r, u + Zeros(DEGREE - |u|)), Zeros(|u|))
    decreases |u|
  {
    if u == [] {
      assert Xor(r, Zeros(DEGREE)) == r;
    } else {
      var sum := Xor(r, u + Zeros(DEGREE - |u|));
      FeedZeros(sum, |u|);
      FeedOfSum(r, u);
      RunIsShiftOfSum(Feed(r, u[0]), u[1..]);
    }
  }

  lemma FeedZeros(r: Poly, n: nat)
    requires |r| == DEGREE && n > 0
    ensures Run(r, Zeros(n)) == Run(Feed(r, false), Zeros(n - 1))
  {
    assert Zeros(n)[1..] == Zeros(n - 1);
  }

  lemma FeedOfSum(r: Poly, u: Poly)
    requires |r| == DEGREE && 0 < |u| <= DEGREE
    ensures Feed(Xor(r, u + Zeros(DEGREE - |u|)), false) == Xor(Feed(r, u[0]), u[1..] + Zeros(DEGREE + 1 - |u|))
  {
  }

  /** Feeding a register its own complement leaves what all ones shift to. */
  lemma RunOwnComplement(r: Poly, ones: Poly)
    requires |r| == DEGREE && ones == Fill(true, |r|)
    ensures Run(r, Xor(r, ones)) == Run(ones, Zeros(|r|))
  {
    var u := Xor(r, ones);
    RunIsShiftOfSum(r, u);
    assert Xor(r, u + Zeros(DEGREE - |u|)) == ones;
  }
}
