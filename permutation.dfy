/**
 * The Ascon permutation on the 320-bit state, as five 64-bit words x0..x4.
 *
 * `Round` follows the implementation's hand-scheduled sequence of reassignments;
 * `SpecRound` is the round of the Ascon v1.2 submission (section 2.6) written as
 * its three layers: constant addition, the bit-sliced 5-bit S-box and the linear
 * diffusion layer.  The RoundWord lemmas prove the two equal word by word.
 */
module Permutation {

  /** The five state words. */
  datatype State = State(x0: bv64, x1: bv64, x2: bv64, x3: bv64, x4: bv64)

  /**
   * The implementation's `rotr(u, n)` rotates left by -n, that is to the right
   * by `n`; the model writes it as the built-in `u.RotateRight(n)`.  At each
   * amount the round uses, that rotation is the word shifted right by `n`
   * or'd with the word shifted left by the remaining `64 - n` bits.
   */
  lemma {:induction false} RotrIsRotateRight(u: bv64)
    ensures u.RotateRight(1) == (u >> 1) | (u << 63) && u.RotateRight(5) == (u >> 5) | (u << 59)
    ensures u.RotateRight(7) == (u >> 7) | (u << 57) && u.RotateRight(9) == (u >> 9) | (u << 55)
    ensures u.RotateRight(10) == (u >> 10) | (u << 54) && u.RotateRight(19) == (u >> 19) | (u << 45)
    ensures u.RotateRight(22) == (u >> 22) | (u << 42) && u.RotateRight(34) == (u >> 34) | (u << 30)
    ensures u.RotateRight(39) == (u >> 39) | (u << 25)
  {
  }

  /**
   * One round with round constant `c`, in the order the implementation computes
   * it; each `.RotateRight(k)` is a call `rotr(x, k)` (see RotrIsRotateRight).
   */
  function Round(c: bv64, x0: bv64, x1: bv64, x2: bv64, x3: bv64, x4: bv64): State
  {
    var t0 := x0 ^ x4;
    var t1 := x1;
    var t2 := x2 ^ x1 ^ c;
    var t3 := x3;
    var t4 := x4 ^ x3;
    var x0 := t0 ^ (t2 & !t1);
    var x2 := t2 ^ (t4 & !t3);
    var x4 := t4 ^ (t1 & !t0);
    var x1 := t1 ^ (t3 & !t2);
    var x3 := t3 ^ (t0 & !t4);
    var x1 := x1 ^ x0;
    var t1 := x1;
    var x1 := x1.RotateRight(39);
    var x3 := x3 ^ x2;
    var t2 := x2;
    var x2 := x2.RotateRight(1);
    var t4 := x4;
    var t2 := t2 ^ x2;
    var x2 := x2.RotateRight(5);
    var t3 := x3;
    var t1 := t1 ^ x1;
    var x3 := x3.RotateRight(10);
    var x0 := x0 ^ x4;
    var x4 := x4.RotateRight(7);
    var t3 := t3 ^ x3;
    var x2 := x2 ^ t2;
    var x1 := x1.RotateRight(22);
    var t0 := x0;
    var x2 := !x2;
    var x3 := x3.RotateRight(7);
    var t4 := t4 ^ x4;
    var x4 := x4.RotateRight(34);
    var x3 := x3 ^ t3;
    var x1 := x1 ^ t1;
    var x0 := x0.RotateRight(19);
    var x4 := x4 ^ t4;
    var t0 := t0 ^ x0;
    var x0 := x0.RotateRight(9);
    var x0 := x0 ^ t0;
    State(x0, x1, x2, x3, x4)
  }

  /** A round applied to a whole state. */
  function RoundState(c: bv64, s: State): State
  {
    Round(c, s.x0, s.x1, s.x2, s.x3, s.x4)
  }

  /**
   * The round as the Ascon design describes it, layer by layer:
   *  - constant addition: `c` is xored into x2;
   *  - substitution, bit-sliced over the 64 columns: x0 ^= x4, x4 ^= x3, x2 ^= x1;
   *    then b_i = a_i ^ (!a_(i+1) & a_(i+2)), indices modulo 5; then x1 ^= x0,
   *    x0 ^= x4, x3 ^= x2 and x2 is complemented (xored with all ones);
   *  - linear diffusion: word i becomes x ^ (x >>> r_i) ^ (x >>> r'_i) with the
   *    rotation pairs (19, 28), (61, 39), (1, 6), (10, 17), (7, 41).
   */
  function SpecRound(c: bv64, x0: bv64, x1: bv64, x2: bv64, x3: bv64, x4: bv64): State
  {
    // constant addition
    var a0, a1, a2, a3, a4 := x0, x1, x2 ^ c, x3, x4;
    // substitution layer
    var a0, a1, a2, a3, a4 := a0 ^ a4, a1, a2 ^ a1, a3, a4 ^ a3;
    var b0 := a0 ^ (!a1 & a2);
    var b1 := a1 ^ (!a2 & a3);
    var b2 := a2 ^ (!a3 & a4);
    var b3 := a3 ^ (!a4 & a0);
    var b4 := a4 ^ (!a0 & a1);
    var u0, u1, u2, u3, u4 := b0 ^ b4, b1 ^ b0, b2 ^ 0xFFFF_FFFF_FFFF_FFFF, b3 ^ b2, b4;
    // linear diffusion layer
    State(u0 ^ u0.RotateRight(19) ^ u0.RotateRight(28),
          u1 ^ u1.RotateRight(61) ^ u1.RotateRight(39),
          u2 ^ u2.RotateRight(1) ^ u2.RotateRight(6),
          u3 ^ u3.RotateRight(10) ^ u3.RotateRight(17),
          u4 ^ u4.RotateRight(7) ^ u4.RotateRight(41))
  }

  lemma {:induction false} RoundWord0(c: bv64, x0: bv64, x1: bv64, x2: bv64, x3: bv64, x4: bv64)
    ensures Round(c, x0, x1, x2, x3, x4).x0 == SpecRound(c, x0, x1, x2, x3, x4).x0
  {
  }

  lemma {:induction false} RoundWord1(c: bv64, x0: bv64, x1: bv64, x2: bv64, x3: bv64, x4: bv64)
    ensures Round(c, x0, x1, x2, x3, x4).x1 == SpecRound(c, x0, x1, x2, x3, x4).x1
  {
  }

  lemma {:induction false} RoundWord2(c: bv64, x0: bv64, x1: bv64, x2: bv64, x3: bv64, x4: bv64)
    ensures Round(c, x0, x1, x2, x3, x4).x2 == SpecRound(c, x0, x1, x2, x3, x4).x2
  {
  }

  lemma {:induction false} RoundWord3(c: bv64, x0: bv64, x1: bv64, x2: bv64, x3: bv64, x4: bv64)
    ensures Round(c, x0, x1, x2, x3, x4).x3 == SpecRound(c, x0, x1, x2, x3, x4).x3
  {
  }

  lemma {:induction false} RoundWord4(c: bv64, x0: bv64, x1: bv64, x2: bv64, x3: bv64, x4: bv64)
    ensures Round(c, x0, x1, x2, x3, x4).x4 == SpecRound(c, x0, x1, x2, x3, x4).x4
  {
  }

  /** The scheduled round computes exactly the layered round. */
  lemma {:induction false} RoundIsSpecRound(c: bv64, x0: bv64, x1: bv64, x2: bv64, x3: bv64, x4: bv64)
    ensures Round(c, x0, x1, x2, x3, x4) == SpecRound(c, x0, x1, x2, x3, x4)
  {
    RoundWord0(c, x0, x1, x2, x3, x4);
    RoundWord1(c, x0, x1, x2, x3, x4);
    RoundWord2(c, x0, x1, x2, x3, x4);
    RoundWord3(c, x0, x1, x2, x3, x4);
    RoundWord4(c, x0, x1, x2, x3, x4);
  }

  // ---------------------------------------------------------------------------
  // Permutations of 12 and 6 rounds

  /** The twelve round constants, in the order the 12-round permutation applies them. */
  const RoundConstants: seq<bv64> := [0xF0, 0xE1, 0xD2, 0xC3, 0xB4, 0xA5, 0x96, 0x87, 0x78, 0x69, 0x5A, 0x4B]

  /**
   * Applies `f` once per constant of `cs`, in order: to the first half of the
   * constants, then to the second half.  Halving keeps the rounds out of sight
   * until a proof asks for them; IterateIsFold shows that this is the fold of
   * `f` over the constants one at a time.
   */
  function Iterate(f: (bv64, State) -> State, s: State, cs: seq<bv64>): State
    decreases |cs|
  {
    if |cs| == 0 then s
    else if |cs| == 1 then f(cs[0], s)
    else Iterate(f, Iterate(f, s, cs[..|cs| / 2]), cs[|cs| / 2..])
  }

  /** Applies one round per constant of `cs`, in order. */
  function Permute(s: State, cs: seq<bv64>): State
  {
    Iterate(RoundState, s, cs)
  }

  /** The permutation with 12 rounds: all twelve constants. */
  function P12(s: State): State
  {
    Permute(s, RoundConstants)
  }

  /** The permutation with 6 rounds: the last six constants. */
  function P6(s: State): State
  {
    Permute(s, RoundConstants[6..])
  }

  /** Round constant `i` holds 15 - i in its high nibble and i in its low nibble. */
  lemma {:induction false} RoundConstantsFormula()
    ensures |RoundConstants| == 12
    ensures forall i :: 0 <= i < 12 ==> RoundConstants[i] as int == (15 - i) * 16 + i
  {
  }

  /** `f` applied once per constant, first constant first: the reference that Iterate is proved to compute. */
  function Fold(f: (bv64, State) -> State, s: State, cs: seq<bv64>): State
    decreases |cs|
  {
    if |cs| == 0 then s else Fold(f, f(cs[0], s), cs[1..])
  }

  /** Folding over two sequences in turn is folding over their concatenation. */
  lemma {:induction false} FoldAppend(f: (bv64, State) -> State, s: State, a: seq<bv64>, b: seq<bv64>)
    ensures Fold(f, s, a + b) == Fold(f, Fold(f, s, a), b)
    decreases |a|
  {
    if |a| == 0 {
      assert a + b == b;
    } else {
      FoldAppend(f, f(a[0], s), a[1..], b);
      assert (a + b)[0] == a[0] && (a + b)[1..] == a[1..] + b;
    }
  }

  /** Half of two or more is at least one and less than the whole. */
  lemma {:induction false} HalfBounds(n: nat, m: nat)
    requires n >= 2 && m == n / 2
    ensures 1 <= m < n
  {
  }

  /** Iterate, which splits its constants in halves, applies `f` one constant at a time. */
  lemma {:induction false} IterateIsFold(f: (bv64, State) -> State, s: State, cs: seq<bv64>)
    ensures Iterate(f, s, cs) == Fold(f, s, cs)
    decreases |cs|
  {
    if |cs| == 1 {
      assert cs[1..] == [];
    } else if |cs| >= 2 {
      var m := |cs| / 2;
      HalfBounds(|cs|, m);
      IterateIsFold(f, s, cs[..m]);
      IterateIsFold(f, Iterate(f, s, cs[..m]), cs[m..]);
      FoldAppend(f, s, cs[..m], cs[m..]);
      assert cs[..m] + cs[m..] == cs;
    }
  }

  /**
   * P12 is its first six rounds followed by P6.  With twelve constants this is
   * the split Permute makes itself; IterateIsFold, P12Unrolled and P6Unrolled
   * show that the rounds are the implementation's calls one at a time.
   */
  lemma {:induction false} P12IsSixRoundsThenP6(s: State)
    ensures P12(s) == P6(Permute(s, RoundConstants[..6]))
  {
  }

  /** Six rounds with constants c0, ..., c5, one after the other. */
  function SixRounds(s: State, c0: bv64, c1: bv64, c2: bv64, c3: bv64, c4: bv64, c5: bv64): State
  {
    RoundState(c5, RoundState(c4, RoundState(c3, RoundState(c2, RoundState(c1, RoundState(c0, s))))))
  }

  /** Iterating over two constants applies `f` with each, in order. */
  lemma {:induction false} IterateTwo(f: (bv64, State) -> State, s: State, c0: bv64, c1: bv64)
    ensures Iterate(f, s, [c0, c1]) == f(c1, f(c0, s))
  {
    var cs := [c0, c1];
    assert cs[..1] == [c0] && cs[1..] == [c1];
  }

  /** Iterating over three constants applies `f` with each, in order. */
  lemma {:induction false} IterateThree(f: (bv64, State) -> State, s: State, c0: bv64, c1: bv64, c2: bv64)
    ensures Iterate(f, s, [c0, c1, c2]) == f(c2, f(c1, f(c0, s)))
  {
    var cs := [c0, c1, c2];
    assert cs[..1] == [c0] && cs[1..] == [c1, c2];
    IterateTwo(f, f(c0, s), c1, c2);
  }

  /** Iterating over six constants applies `f` with each, in order. */
  lemma {:induction false} IterateSix(f: (bv64, State) -> State, s: State, c0: bv64, c1: bv64, c2: bv64, c3: bv64, c4: bv64, c5: bv64)
    ensures Iterate(f, s, [c0, c1, c2, c3, c4, c5]) == f(c5, f(c4, f(c3, f(c2, f(c1, f(c0, s))))))
  {
    var cs := [c0, c1, c2, c3, c4, c5];
    assert cs[..3] == [c0, c1, c2] && cs[3..] == [c3, c4, c5];
    IterateThree(f, s, c0, c1, c2);
    IterateThree(f, f(c2, f(c1, f(c0, s))), c3, c4, c5);
  }

  /** P6 is the six calls of the round with constants 0x96 down to 0x4B, in this order. */
  lemma {:induction false} P6Unrolled(s: State)
    ensures P6(s) == SixRounds(s, 0x96, 0x87, 0x78, 0x69, 0x5A, 0x4B)
  {
    assert RoundConstants[6..] == [0x96, 0x87, 0x78, 0x69, 0x5A, 0x4B];
    IterateSix(RoundState, s, 0x96, 0x87, 0x78, 0x69, 0x5A, 0x4B);
  }

  /** P12 is the twelve calls of the round with constants 0xF0 down to 0x4B, in this order. */
  lemma {:induction false} P12Unrolled(s: State)
    ensures P12(s) == SixRounds(SixRounds(s, 0xF0, 0xE1, 0xD2, 0xC3, 0xB4, 0xA5), 0x96, 0x87, 0x78, 0x69, 0x5A, 0x4B)
  {
    assert RoundConstants[..6] == [0xF0, 0xE1, 0xD2, 0xC3, 0xB4, 0xA5];
    IterateSix(RoundState, s, 0xF0, 0xE1, 0xD2, 0xC3, 0xB4, 0xA5);
    P12IsSixRoundsThenP6(s);
    P6Unrolled(SixRounds(s, 0xF0, 0xE1, 0xD2, 0xC3, 0xB4, 0xA5));
  }
}
