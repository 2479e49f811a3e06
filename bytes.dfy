/**
 * Byte lanes and big-endian packing of 64-bit words.
 *
 * A word is read as eight byte lanes, big-endian: lane 0 is the most
 * significant byte, lane 7 the least significant one.  The sponge absorbs and
 * squeezes the rate word x0 through these lanes, eight bytes at a time for
 * whole blocks (Extract64, Insert64) and one byte at a time for the last,
 * partial block (InsertByte, ExtractByte).
 *
 * The lane lemmas say what each word operation does to every lane.  Each is
 * proved lane by lane: a dispatcher calls the instance for the literal lane,
 * where the shifts are constants.
 */
module Bytes {

  type byte = bv8

  /**
   * The word holding `b` in lane `n` and zero elsewhere: `b` shifted left by
   * 8 * (7 - n) bits, the shift written out per lane.
   */
  function InsertByte(b: byte, n: nat): bv64
    requires n < 8
  {
    var w := b as bv64;
    match n
    case 0 => w << 56
    case 1 => w << 48
    case 2 => w << 40
    case 3 => w << 32
    case 4 => w << 24
    case 5 => w << 16
    case 6 => w << 8
    case _ => w
  }

  /**
   * Lane `n` of `u`: the word shifted right by 8 * (7 - n) bits and truncated
   * to its low eight bits, as a conversion to byte does.
   */
  function ExtractByte(u: bv64, n: nat): byte
    requires n < 8
  {
    var w := match n
      case 0 => u >> 56
      case 1 => u >> 48
      case 2 => u >> 40
      case 3 => u >> 32
      case 4 => u >> 24
      case 5 => u >> 16
      case 6 => u >> 8
      case _ => u;
    (w & 0xFF) as byte
  }

  /** `u` with lane `n` cleared and then set to `b`: an and-not with the lane mask, then an or. */
  function SetByte(u: bv64, b: byte, n: nat): bv64
    requires n < 8
  {
    (u & !InsertByte(0xFF, n)) | InsertByte(b, n)
  }

  /** The big-endian reading of the first eight bytes of `b`. */
  function Extract64(b: seq<byte>): bv64
    requires |b| >= 8
  {
    ((b[0] as bv64) << 56) | ((b[1] as bv64) << 48) | ((b[2] as bv64) << 40) | ((b[3] as bv64) << 32) |
    ((b[4] as bv64) << 24) | ((b[5] as bv64) << 16) | ((b[6] as bv64) << 8) | (b[7] as bv64)
  }

  /** The eight bytes that a big-endian write of `u` stores, lane 0 first. */
  function Insert64(u: bv64): (b: seq<byte>)
    ensures |b| == 8
  {
    [ExtractByte(u, 0), ExtractByte(u, 1), ExtractByte(u, 2), ExtractByte(u, 3),
     ExtractByte(u, 4), ExtractByte(u, 5), ExtractByte(u, 6), ExtractByte(u, 7)]
  }

  /**
   * `dst` followed by the big-endian bytes of `u`: the prefix is kept and the
   * eight new bytes read back as `u`.
   */
  function Append64(dst: seq<byte>, u: bv64): (r: seq<byte>)
    ensures |r| == |dst| + 8
    ensures r[..|dst|] == dst
    ensures Extract64(r[|dst|..]) == u
  {
    var r := dst + Insert64(u);
    assert r[|dst|..] == Insert64(u);
    PackUnpack(u);
    r
  }

  /** `n` zero bytes. */
  function Zeros(n: nat): (z: seq<byte>)
    ensures |z| == n
    ensures forall i :: 0 <= i < n ==> z[i] == 0
  {
    seq(n, i => 0)
  }

  /**
   * The exclusive or of two words.  The sponge xors whole words into the state
   * through this function, so that equal arguments give equal results by name.
   */
  function Xor64(a: bv64, b: bv64): bv64
  {
    a ^ b
  }

  /** The byte-wise exclusive or of two sequences of the same length. */
  function XorBytes(a: seq<byte>, b: seq<byte>): (r: seq<byte>)
    requires |a| == |b|
    ensures |r| == |a|
    ensures forall i :: 0 <= i < |a| ==> r[i] == a[i] ^ b[i]
  {
    seq(|a|, i requires 0 <= i < |a| => a[i] ^ b[i])
  }

  /** Appending is associative; stated for the accumulators of the block loops. */
  lemma {:induction false} AppendAssoc(a: seq<byte>, b: seq<byte>, c: seq<byte>)
    ensures (a + b) + c == a + (b + c)
  {
  }

  /** Xoring the same bytes twice gives back the original bytes. */
  lemma {:induction false} XorBytesCancel(a: seq<byte>, b: seq<byte>)
    requires |a| == |b|
    ensures XorBytes(a, XorBytes(a, b)) == b
  {
    var r := XorBytes(a, XorBytes(a, b));
    forall i | 0 <= i < |b|
      ensures r[i] == b[i]
    {
      XorTwice(a[i], b[i]);
    }
  }

  /** Xoring from position `i` on: the first byte, then the rest. */
  lemma {:induction false} XorBytesCons(a: seq<byte>, b: seq<byte>, i: nat)
    requires |a| == |b| && i < |a|
    ensures XorBytes(a[i..], b[i..]) == [a[i] ^ b[i]] + XorBytes(a[i + 1..], b[i + 1..])
  {
    var l, r := XorBytes(a[i..], b[i..]), [a[i] ^ b[i]] + XorBytes(a[i + 1..], b[i + 1..]);
    assert |l| == |r|;
    forall k | 0 <= k < |l|
      ensures l[k] == r[k]
    {
      if k > 0 {
        assert r[k] == XorBytes(a[i + 1..], b[i + 1..])[k - 1];
      }
    }
  }

  /** Xoring a byte twice with the same key byte gives the byte back. */
  lemma {:induction false} XorTwice(k: byte, x: byte)
    ensures k ^ (k ^ x) == x
  {
  }

  /** The same cancellation on words. */
  lemma {:induction false} XorCancel64(k: bv64, x: bv64)
    ensures Xor64(k, Xor64(k, x)) == x
  {
  }

  // ---------------------------------------------------------------------------
  // Packing and unpacking

  /** Writing a word out and reading it back gives the word. */
  lemma {:induction false} PackUnpack(u: bv64)
    ensures Extract64(Insert64(u)) == u
  {
  }

  /** Reading eight bytes as a word and writing it out gives the bytes. */
  lemma {:induction false} UnpackPack(b: seq<byte>)
    requires |b| >= 8
    ensures Insert64(Extract64(b)) == b[..8]
  {
  }

  /** Byte `k` written for `u` is lane `k` of `u`. */
  lemma {:induction false} Insert64At(u: bv64, k: nat)
    requires k < 8
    ensures Insert64(u)[k] == ExtractByte(u, k)
  {
  }

  /** Two words that agree in all eight lanes are equal. */
  lemma {:induction false} WordExtensionality(u: bv64, v: bv64)
    requires forall k :: 0 <= k < 8 ==> ExtractByte(u, k) == ExtractByte(v, k)
    ensures u == v
  {
    assert ExtractByte(u, 0) == ExtractByte(v, 0);
    assert ExtractByte(u, 1) == ExtractByte(v, 1);
    assert ExtractByte(u, 2) == ExtractByte(v, 2);
    assert ExtractByte(u, 3) == ExtractByte(v, 3);
    assert ExtractByte(u, 4) == ExtractByte(v, 4);
    assert ExtractByte(u, 5) == ExtractByte(v, 5);
    assert ExtractByte(u, 6) == ExtractByte(v, 6);
    assert ExtractByte(u, 7) == ExtractByte(v, 7);
  }

  // ---------------------------------------------------------------------------
  // What word operations do to each lane

  /** Lane `n` of an exclusive or is the exclusive or of the lanes. */
  lemma {:induction false} ExtractByteXor(u: bv64, v: bv64, n: nat)
    requires n < 8
    ensures ExtractByte(Xor64(u, v), n) == ExtractByte(u, n) ^ ExtractByte(v, n)
  {
    if n == 0 { ExtractByteXorAt0(u, v); }
    else if n == 1 { ExtractByteXorAt1(u, v); }
    else if n == 2 { ExtractByteXorAt2(u, v); }
    else if n == 3 { ExtractByteXorAt3(u, v); }
    else if n == 4 { ExtractByteXorAt4(u, v); }
    else if n == 5 { ExtractByteXorAt5(u, v); }
    else if n == 6 { ExtractByteXorAt6(u, v); }
    else { ExtractByteXorAt7(u, v); }
  }

  lemma {:induction false} ExtractByteXorAt0(u: bv64, v: bv64)
    ensures ExtractByte(u ^ v, 0) == ExtractByte(u, 0) ^ ExtractByte(v, 0)
  {
  }

  lemma {:induction false} ExtractByteXorAt1(u: bv64, v: bv64)
    ensures ExtractByte(u ^ v, 1) == ExtractByte(u, 1) ^ ExtractByte(v, 1)
  {
  }

  lemma {:induction false} ExtractByteXorAt2(u: bv64, v: bv64)
    ensures ExtractByte(u ^ v, 2) == ExtractByte(u, 2) ^ ExtractByte(v, 2)
  {
  }

  lemma {:induction false} ExtractByteXorAt3(u: bv64, v: bv64)
    ensures ExtractByte(u ^ v, 3) == ExtractByte(u, 3) ^ ExtractByte(v, 3)
  {
  }

  lemma {:induction false} ExtractByteXorAt4(u: bv64, v: bv64)
    ensures ExtractByte(u ^ v, 4) == ExtractByte(u, 4) ^ ExtractByte(v, 4)
  {
  }

  lemma {:induction false} ExtractByteXorAt5(u: bv64, v: bv64)
    ensures ExtractByte(u ^ v, 5) == ExtractByte(u, 5) ^ ExtractByte(v, 5)
  {
  }

  lemma {:induction false} ExtractByteXorAt6(u: bv64, v: bv64)
    ensures ExtractByte(u ^ v, 6) == ExtractByte(u, 6) ^ ExtractByte(v, 6)
  {
  }

  lemma {:induction false} ExtractByteXorAt7(u: bv64, v: bv64)
    ensures ExtractByte(u ^ v, 7) == ExtractByte(u, 7) ^ ExtractByte(v, 7)
  {
  }

  /** A byte inserted at lane `n` reads back from lane `n`; every other lane is zero. */
  lemma {:induction false} ExtractInsertByte(b: byte, n: nat, m: nat)
    requires n < 8 && m < 8
    ensures ExtractByte(InsertByte(b, n), m) == if m == n then b else 0
  {
    if n == 0 { ExtractInsertByteAt0(b, m); }
    else if n == 1 { ExtractInsertByteAt1(b, m); }
    else if n == 2 { ExtractInsertByteAt2(b, m); }
    else if n == 3 { ExtractInsertByteAt3(b, m); }
    else if n == 4 { ExtractInsertByteAt4(b, m); }
    else if n == 5 { ExtractInsertByteAt5(b, m); }
    else if n == 6 { ExtractInsertByteAt6(b, m); }
    else { ExtractInsertByteAt7(b, m); }
  }

  lemma {:induction false} ExtractInsertByteAt0(b: byte, m: nat)
    requires m < 8
    ensures ExtractByte(InsertByte(b, 0), m) == if m == 0 then b else 0
  {
  }

  lemma {:induction false} ExtractInsertByteAt1(b: byte, m: nat)
    requires m < 8
    ensures ExtractByte(InsertByte(b, 1), m) == if m == 1 then b else 0
  {
  }

  lemma {:induction false} ExtractInsertByteAt2(b: byte, m: nat)
    requires m < 8
    ensures ExtractByte(InsertByte(b, 2), m) == if m == 2 then b else 0
  {
  }

  lemma {:induction false} ExtractInsertByteAt3(b: byte, m: nat)
    requires m < 8
    ensures ExtractByte(InsertByte(b, 3), m) == if m == 3 then b else 0
  {
  }

  lemma {:induction false} ExtractInsertByteAt4(b: byte, m: nat)
    requires m < 8
    ensures ExtractByte(InsertByte(b, 4), m) == if m == 4 then b else 0
  {
  }

  lemma {:induction false} ExtractInsertByteAt5(b: byte, m: nat)
    requires m < 8
    ensures ExtractByte(InsertByte(b, 5), m) == if m == 5 then b else 0
  {
  }

  lemma {:induction false} ExtractInsertByteAt6(b: byte, m: nat)
    requires m < 8
    ensures ExtractByte(InsertByte(b, 6), m) == if m == 6 then b else 0
  {
  }

  lemma {:induction false} ExtractInsertByteAt7(b: byte, m: nat)
    requires m < 8
    ensures ExtractByte(InsertByte(b, 7), m) == if m == 7 then b else 0
  {
  }

  /** Clearing lane `n` (and-not with a lane of ones) and or-ing in `b` sets lane `n` to `b` and keeps the others. */
  lemma {:induction false} ExtractClearSet(u: bv64, b: byte, n: nat, m: nat)
    requires n < 8 && m < 8
    ensures ExtractByte(SetByte(u, b, n), m) == if m == n then b else ExtractByte(u, m)
  {
    if n == 0 { ExtractClearSetAt0(u, b, m); }
    else if n == 1 { ExtractClearSetAt1(u, b, m); }
    else if n == 2 { ExtractClearSetAt2(u, b, m); }
    else if n == 3 { ExtractClearSetAt3(u, b, m); }
    else if n == 4 { ExtractClearSetAt4(u, b, m); }
    else if n == 5 { ExtractClearSetAt5(u, b, m); }
    else if n == 6 { ExtractClearSetAt6(u, b, m); }
    else { ExtractClearSetAt7(u, b, m); }
  }
  /** ExtractClearSet for all lanes at once, for `v` equal to `u` with lane `n` set to `b`. */
  lemma {:induction false} ClearSetLanes(u: bv64, v: bv64, b: byte, n: nat)
    requires n < 8 && v == SetByte(u, b, n)
    ensures forall m :: 0 <= m < 8 ==> ExtractByte(v, m) == if m == n then b else ExtractByte(u, m)
  {
    forall m | 0 <= m < 8
      ensures ExtractByte(v, m) == if m == n then b else ExtractByte(u, m)
    {
      ExtractClearSet(u, b, n, m);
    }
  }

  lemma {:induction false} ExtractClearSetAt0(u: bv64, b: byte, m: nat)
    requires m < 8
    ensures ExtractByte(SetByte(u, b, 0), m) == if m == 0 then b else ExtractByte(u, m)
  {
  }

  lemma {:induction false} ExtractClearSetAt1(u: bv64, b: byte, m: nat)
    requires m < 8
    ensures ExtractByte(SetByte(u, b, 1), m) == if m == 1 then b else ExtractByte(u, m)
  {
  }

  lemma {:induction false} ExtractClearSetAt2(u: bv64, b: byte, m: nat)
    requires m < 8
    ensures ExtractByte(SetByte(u, b, 2), m) == if m == 2 then b else ExtractByte(u, m)
  {
  }

  lemma {:induction false} ExtractClearSetAt3(u: bv64, b: byte, m: nat)
    requires m < 8
    ensures ExtractByte(SetByte(u, b, 3), m) == if m == 3 then b else ExtractByte(u, m)
  {
  }

  lemma {:induction false} ExtractClearSetAt4(u: bv64, b: byte, m: nat)
    requires m < 8
    ensures ExtractByte(SetByte(u, b, 4), m) == if m == 4 then b else ExtractByte(u, m)
  {
  }

  lemma {:induction false} ExtractClearSetAt5(u: bv64, b: byte, m: nat)
    requires m < 8
    ensures ExtractByte(SetByte(u, b, 5), m) == if m == 5 then b else ExtractByte(u, m)
  {
  }

  lemma {:induction false} ExtractClearSetAt6(u: bv64, b: byte, m: nat)
    requires m < 8
    ensures ExtractByte(SetByte(u, b, 6), m) == if m == 6 then b else ExtractByte(u, m)
  {
  }

  lemma {:induction false} ExtractClearSetAt7(u: bv64, b: byte, m: nat)
    requires m < 8
    ensures ExtractByte(SetByte(u, b, 7), m) == if m == 7 then b else ExtractByte(u, m)
  {
  }

  /** Lane `k` of the big-endian reading of `s` is `s[k]`. */
  lemma {:induction false} ExtractExtract64(s: seq<byte>, k: nat)
    requires |s| >= 8 && k < 8
    ensures ExtractByte(Extract64(s), k) == s[k]
  {
    if k == 0 { ExtractExtract64At0(s); }
    else if k == 1 { ExtractExtract64At1(s); }
    else if k == 2 { ExtractExtract64At2(s); }
    else if k == 3 { ExtractExtract64At3(s); }
    else if k == 4 { ExtractExtract64At4(s); }
    else if k == 5 { ExtractExtract64At5(s); }
    else if k == 6 { ExtractExtract64At6(s); }
    else { ExtractExtract64At7(s); }
  }

  lemma {:induction false} ExtractExtract64At0(s: seq<byte>)
    requires |s| >= 8
    ensures ExtractByte(Extract64(s), 0) == s[0]
  {
  }

  lemma {:induction false} ExtractExtract64At1(s: seq<byte>)
    requires |s| >= 8
    ensures ExtractByte(Extract64(s), 1) == s[1]
  {
  }

  lemma {:induction false} ExtractExtract64At2(s: seq<byte>)
    requires |s| >= 8
    ensures ExtractByte(Extract64(s), 2) == s[2]
  {
  }

  lemma {:induction false} ExtractExtract64At3(s: seq<byte>)
    requires |s| >= 8
    ensures ExtractByte(Extract64(s), 3) == s[3]
  {
  }

  lemma {:induction false} ExtractExtract64At4(s: seq<byte>)
    requires |s| >= 8
    ensures ExtractByte(Extract64(s), 4) == s[4]
  {
  }

  lemma {:induction false} ExtractExtract64At5(s: seq<byte>)
    requires |s| >= 8
    ensures ExtractByte(Extract64(s), 5) == s[5]
  {
  }

  lemma {:induction false} ExtractExtract64At6(s: seq<byte>)
    requires |s| >= 8
    ensures ExtractByte(Extract64(s), 6) == s[6]
  {
  }

  lemma {:induction false} ExtractExtract64At7(s: seq<byte>)
    requires |s| >= 8
    ensures ExtractByte(Extract64(s), 7) == s[7]
  {
  }

  /** Xoring in a word whose lane `k` is `v` xors `v` into lane `k`. */
  lemma {:induction false} XorLaneOf(u: bv64, w: bv64, k: nat, v: byte)
    requires k < 8 && ExtractByte(w, k) == v
    ensures ExtractByte(Xor64(u, w), k) == ExtractByte(u, k) ^ v
  {
    ExtractByteXor(u, w, k);
  }

  /** Xoring in a word whose lane `k` is zero leaves lane `k` unchanged. */
  lemma {:induction false} XorZeroLane(u: bv64, w: bv64, k: nat)
    requires k < 8 && ExtractByte(w, k) == 0
    ensures ExtractByte(Xor64(u, w), k) == ExtractByte(u, k)
  {
    ExtractByteXor(u, w, k);
  }

  /** Xoring in InsertByte(x, n) xors `x` into lane `n` and leaves the other lanes. */
  lemma {:induction false} ExtractXorInsert(w: bv64, x: byte, n: nat, k: nat)
    requires n < 8 && k < 8
    ensures ExtractByte(Xor64(w, InsertByte(x, n)), k) == if k == n then ExtractByte(w, k) ^ x else ExtractByte(w, k)
  {
    ExtractInsertByte(x, n, k);
    if k == n {
      XorLaneOf(w, InsertByte(x, n), k, x);
    } else {
      XorZeroLane(w, InsertByte(x, n), k);
    }
  }
  /** ExtractXorInsert for all lanes at once, for `v` equal to `w` with `x` xored into lane `n`. */
  lemma {:induction false} XorInsertLanes(w: bv64, v: bv64, x: byte, n: nat)
    requires n < 8 && v == Xor64(w, InsertByte(x, n))
    ensures forall k :: 0 <= k < 8 ==> ExtractByte(v, k) == if k == n then ExtractByte(w, k) ^ x else ExtractByte(w, k)
  {
    forall k | 0 <= k < 8
      ensures ExtractByte(v, k) == if k == n then ExtractByte(w, k) ^ x else ExtractByte(w, k)
    {
      ExtractXorInsert(w, x, n, k);
    }
  }

}
