/**
 * The Ascon-128 mode of operation as functions on the permutation state: the
 * reference that the byte-by-byte loops of Seal and Open are proved against.
 *
 * The functions follow the block view of the Ascon v1.2 submission (section
 * 2.4): the last block of associated data and of plaintext is padded with a
 * single 0x80 byte and zeros; a partial ciphertext block is the truncated
 * exclusive or of the first state word's bytes with the plaintext.
 */
module Duplex {
  import opened Bytes
  import opened Permutation

  const KeySize: nat := 16
  const NonceSize: nat := 16
  const TagSize: nat := 16
  const Rate: nat := 8
  const PaRounds: nat := 12
  const PbRounds: nat := 6

  /** The first state word before initialization: key size, rate and round counts. */
  const InitX0: bv64 :=
    ((((KeySize * 8) as bv64) << 24) | (((Rate * 8) as bv64) << 16) | ((PaRounds as bv64) << 8) | (PbRounds as bv64)) << 32

  /** The initial word holds 128, 64, 12 and 6 in its four most significant bytes. */
  lemma {:induction false} InitX0Value()
    ensures InitX0 == 0x80400c0600000000
    ensures Insert64(InitX0) == [0x80, 0x40, 0x0c, 0x06, 0, 0, 0, 0]
  {
  }

  datatype Error = AuthenticationFailed | BadKeyLength

  datatype Result<T> = Ok(value: T) | Err(error: Error)

  /** A last block of fewer than eight bytes, padded with 0x80 and then zeros. */
  function Pad(b: seq<byte>): (r: seq<byte>)
    requires |b| < Rate
    ensures |r| == Rate && r[..|b|] == b && r[|b|] == 0x80
    ensures forall i :: |b| < i < Rate ==> r[i] == 0
  {
    b + [0x80] + Zeros(7 - |b|)
  }

  /** The key words xored into x1 and x2, as finalization starts. */
  function KeyIntoX1X2(s: State, k0: bv64, k1: bv64): State
  {
    s.(x1 := s.x1 ^ k0, x2 := s.x2 ^ k1)
  }

  /** The key words xored into x3 and x4, as initialization and finalization end. */
  function KeyIntoX3X4(s: State, k0: bv64, k1: bv64): State
  {
    s.(x3 := s.x3 ^ k0, x4 := s.x4 ^ k1)
  }

  /** The state after initialization from the key words `k0`, `k1` and the nonce words `n0`, `n1`. */
  function InitialState(k0: bv64, k1: bv64, n0: bv64, n1: bv64): State
  {
    KeyIntoX3X4(P12(State(InitX0, k0, k1, n0, n1)), k0, k1)
  }

  /** Initialization: load the initial word, key and nonce, run P12, xor the key into x3, x4. */
  function Initialize(key: seq<byte>, nonce: seq<byte>): State
    requires |key| == KeySize && |nonce| == NonceSize
  {
    InitialState(Extract64(key[..8]), Extract64(key[8..]), Extract64(nonce[..8]), Extract64(nonce[8..]))
  }

  /** Absorbs the associated data, eight bytes per block, the last block padded. */
  function AbsorbBlocks(s: State, data: seq<byte>): State
    decreases |data|
  {
    if |data| < Rate then P6(s.(x0 := Xor64(s.x0, Extract64(Pad(data)))))
    else AbsorbBlocks(P6(s.(x0 := Xor64(s.x0, Extract64(data[..8])))), data[8..])
  }

  /** Associated data is absorbed only when there is some; the domain bit is set in x4 always. */
  function ProcessAssociatedData(s: State, data: seq<byte>): State
  {
    var s := if |data| > 0 then AbsorbBlocks(s, data) else s;
    s.(x4 := s.x4 ^ 1)
  }

  /**
   * Encrypts the plaintext: each full block is xored into x0, which is then the
   * ciphertext block, and P6 follows; the last, partial block is xored byte by
   * byte with the leading bytes of x0, and the padded block is xored into x0.
   * Returns the ciphertext and the final state.
   */
  function EncryptBlocks(s: State, p: seq<byte>): (r: (seq<byte>, State))
    ensures |r.0| == |p|
    decreases |p|
  {
    if |p| < Rate then
      (XorBytes(Insert64(s.x0)[..|p|], p), s.(x0 := Xor64(s.x0, Extract64(Pad(p)))))
    else
      var x0 := Xor64(s.x0, Extract64(p[..8]));
      var r := EncryptBlocks(P6(s.(x0 := x0)), p[8..]);
      (Insert64(x0) + r.0, r.1)
  }

  /**
   * Decrypts the ciphertext: each full block xored with x0 is a plaintext block,
   * the ciphertext block replaces x0, and P6 follows; the last, partial block is
   * xored byte by byte with the leading bytes of x0 to give the last plaintext
   * bytes, its bytes replace the leading bytes of x0, and the padding byte is
   * xored in after them.  Returns the plaintext and the final state.
   */
  function DecryptBlocks(s: State, c: seq<byte>): (r: (seq<byte>, State))
    ensures |r.0| == |c|
    decreases |c|
  {
    if |c| < Rate then
      var x := Insert64(s.x0);
      (XorBytes(x[..|c|], c), s.(x0 := Xor64(Extract64(c + x[|c|..]), InsertByte(0x80, |c|))))
    else
      var cw := Extract64(c[..8]);
      var r := DecryptBlocks(P6(s.(x0 := cw)), c[8..]);
      (Insert64(Xor64(s.x0, cw)) + r.0, r.1)
  }

  /** The state after finalization with the key words `k0`, `k1`: its last two words are the tag. */
  function FinalState(s: State, k0: bv64, k1: bv64): State
  {
    KeyIntoX3X4(P12(KeyIntoX1X2(s, k0, k1)), k0, k1)
  }

  /** Finalization: the key into x1, x2, P12, the key into x3, x4; the tag is x3, x4 big-endian. */
  function Finalize(s: State, key: seq<byte>): (tag: seq<byte>)
    requires |key| == KeySize
    ensures |tag| == TagSize
  {
    var f := FinalState(s, Extract64(key[..8]), Extract64(key[8..]));
    Insert64(f.x3) + Insert64(f.x4)
  }

  /** The state after initialization and the associated data. */
  function Prepare(key: seq<byte>, nonce: seq<byte>, data: seq<byte>): State
    requires |key| == KeySize && |nonce| == NonceSize
  {
    ProcessAssociatedData(Initialize(key, nonce), data)
  }

  /** The sealed message: the ciphertext followed by the tag. */
  function SealSpec(key: seq<byte>, nonce: seq<byte>, plaintext: seq<byte>, data: seq<byte>): (r: seq<byte>)
    requires |key| == KeySize && |nonce| == NonceSize
    ensures |r| == |plaintext| + TagSize
  {
    var e := EncryptBlocks(Prepare(key, nonce, data), plaintext);
    e.0 + Finalize(e.1, key)
  }

  /**
   * Opening: a message shorter than a tag, or whose tag differs from the one
   * recomputed over the decrypted state, fails authentication.
   */
  function OpenSpec(key: seq<byte>, nonce: seq<byte>, ciphertext: seq<byte>, data: seq<byte>): (r: Result<seq<byte>>)
    requires |key| == KeySize && |nonce| == NonceSize
    ensures r.Ok? ==> |ciphertext| >= TagSize && |r.value| == |ciphertext| - TagSize
  {
    if |ciphertext| < TagSize then Err(AuthenticationFailed)
    else
      var n := |ciphertext| - TagSize;
      var d := DecryptBlocks(Prepare(key, nonce, data), ciphertext[..n]);
      if Finalize(d.1, key) == ciphertext[n..] then Ok(d.0) else Err(AuthenticationFailed)
  }

  // ---------------------------------------------------------------------------
  // The last block, lane by lane

  /** Byte `j` of the padded block: a byte of `p`, the padding byte 0x80, or zero. */
  lemma {:induction false} PadAt(p: seq<byte>, j: nat)
    requires |p| < Rate && j < 8
    ensures Pad(p)[j] == if j < |p| then p[j] else if j == |p| then 0x80 else 0
  {
    if j < |p| {
      assert Pad(p)[..|p|][j] == p[j];
    }
  }

  /**
   * A lane holding a byte of the last block: once the padding byte is xored
   * into `w` (the lane already holding the byte xored in), it agrees with the
   * padded block xored into `base`.
   */
  lemma {:induction false} LastLaneData(w: bv64, base: bv64, p: seq<byte>, j: nat)
    requires j < |p| < Rate && ExtractByte(w, j) == ExtractByte(base, j) ^ p[j]
    ensures ExtractByte(Xor64(w, InsertByte(0x80, |p|)), j) == ExtractByte(Xor64(base, Extract64(Pad(p))), j)
  {
    ExtractInsertByte(0x80, |p|, j);
    XorZeroLane(w, InsertByte(0x80, |p|), j);
    PadAt(p, j);
    ExtractExtract64(Pad(p), j);
    XorLaneOf(base, Extract64(Pad(p)), j, p[j]);
  }

  /** The lane just after the last block: both sides xor the padding byte 0x80 into it. */
  lemma {:induction false} LastLanePad(w: bv64, base: bv64, p: seq<byte>, j: nat)
    requires j == |p| < Rate && ExtractByte(w, j) == ExtractByte(base, j)
    ensures ExtractByte(Xor64(w, InsertByte(0x80, |p|)), j) == ExtractByte(Xor64(base, Extract64(Pad(p))), j)
  {
    ExtractInsertByte(0x80, |p|, j);
    XorLaneOf(w, InsertByte(0x80, |p|), j, 0x80);
    PadAt(p, j);
    ExtractExtract64(Pad(p), j);
    XorLaneOf(base, Extract64(Pad(p)), j, 0x80);
  }

  /** A lane after the padding byte: both sides leave it as it was. */
  lemma {:induction false} LastLaneRest(w: bv64, base: bv64, p: seq<byte>, j: nat)
    requires |p| < j < 8 && |p| < Rate && ExtractByte(w, j) == ExtractByte(base, j)
    ensures ExtractByte(Xor64(w, InsertByte(0x80, |p|)), j) == ExtractByte(Xor64(base, Extract64(Pad(p))), j)
  {
    ExtractInsertByte(0x80, |p|, j);
    XorZeroLane(w, InsertByte(0x80, |p|), j);
    PadAt(p, j);
    ExtractExtract64(Pad(p), j);
    XorZeroLane(base, Extract64(Pad(p)), j);
  }

  /** Byte `j` of the leading bytes of `x` xored with `p`, followed by the rest of `x`. */
  lemma {:induction false} OverwriteAt(x: seq<byte>, p: seq<byte>, j: nat)
    requires |x| == 8 && |p| < Rate && j < 8
    ensures (XorBytes(x[..|p|], p) + x[|p|..])[j] == if j < |p| then x[j] ^ p[j] else x[j]
  {
  }

  /**
   * `w` is the word `base` with the first `i` bytes of the last block `p`
   * xored into its leading lanes, as the encryption loop leaves x0.
   */
  predicate XoredUpTo(w: bv64, base: bv64, p: seq<byte>, i: nat)
    requires i <= |p| < Rate
  {
    forall j :: 0 <= j < 8 ==> ExtractByte(w, j) == XoredLane(base, p, i, j)
  }

  /** Lane `j` of `base` once the first `i` bytes of `p` are xored into the leading lanes. */
  function XoredLane(base: bv64, p: seq<byte>, i: nat, j: nat): byte
    requires i <= |p| && j < 8
  {
    if j < i then ExtractByte(base, j) ^ p[j] else ExtractByte(base, j)
  }

  /** One lane of XorByteStep, on the lane values alone. */
  lemma {:induction false} XorStepLane(now: byte, prev: byte, base: bv64, p: seq<byte>, i: nat, j: nat)
    requires i < |p| && j < 8
    requires now == if j == i then prev ^ p[i] else prev
    requires prev == XoredLane(base, p, i, j)
    ensures now == XoredLane(base, p, i + 1, j)
  {
  }

  /** One lane of ReplaceByteStep, on the lane values alone. */
  lemma {:induction false} ReplaceStepLane(now: byte, prev: byte, base: byte, c: seq<byte>, i: nat, j: nat)
    requires i < |c|
    requires now == if j == i then c[i] else prev
    requires prev == if j < i then c[j] else base
    ensures now == if j < i + 1 then c[j] else base
  {
  }

  /** XorByteStep for any word `w'` whose lanes are those of `w` with byte `i` of `p` xored into lane `i`. */
  lemma {:induction false} XorByteStepOf(w: bv64, w': bv64, base: bv64, p: seq<byte>, i: nat)
    requires i < |p| < Rate && XoredUpTo(w, base, p, i)
    requires forall j :: 0 <= j < 8 ==> ExtractByte(w', j) == if j == i then ExtractByte(w, j) ^ p[i] else ExtractByte(w, j)
    ensures XoredUpTo(w', base, p, i + 1)
  {
    forall j | 0 <= j < 8
      ensures ExtractByte(w', j) == XoredLane(base, p, i + 1, j)
    {
      XorStepLane(ExtractByte(w', j), ExtractByte(w, j), base, p, i, j);
    }
  }

  /** Xoring byte `i` of `p` into lane `i` extends XoredUpTo by one byte. */
  lemma {:induction false} XorByteStep(w: bv64, base: bv64, p: seq<byte>, i: nat)
    requires i < |p| < Rate && XoredUpTo(w, base, p, i)
    ensures XoredUpTo(Xor64(w, InsertByte(p[i], i)), base, p, i + 1)
  {
    XorInsertLanes(w, Xor64(w, InsertByte(p[i], i)), p[i], i);
    XorByteStepOf(w, Xor64(w, InsertByte(p[i], i)), base, p, i);
  }

  /** Once all of `p` is xored in, xoring the padding byte gives the padded block xored into `base`. */
  lemma {:induction false} XoredPad(w: bv64, base: bv64, p: seq<byte>)
    requires |p| < Rate && XoredUpTo(w, base, p, |p|)
    ensures Xor64(w, InsertByte(0x80, |p|)) == Xor64(base, Extract64(Pad(p)))
  {
    var u := Xor64(w, InsertByte(0x80, |p|));
    var v := Xor64(base, Extract64(Pad(p)));
    forall j | 0 <= j < 8
      ensures ExtractByte(u, j) == ExtractByte(v, j)
    {
      if j < |p| {
        LastLaneData(w, base, p, j);
      } else if j == |p| {
        LastLanePad(w, base, p, j);
      } else {
        LastLaneRest(w, base, p, j);
      }
    }
    WordExtensionality(u, v);
  }

  /**
   * `w` is the word `base` with its first `i` lanes replaced by the first `i`
   * bytes of the last ciphertext block `c`, as the decryption loop leaves x0.
   */
  predicate ReplacedUpTo(w: bv64, base: bv64, c: seq<byte>, i: nat)
    requires i <= |c| < Rate
  {
    forall j :: 0 <= j < 8 ==> ExtractByte(w, j) == if j < i then c[j] else ExtractByte(base, j)
  }

  /** ReplaceByteStep for any word `w'` whose lanes are those of `w` with lane `i` set to byte `i` of `c`. */
  lemma {:induction false} ReplaceByteStepOf(w: bv64, w': bv64, base: bv64, c: seq<byte>, i: nat)
    requires i < |c| < Rate && ReplacedUpTo(w, base, c, i)
    requires forall j :: 0 <= j < 8 ==> ExtractByte(w', j) == if j == i then c[i] else ExtractByte(w, j)
    ensures ReplacedUpTo(w', base, c, i + 1)
  {
    forall j | 0 <= j < 8
      ensures ExtractByte(w', j) == if j < i + 1 then c[j] else ExtractByte(base, j)
    {
      ReplaceStepLane(ExtractByte(w', j), ExtractByte(w, j), ExtractByte(base, j), c, i, j);
    }
  }

  /** Clearing lane `i` and setting it to byte `i` of `c` extends ReplacedUpTo by one byte. */
  lemma {:induction false} ReplaceByteStep(w: bv64, base: bv64, c: seq<byte>, i: nat)
    requires i < |c| < Rate && ReplacedUpTo(w, base, c, i)
    ensures ReplacedUpTo(SetByte(w, c[i], i), base, c, i + 1)
  {
    ClearSetLanes(w, SetByte(w, c[i], i), c[i], i);
    ReplaceByteStepOf(w, SetByte(w, c[i], i), base, c, i);
  }

  /** Once all of `c` is in, the word is `c` followed by the remaining bytes of `base`. */
  lemma {:induction false} ReplacedWord(w: bv64, base: bv64, c: seq<byte>)
    requires |c| < Rate && ReplacedUpTo(w, base, c, |c|)
    ensures w == Extract64(c + Insert64(base)[|c|..])
  {
    var x := Insert64(base);
    var t := c + x[|c|..];
    var u := Extract64(t);
    forall j | 0 <= j < 8
      ensures ExtractByte(w, j) == ExtractByte(u, j)
    {
      ExtractExtract64(t, j);
      Insert64At(base, j);
      assert t[j] == if j < |c| then c[j] else x[j];
    }
    WordExtensionality(w, u);
  }

  // ---------------------------------------------------------------------------
  // The partial-block loops, one byte at a time, as the Go loops run them

  /** x0 once the remaining bytes of `p`, from position `i` on, are xored into their lanes of `w`. */
  function XorFrom(w: bv64, p: seq<byte>, i: nat): bv64
    requires i <= |p| < Rate
    decreases |p| - i
  {
    if i == |p| then w else XorFrom(Xor64(w, InsertByte(p[i], i)), p, i + 1)
  }

  /** The bytes the encryption loop emits from position `i` on: each lane of x0 just after its byte is xored in. */
  function EncryptFrom(w: bv64, p: seq<byte>, i: nat): (r: seq<byte>)
    requires i <= |p| < Rate
    ensures |r| == |p| - i
    decreases |p| - i
  {
    if i == |p| then []
    else
      var w' := Xor64(w, InsertByte(p[i], i));
      [ExtractByte(w', i)] + EncryptFrom(w', p, i + 1)
  }

  /** x0 once its lanes from `i` on are cleared and set to the remaining bytes of `c`. */
  function ReplaceFrom(w: bv64, c: seq<byte>, i: nat): bv64
    requires i <= |c| < Rate
    decreases |c| - i
  {
    if i == |c| then w else ReplaceFrom(SetByte(w, c[i], i), c, i + 1)
  }

  /** The bytes the decryption loop emits from position `i` on: each lane of x0 xored with its ciphertext byte. */
  function DecryptFrom(w: bv64, c: seq<byte>, i: nat): (r: seq<byte>)
    requires i <= |c| < Rate
    ensures |r| == |c| - i
    decreases |c| - i
  {
    if i == |c| then []
    else [ExtractByte(w, i) ^ c[i]] + DecryptFrom(SetByte(w, c[i], i), c, i + 1)
  }

  /** Xoring in the remaining bytes of `p` completes XoredUpTo. */
  lemma {:induction false} XorFromLanes(w: bv64, base: bv64, p: seq<byte>, i: nat)
    requires i <= |p| < Rate && XoredUpTo(w, base, p, i)
    ensures XoredUpTo(XorFrom(w, p, i), base, p, |p|)
    decreases |p| - i
  {
    if i < |p| {
      XorByteStep(w, base, p, i);
      XorFromLanes(Xor64(w, InsertByte(p[i], i)), base, p, i + 1);
    }
  }

  /** The associated-data and plaintext loops, then the padding byte, xor the padded block into x0. */
  lemma {:induction false} XorFromPad(base: bv64, p: seq<byte>)
    requires |p| < Rate
    ensures Xor64(XorFrom(base, p, 0), InsertByte(0x80, |p|)) == Xor64(base, Extract64(Pad(p)))
  {
    XorFromLanes(base, base, p, 0);
    XoredPad(XorFrom(base, p, 0), base, p);
  }

  /** From position `i` on, the encryption loop emits the lanes of `base` xored with the bytes of `p`. */
  lemma {:induction false} EncryptFromBytes(w: bv64, base: bv64, p: seq<byte>, i: nat)
    requires i <= |p| < Rate && XoredUpTo(w, base, p, i)
    ensures EncryptFrom(w, p, i) == XorBytes(Insert64(base)[..|p|][i..], p[i..])
    decreases |p| - i
  {
    if i < |p| {
      var x := Insert64(base)[..|p|];
      var w' := Xor64(w, InsertByte(p[i], i));
      XorByteStep(w, base, p, i);
      EncryptFromBytes(w', base, p, i + 1);
      Insert64At(base, i);
      XorBytesCons(x, p, i);
    }
  }

  /** The encryption loop emits the leading bytes of x0 xored with the bytes of `p`. */
  lemma {:induction false} EncryptFromIsXor(base: bv64, p: seq<byte>)
    requires |p| < Rate
    ensures EncryptFrom(base, p, 0) == XorBytes(Insert64(base)[..|p|], p)
  {
    EncryptFromBytes(base, base, p, 0);
    assert Insert64(base)[..|p|][0..] == Insert64(base)[..|p|] && p[0..] == p;
  }

  /** Setting the remaining lanes to the bytes of `c` completes ReplacedUpTo. */
  lemma {:induction false} ReplaceFromLanes(w: bv64, base: bv64, c: seq<byte>, i: nat)
    requires i <= |c| < Rate && ReplacedUpTo(w, base, c, i)
    ensures ReplacedUpTo(ReplaceFrom(w, c, i), base, c, |c|)
    decreases |c| - i
  {
    if i < |c| {
      ReplaceByteStep(w, base, c, i);
      ReplaceFromLanes(SetByte(w, c[i], i), base, c, i + 1);
    }
  }

  /** After the decryption loop x0 is `c` followed by the remaining bytes of `base`. */
  lemma {:induction false} ReplaceFromWord(base: bv64, c: seq<byte>)
    requires |c| < Rate
    ensures ReplaceFrom(base, c, 0) == Extract64(c + Insert64(base)[|c|..])
  {
    ReplaceFromLanes(base, base, c, 0);
    ReplacedWord(ReplaceFrom(base, c, 0), base, c);
  }

  /** From position `i` on, the decryption loop emits the lanes of `base` xored with the bytes of `c`. */
  lemma {:induction false} DecryptFromBytes(w: bv64, base: bv64, c: seq<byte>, i: nat)
    requires i <= |c| < Rate && ReplacedUpTo(w, base, c, i)
    ensures DecryptFrom(w, c, i) == XorBytes(Insert64(base)[..|c|][i..], c[i..])
    decreases |c| - i
  {
    if i < |c| {
      var x := Insert64(base)[..|c|];
      var w' := SetByte(w, c[i], i);
      Insert64At(base, i);
      assert DecryptFrom(w, c, i) == [ExtractByte(w, i) ^ c[i]] + DecryptFrom(w', c, i + 1);
      assert ExtractByte(w, i) == x[i];
      ReplaceByteStep(w, base, c, i);
      DecryptFromBytes(w', base, c, i + 1);
      XorBytesCons(x, c, i);
    }
  }

  /** The decryption loop emits the leading bytes of x0 xored with the bytes of `c`. */
  lemma {:induction false} DecryptFromIsXor(base: bv64, c: seq<byte>)
    requires |c| < Rate
    ensures DecryptFrom(base, c, 0) == XorBytes(Insert64(base)[..|c|], c)
  {
    DecryptFromBytes(base, base, c, 0);
    assert Insert64(base)[..|c|][0..] == Insert64(base)[..|c|] && c[0..] == c;
  }

  /**
   * Replacing the leading bytes of x0 by the ciphertext of `p` and xoring in the
   * padding byte gives the state that xoring in the padded block gives.
   */
  lemma {:induction false} LastBlockState(x0: bv64, p: seq<byte>)
    requires |p| < Rate
    ensures
      var x := Insert64(x0);
      Xor64(Extract64(XorBytes(x[..|p|], p) + x[|p|..]), InsertByte(0x80, |p|)) == Xor64(x0, Extract64(Pad(p)))
  {
    var x := Insert64(x0);
    var t := XorBytes(x[..|p|], p) + x[|p|..];
    var u := Extract64(t);
    forall j | 0 <= j < 8
      ensures ExtractByte(u, j) == XoredLane(x0, p, |p|, j)
    {
      ExtractExtract64(t, j);
      OverwriteAt(x, p, j);
      Insert64At(x0, j);
    }
    XoredPad(u, x0, p);
  }

  /** Decrypting the last block's ciphertext gives back the plaintext. */
  lemma {:induction false} DecryptLastBlock(s: State, p: seq<byte>)
    requires |p| < Rate
    ensures DecryptBlocks(s, EncryptBlocks(s, p).0).0 == p
  {
    var x := Insert64(s.x0);
    XorBytesCancel(x[..|p|], p);
  }

  /** Decrypting the last block's ciphertext ends in the state that encrypting it ends in. */
  lemma {:induction false} DecryptLastBlockState(s: State, p: seq<byte>)
    requires |p| < Rate
    ensures DecryptBlocks(s, EncryptBlocks(s, p).0).1 == EncryptBlocks(s, p).1
  {
    LastBlockState(s.x0, p);
  }

  /** Encrypting the last block's plaintext gives back the ciphertext. */
  lemma {:induction false} EncryptLastBlock(s: State, c: seq<byte>)
    requires |c| < Rate
    ensures EncryptBlocks(s, DecryptBlocks(s, c).0).0 == c
  {
    var x := Insert64(s.x0);
    XorBytesCancel(x[..|c|], c);
  }

  /** Encrypting the last block's plaintext ends in the state that decrypting it ends in. */
  lemma {:induction false} EncryptLastBlockState(s: State, c: seq<byte>)
    requires |c| < Rate
    ensures EncryptBlocks(s, DecryptBlocks(s, c).0).1 == DecryptBlocks(s, c).1
  {
    var x := Insert64(s.x0);
    XorBytesCancel(x[..|c|], c);
    LastBlockState(s.x0, XorBytes(x[..|c|], c));
  }

  /** The ciphertext of a message of at least a block: the first block's, then the rest's. */
  lemma {:induction false} EncryptFirstBlock(s: State, p: seq<byte>)
    requires |p| >= Rate
    ensures
      var x0 := Xor64(s.x0, Extract64(p[..8]));
      EncryptBlocks(s, p).0 == Insert64(x0) + EncryptBlocks(P6(s.(x0 := x0)), p[8..]).0
  {
  }

  /** The state after a message of at least a block: that after the rest, from the next state. */
  lemma {:induction false} EncryptNextState(s: State, p: seq<byte>)
    requires |p| >= Rate
    ensures EncryptBlocks(s, p).1 == EncryptBlocks(P6(s.(x0 := Xor64(s.x0, Extract64(p[..8])))), p[8..]).1
  {
  }

  /** The plaintext of a ciphertext of at least a block: the first block's, then the rest's. */
  lemma {:induction false} DecryptFirstBlock(s: State, c: seq<byte>)
    requires |c| >= Rate
    ensures
      var cw := Extract64(c[..8]);
      DecryptBlocks(s, c).0 == Insert64(Xor64(s.x0, cw)) + DecryptBlocks(P6(s.(x0 := cw)), c[8..]).0
  {
  }

  /** The state after a ciphertext of at least a block: that after the rest, from the next state. */
  lemma {:induction false} DecryptNextState(s: State, c: seq<byte>)
    requires |c| >= Rate
    ensures DecryptBlocks(s, c).1 == DecryptBlocks(P6(s.(x0 := Extract64(c[..8]))), c[8..]).1
  {
  }

  /** A plaintext block xored into x0 and then out again. */
  lemma {:induction false} BlockRoundTrip(k: bv64, b: seq<byte>)
    requires |b| == Rate
    ensures Insert64(Xor64(k, Xor64(k, Extract64(b)))) == b
  {
    XorCancel64(k, Extract64(b));
    UnpackPack(b);
    assert b[..8] == b;
  }

  /** A ciphertext word xored out of x0 and then in again. */
  lemma {:induction false} WordRoundTrip(k: bv64, cw: bv64)
    ensures Xor64(k, Extract64(Insert64(Xor64(k, cw)))) == cw
  {
    PackUnpack(Xor64(k, cw));
    XorCancel64(k, cw);
  }

  /** Decrypting the encryption of a message of at least a block: its first block, then the rest's decryption. */
  lemma {:induction false} DecryptEncryptFirstBlock(s: State, p: seq<byte>)
    requires |p| >= Rate
    ensures
      var t := P6(s.(x0 := Xor64(s.x0, Extract64(p[..8]))));
      DecryptBlocks(s, EncryptBlocks(s, p).0).0 == p[..8] + DecryptBlocks(t, EncryptBlocks(t, p[8..]).0).0
  {
    var x0 := Xor64(s.x0, Extract64(p[..8]));
    var e := EncryptBlocks(P6(s.(x0 := x0)), p[8..]);
    var c := EncryptBlocks(s, p).0;
    EncryptFirstBlock(s, p);
    assert c[..8] == Insert64(x0);
    assert c[8..] == e.0;
    PackUnpack(x0);
    DecryptFirstBlock(s, c);
    BlockRoundTrip(s.x0, p[..8]);
  }

  /** DecryptEncrypt's plaintext for a message that starts with a full block, given it for the rest. */
  lemma {:induction false} DecryptEncryptText(s: State, p: seq<byte>)
    requires |p| >= Rate
    requires
      var t := P6(s.(x0 := Xor64(s.x0, Extract64(p[..8]))));
      DecryptBlocks(t, EncryptBlocks(t, p[8..]).0).0 == p[8..]
    ensures DecryptBlocks(s, EncryptBlocks(s, p).0).0 == p
  {
    DecryptEncryptFirstBlock(s, p);
    assert p == p[..8] + p[8..];
  }

  /** DecryptEncrypt's final state for a message that starts with a full block, given it for the rest. */
  lemma {:induction false} DecryptEncryptState(s: State, p: seq<byte>)
    requires |p| >= Rate
    requires
      var t := P6(s.(x0 := Xor64(s.x0, Extract64(p[..8]))));
      DecryptBlocks(t, EncryptBlocks(t, p[8..]).0).1 == EncryptBlocks(t, p[8..]).1
    ensures DecryptBlocks(s, EncryptBlocks(s, p).0).1 == EncryptBlocks(s, p).1
  {
    var x0 := Xor64(s.x0, Extract64(p[..8]));
    var e := EncryptBlocks(P6(s.(x0 := x0)), p[8..]);
    var c := EncryptBlocks(s, p).0;
    EncryptFirstBlock(s, p);
    EncryptNextState(s, p);
    assert c[..8] == Insert64(x0);
    assert c[8..] == e.0;
    PackUnpack(x0);
    DecryptNextState(s, c);
  }

  /** Encrypting the decryption of a ciphertext of at least a block: its first block, then the rest's encryption. */
  lemma {:induction false} EncryptDecryptFirstBlock(s: State, c: seq<byte>)
    requires |c| >= Rate
    ensures
      var t := P6(s.(x0 := Extract64(c[..8])));
      EncryptBlocks(s, DecryptBlocks(s, c).0).0 == c[..8] + EncryptBlocks(t, DecryptBlocks(t, c[8..]).0).0
  {
    var cw := Extract64(c[..8]);
    var d := DecryptBlocks(P6(s.(x0 := cw)), c[8..]);
    var p := DecryptBlocks(s, c).0;
    DecryptFirstBlock(s, c);
    assert p[..8] == Insert64(Xor64(s.x0, cw));
    assert p[8..] == d.0;
    EncryptFirstBlock(s, p);
    WordRoundTrip(s.x0, cw);
    UnpackPack(c[..8]);
  }

  /** EncryptDecrypt's ciphertext for a message that starts with a full block, given it for the rest. */
  lemma {:induction false} EncryptDecryptText(s: State, c: seq<byte>)
    requires |c| >= Rate
    requires
      var t := P6(s.(x0 := Extract64(c[..8])));
      EncryptBlocks(t, DecryptBlocks(t, c[8..]).0).0 == c[8..]
    ensures EncryptBlocks(s, DecryptBlocks(s, c).0).0 == c
  {
    EncryptDecryptFirstBlock(s, c);
    assert c == c[..8] + c[8..];
  }

  /** EncryptDecrypt's final state for a message that starts with a full block, given it for the rest. */
  lemma {:induction false} EncryptDecryptState(s: State, c: seq<byte>)
    requires |c| >= Rate
    requires
      var t := P6(s.(x0 := Extract64(c[..8])));
      EncryptBlocks(t, DecryptBlocks(t, c[8..]).0).1 == DecryptBlocks(t, c[8..]).1
    ensures EncryptBlocks(s, DecryptBlocks(s, c).0).1 == DecryptBlocks(s, c).1
  {
    var cw := Extract64(c[..8]);
    var d := DecryptBlocks(P6(s.(x0 := cw)), c[8..]);
    var p := DecryptBlocks(s, c).0;
    DecryptFirstBlock(s, c);
    DecryptNextState(s, c);
    assert p[..8] == Insert64(Xor64(s.x0, cw));
    assert p[8..] == d.0;
    EncryptNextState(s, p);
    WordRoundTrip(s.x0, cw);
  }

  /** Decrypting an encryption gives back the plaintext and the encryption's final state. */
  lemma {:induction false} DecryptEncrypt(s: State, p: seq<byte>)
    ensures DecryptBlocks(s, EncryptBlocks(s, p).0).0 == p
    ensures DecryptBlocks(s, EncryptBlocks(s, p).0).1 == EncryptBlocks(s, p).1
    decreases |p|
  {
    if |p| < Rate {
      DecryptLastBlock(s, p);
      DecryptLastBlockState(s, p);
    } else {
      DecryptEncrypt(P6(s.(x0 := Xor64(s.x0, Extract64(p[..8])))), p[8..]);
      DecryptEncryptText(s, p);
      DecryptEncryptState(s, p);
    }
  }

  /** Encrypting a decryption gives back the ciphertext and the decryption's final state. */
  lemma {:induction false} EncryptDecrypt(s: State, c: seq<byte>)
    ensures EncryptBlocks(s, DecryptBlocks(s, c).0).0 == c
    ensures EncryptBlocks(s, DecryptBlocks(s, c).0).1 == DecryptBlocks(s, c).1
    decreases |c|
  {
    if |c| < Rate {
      EncryptLastBlock(s, c);
      EncryptLastBlockState(s, c);
    } else {
      EncryptDecrypt(P6(s.(x0 := Extract64(c[..8]))), c[8..]);
      EncryptDecryptText(s, c);
      EncryptDecryptState(s, c);
    }
  }

  // ---------------------------------------------------------------------------
  // Seal and Open

  /** Opening a sealed message gives back the plaintext. */
  lemma {:induction false} OpenSeal(key: seq<byte>, nonce: seq<byte>, plaintext: seq<byte>, data: seq<byte>)
    requires |key| == KeySize && |nonce| == NonceSize
    ensures OpenSpec(key, nonce, SealSpec(key, nonce, plaintext, data), data) == Ok(plaintext)
  {
    var sealed := SealSpec(key, nonce, plaintext, data);
    var s := Prepare(key, nonce, data);
    DecryptEncrypt(s, plaintext);
    assert sealed[..|plaintext|] == EncryptBlocks(s, plaintext).0;
    assert sealed[|plaintext|..] == Finalize(EncryptBlocks(s, plaintext).1, key);
  }

  /** A message opens to `plaintext` exactly when it is the sealing of `plaintext`. */
  lemma {:induction false} OpenIffSeal(key: seq<byte>, nonce: seq<byte>, ciphertext: seq<byte>, plaintext: seq<byte>, data: seq<byte>)
    requires |key| == KeySize && |nonce| == NonceSize
    ensures OpenSpec(key, nonce, ciphertext, data) == Ok(plaintext) <==> ciphertext == SealSpec(key, nonce, plaintext, data)
  {
    if ciphertext == SealSpec(key, nonce, plaintext, data) {
      OpenSeal(key, nonce, plaintext, data);
    }
    if OpenSpec(key, nonce, ciphertext, data) == Ok(plaintext) {
      var n := |ciphertext| - TagSize;
      var s := Prepare(key, nonce, data);
      EncryptDecrypt(s, ciphertext[..n]);
      assert ciphertext == ciphertext[..n] + ciphertext[n..];
    }
  }
}
