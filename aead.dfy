/**
 * The Ascon-128 AEAD object: Seal and Open as the byte-by-byte loops of the
 * Go implementation, each proved to compute the block-level reference of
 * module Duplex.
 *
 * The five state words x0, ..., x4 of the Go code are held in one State
 * value; each assignment to a word is an update of that field.  An `^=` of a
 * whole word into x0 is written with Xor64, the word xor of module Bytes.
 */
module Ascon {
  import opened Bytes
  import opened Permutation
  import opened Duplex

  /** Absorbs the associated data, when there is some, and sets the domain bit in x4. */
  method AbsorbAssociatedData(s0: State, data: seq<byte>) returns (s: State)
    ensures s == ProcessAssociatedData(s0, data)
  {
    s := s0;
    if |data| > 0 {
      s := AbsorbData(s, data);
    }
    s := s.(x4 := s.x4 ^ 1);
  }

  /**
   * Whole blocks are xored into x0, each followed by P6, then the last, partial
   * block and its padding, then P6.
   */
  method AbsorbData(s0: State, data0: seq<byte>) returns (s: State)
    ensures s == AbsorbBlocks(s0, data0)
  {
    var data;
    s, data := AbsorbWholeBlocks(s0, data0);
    var x0 := XorLastBlock(s.x0, data);
    s := P6(s.(x0 := x0));
  }

  /** The whole blocks of the associated data; returns the state and the remaining, partial block. */
  method AbsorbWholeBlocks(s0: State, data0: seq<byte>) returns (s: State, data: seq<byte>)
    ensures |data| < Rate
    ensures AbsorbBlocks(s, data) == AbsorbBlocks(s0, data0)
  {
    s, data := s0, data0;
    while |data| >= Rate
      invariant AbsorbBlocks(s, data) == AbsorbBlocks(s0, data0)
      decreases |data|
    {
      s := s.(x0 := Xor64(s.x0, Extract64(data[..8])));
      s := P6(s);
      data := data[8..];
    }
  }

  /** The bytes of a partial block xored into their lanes of x0 one at a time, then the padding byte. */
  method XorLastBlock(x0: bv64, data: seq<byte>) returns (w: bv64)
    requires |data| < Rate
    ensures w == Xor64(x0, Extract64(Pad(data)))
  {
    w := x0;
    for i := 0 to |data|
      invariant XorFrom(w, data, i) == XorFrom(x0, data, 0)
    {
      w := Xor64(w, InsertByte(data[i], i));
    }
    XorFromPad(x0, data);
    w := Xor64(w, InsertByte(0x80, |data|));
  }

  /** Encrypts the plaintext onto `dst`: its whole blocks, then its last, partial block. */
  method EncryptPlaintext(dst: seq<byte>, s0: State, p0: seq<byte>) returns (out: seq<byte>, s: State)
    ensures out == dst + EncryptBlocks(s0, p0).0
    ensures s == EncryptBlocks(s0, p0).1
  {
    var p, x0;
    out, s, p := EncryptWholeBlocks(dst, s0, p0);
    out, x0 := EncryptLastBlock(out, s.x0, p);
    s := s.(x0 := x0);
  }

  /**
   * Each whole block is xored into x0, x0 is appended as the ciphertext block,
   * and P6 follows.  Returns the output, the state and the remaining, partial
   * block.
   */
  method EncryptWholeBlocks(dst: seq<byte>, s0: State, p0: seq<byte>) returns (out: seq<byte>, s: State, p: seq<byte>)
    ensures |p| < Rate
    ensures out + EncryptBlocks(s, p).0 == dst + EncryptBlocks(s0, p0).0
    ensures EncryptBlocks(s, p).1 == EncryptBlocks(s0, p0).1
  {
    out, s, p := dst, s0, p0;
    while |p| >= Rate
      invariant out + EncryptBlocks(s, p).0 == dst + EncryptBlocks(s0, p0).0
      invariant EncryptBlocks(s, p).1 == EncryptBlocks(s0, p0).1
      decreases |p|
    {
      var x0 := Xor64(s.x0, Extract64(p[..8]));
      AppendAssoc(out, Insert64(x0), EncryptBlocks(P6(s.(x0 := x0)), p[8..]).0);
      s := s.(x0 := x0);
      out := Append64(out, s.x0);
      s := P6(s);
      p := p[8..];
    }
  }

  /**
   * Each byte of the partial block is xored into its lane of x0 and that lane
   * is appended; the padding byte is xored in last.
   */
  method EncryptLastBlock(dst: seq<byte>, x0: bv64, p: seq<byte>) returns (out: seq<byte>, w: bv64)
    requires |p| < Rate
    ensures out == dst + XorBytes(Insert64(x0)[..|p|], p)
    ensures w == Xor64(x0, Extract64(Pad(p)))
  {
    w, out := x0, dst;
    for i := 0 to |p|
      invariant XorFrom(w, p, i) == XorFrom(x0, p, 0)
      invariant out + EncryptFrom(w, p, i) == dst + EncryptFrom(x0, p, 0)
    {
      w := Xor64(w, InsertByte(p[i], i));
      AppendAssoc(out, [ExtractByte(w, i)], EncryptFrom(w, p, i + 1));
      out := out + [ExtractByte(w, i)];
    }
    XorFromPad(x0, p);
    EncryptFromIsXor(x0, p);
    w := Xor64(w, InsertByte(0x80, |p|));
  }

  /** Decrypts the ciphertext onto `dst`: its whole blocks, then its last, partial block. */
  method DecryptCiphertext(dst: seq<byte>, s0: State, c0: seq<byte>) returns (out: seq<byte>, s: State)
    ensures out == dst + DecryptBlocks(s0, c0).0
    ensures s == DecryptBlocks(s0, c0).1
  {
    var c, x0;
    out, s, c := DecryptWholeBlocks(dst, s0, c0);
    out, x0 := DecryptLastBlock(out, s.x0, c);
    s := s.(x0 := x0);
  }

  /**
   * Each whole block xored with x0 is appended as plaintext, the ciphertext
   * block becomes x0, and P6 follows.  Returns the output, the state and the
   * remaining, partial block.
   */
  method DecryptWholeBlocks(dst: seq<byte>, s0: State, c0: seq<byte>) returns (out: seq<byte>, s: State, c: seq<byte>)
    ensures |c| < Rate
    ensures out + DecryptBlocks(s, c).0 == dst + DecryptBlocks(s0, c0).0
    ensures DecryptBlocks(s, c).1 == DecryptBlocks(s0, c0).1
  {
    out, s, c := dst, s0, c0;
    while |c| >= Rate
      invariant out + DecryptBlocks(s, c).0 == dst + DecryptBlocks(s0, c0).0
      invariant DecryptBlocks(s, c).1 == DecryptBlocks(s0, c0).1
      decreases |c|
    {
      var cw := Extract64(c[..8]);
      AppendAssoc(out, Insert64(Xor64(s.x0, cw)), DecryptBlocks(P6(s.(x0 := cw)), c[8..]).0);
      c := c[8..];
      out := Append64(out, Xor64(s.x0, cw));
      s := s.(x0 := cw);
      s := P6(s);
    }
  }

  /**
   * The partial block of the ciphertext decrypted with its lanes of x0, and x0
   * with those lanes replaced by the ciphertext; the padding byte is xored in
   * last.
   */
  method DecryptLastBlock(dst: seq<byte>, x0: bv64, c: seq<byte>) returns (out: seq<byte>, w: bv64)
    requires |c| < Rate
    ensures out == dst + XorBytes(Insert64(x0)[..|c|], c)
    ensures w == Xor64(Extract64(c + Insert64(x0)[|c|..]), InsertByte(0x80, |c|))
  {
    out, w := DecryptLanes(dst, x0, c);
    ReplaceFromWord(x0, c);
    DecryptFromIsXor(x0, c);
    w := Xor64(w, InsertByte(0x80, |c|));
  }

  /**
   * For each byte of the partial block, its lane of x0 xored with it is
   * appended, then the lane is cleared and set to the byte.
   */
  method DecryptLanes(dst: seq<byte>, x0: bv64, c: seq<byte>) returns (out: seq<byte>, w: bv64)
    requires |c| < Rate
    ensures out == dst + DecryptFrom(x0, c, 0)
    ensures w == ReplaceFrom(x0, c, 0)
  {
    w, out := x0, dst;
    for i := 0 to |c|
      invariant ReplaceFrom(w, c, i) == ReplaceFrom(x0, c, 0)
      invariant out + DecryptFrom(w, c, i) == dst + DecryptFrom(x0, c, 0)
    {
      ghost var prev := w;
      AppendAssoc(out, [ExtractByte(w, i) ^ c[i]], DecryptFrom(SetByte(w, c[i], i), c, i + 1));
      out := out + [ExtractByte(w, i) ^ c[i]];
      w := w & !InsertByte(0xFF, i);
      w := w | InsertByte(c[i], i);
      assert w == SetByte(prev, c[i], i);
    }
  }

  /** An instance of the cipher, holding its key. */
  class AEAD {
    const key: seq<byte>

    /** The key has the length New demands of it. */
    predicate Valid()
    {
      |key| == KeySize
    }

    constructor(key: seq<byte>)
      requires |key| == KeySize
      ensures this.key == key && Valid()
    {
      this.key := key;
    }

    /**
     * Appends the encryption of `plaintext` under `nonce` and the tag over it
     * and `data` to `dst`.  A nonce of the wrong length is refused.
     */
    method Seal(dst: seq<byte>, nonce: seq<byte>, plaintext: seq<byte>, data: seq<byte>) returns (r: seq<byte>)
      requires Valid() && |nonce| == NonceSize
      ensures r == dst + SealSpec(key, nonce, plaintext, data)
      ensures |r| == |dst| + |plaintext| + TagSize
    {
      var k0, k1 := Extract64(key[..8]), Extract64(key[8..]);

      // initialization
      var s := State(InitX0, k0, k1, Extract64(nonce[..8]), Extract64(nonce[8..]));
      s := P12(s);
      s := KeyIntoX3X4(s, k0, k1);

      // associated data, then plaintext
      s := AbsorbAssociatedData(s, data);
      var out;
      out, s := EncryptPlaintext(dst, s, plaintext);
      ghost var ct := EncryptBlocks(Prepare(key, nonce, data), plaintext).0;

      // finalization
      s := KeyIntoX1X2(s, k0, k1);
      s := P12(s);
      s := KeyIntoX3X4(s, k0, k1);

      // tag
      AppendAssoc(dst, ct, Insert64(s.x3) + Insert64(s.x4));
      AppendAssoc(out, Insert64(s.x3), Insert64(s.x4));
      r := Append64(out, s.x3);
      r := Append64(r, s.x4);
    }

    /**
     * Decrypts `ciphertext` under `nonce` and appends the plaintext to `dst`, or
     * fails authentication when the message is shorter than a tag or its tag
     * is not the one recomputed over it and `data`.  A nonce of the wrong
     * length is refused.
     */
    method Open(dst: seq<byte>, nonce: seq<byte>, ciphertext: seq<byte>, data: seq<byte>) returns (r: Result<seq<byte>>)
      requires Valid() && |nonce| == NonceSize
      ensures |ciphertext| < TagSize ==> r == Err(AuthenticationFailed)
      ensures OpenSpec(key, nonce, ciphertext, data).Ok? ==> r == Ok(dst + OpenSpec(key, nonce, ciphertext, data).value)
      ensures OpenSpec(key, nonce, ciphertext, data).Err? ==> r == Err(AuthenticationFailed)
    {
      if |ciphertext| < TagSize {
        return Err(AuthenticationFailed);
      }
      var n := |ciphertext| - TagSize;
      var ct, tag := ciphertext[..n], ciphertext[n..];
      var k0, k1 := Extract64(key[..8]), Extract64(key[8..]);

      // initialization
      var s := State(InitX0, k0, k1, Extract64(nonce[..8]), Extract64(nonce[8..]));
      s := P12(s);
      s := KeyIntoX3X4(s, k0, k1);

      // associated data, then ciphertext
      s := AbsorbAssociatedData(s, data);
      var out;
      out, s := DecryptCiphertext(dst, s, ct);

      // finalization
      s := KeyIntoX1X2(s, k0, k1);
      s := P12(s);
      s := KeyIntoX3X4(s, k0, k1);

      // check tag
      var check := Insert64(s.x3) + Insert64(s.x4);
      assert check == Finalize(DecryptBlocks(Prepare(key, nonce, data), ct).1, key);
      if tag != check {
        return Err(AuthenticationFailed);
      }
      return Ok(out);
    }
  }

  /** An instance for `key`, or BadKeyLength when the key is not KeySize bytes long. */
  method New(key: seq<byte>) returns (r: Result<AEAD>)
    ensures r.Ok? <==> |key| == KeySize
    ensures r.Ok? ==> fresh(r.value) && r.value.key == key && r.value.Valid()
    ensures r.Err? ==> r.error == BadKeyLength
  {
    if |key| != KeySize {
      return Err(BadKeyLength);
    }
    var a := new AEAD(key);
    return Ok(a);
  }
}
