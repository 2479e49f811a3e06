# Ascon-128 AEAD in Dafny

This project models `ascon.go`, a Go implementation of the Ascon-128
authenticated cipher (Ascon v1.2 submission: 128-bit key and nonce, 64-bit
rate, a 12-round initial and final permutation and a 6-round permutation
between blocks), and proves it correct against a block-level reference.

Four modules, one per layer of the implementation:

- `bytes.dfy` (module `Bytes`). The byte lanes of a 64-bit word and the
  big-endian packing of words: `insertByte`, `extractByte`, `insert64`,
  `extract64` and `append64`. This file also holds the clear-and-set of one
  lane that Open's partial block uses. The lemmas say what each word
  operation does to every lane. Packing and unpacking are proved to be
  inverses.
- `permutation.dfy` (module `Permutation`). The five-word state and the
  round. Each `rotr(x, k)` of the Go code is the built-in right rotation
  `x.RotateRight(k)`. `Round` follows the Go function's scheduled sequence of
  reassignments. It is proved equal to `SpecRound`, which is the round as
  the Ascon design describes it: constant addition, the bit-sliced S-box and
  the linear diffusion layer. `p12` and `p6` apply the round once per
  constant. The iteration, which splits the constants in halves, is proved to
  be the fold of the round over the constants one at a time. P12 is proved to
  be six rounds followed by P6, and both are proved to be the unrolled calls
  of the Go code.
- `duplex.dfy` (module `Duplex`). The constants and the initial word
  `initX0`. It also holds the mode as functions on the state: initialization,
  absorption of the associated data, encryption and decryption block by
  block, finalization and the tag. `SealSpec` and `OpenSpec` are built from
  these. This is where the round trips are proved:
  - Decrypting an encryption gives back the plaintext and the same final
    state, so Open recomputes Seal's tag.
  - Encrypting a decryption gives back the ciphertext.
  - Open succeeds with `p` exactly when the message is the sealing of `p`.
- `aead.dfy` (module `Ascon`). The `AEAD` object holding its key, `New`,
  and `Seal` and `Open` as the Go code runs them. Each loop over whole blocks
  and each byte loop over the last, partial block is a `while` or `for` loop
  with invariants. Each method is proved to compute the corresponding
  function of module `Duplex`.

The five state words `x0..x4` of the Go code are held in one `State` value,
and each assignment to a word is an update of that field.

Two behaviours of the code are worth stating, because a description of the
Ascon cipher alone would suggest otherwise:

- `Seal` appends to `dst`, so its result has length
  `len(dst) + len(plaintext) + 16`. An Ascon-128 ciphertext with its tag is
  `len(plaintext) + 16` bytes, and this is what `Seal` returns for an empty
  `dst`.
- A key that is not 16 bytes long gives its own error, `"bad key length"`.
  The model represents it as `BadKeyLength`, separate from
  `AuthenticationFailed`.

## Model

| member | source | states |
|---|---|---|
| Bytes.ExtractInsertByte | ascon.go:27-28 | lane `m` of `insertByte(b, n)` is `b` when `m == n` and zero otherwise, so `extractByte` reads back the byte `insertByte` placed |
| Bytes.ExtractByteXor | ascon.go:27-28 | xoring two words xors each of their byte lanes independently |
| Bytes.ExtractClearSet | ascon.go:227-228 | clearing lane `n` with `&^ insertByte(0xFF, n)` and then or-ing in `insertByte(b, n)` makes lane `n` equal to `b` and leaves the other seven lanes unchanged |
| Bytes.PackUnpack | ascon.go:30-31 | reading back the eight big-endian bytes written for a word gives the word |
| Bytes.UnpackPack | ascon.go:30-31 | writing out the word read from eight bytes gives those eight bytes |
| Bytes.Append64 | ascon.go:33-37 | the result keeps `dst` as its prefix, is eight bytes longer, and its new eight bytes read back as `u` |
| Permutation.RotrIsRotateRight | ascon.go:39 | `rotr(u, n)`, a rotation left by -n, is written in `Round` as the right rotation `u.RotateRight(n)`; at each of the nine amounts the round uses, that rotation is `u` shifted right by `n` or'd with `u` shifted left by `64 - n` |
| Permutation.RoundIsSpecRound | ascon.go:41-82 | the scheduled round computes exactly the layered Ascon round (constant addition, S-box, linear diffusion with rotation pairs (19,28), (61,39), (1,6), (10,17), (7,41)) on all inputs |
| Permutation.RoundConstantsFormula | ascon.go:85-96 | the twelve round constants are `(15 - i) * 16 + i`, for `i` from 0 to 11 |
| Permutation.IterateIsFold | ascon.go:84-108 | for any round function, iterating it over the constants by halves gives the same state as applying it once per constant, first constant first, as the permutations' sequences of calls do |
| Permutation.P12IsSixRoundsThenP6 | ascon.go:84-108 | `p12` is the rounds of its first six constants followed by `p6`, whose constants are the last six of `p12` |
| Permutation.P6Unrolled | ascon.go:100-108 | `p6` is six rounds with constants 0x96, 0x87, 0x78, 0x69, 0x5A, 0x4B, in this order |
| Permutation.P12Unrolled | ascon.go:84-98 | `p12` is twelve rounds with constants 0xF0 down to 0x4B, in this order |
| Duplex.InitX0Value | ascon.go:24 | the initial word is 0x80400c0600000000: key bits 128, rate bits 64 and round counts 12 and 6 in its four most significant bytes |
| Duplex.Pad | ascon.go:145-148 | the padded last block is eight bytes: the data bytes, then 0x80, then zeros |
| Duplex.EncryptBlocks | ascon.go:153-164 | plaintext processing emits exactly one ciphertext byte per plaintext byte |
| Duplex.DecryptBlocks | ascon.go:217-230 | ciphertext processing emits exactly one plaintext byte per ciphertext byte |
| Duplex.Finalize | ascon.go:166-175 | the tag is `TagSize` (16) bytes long |
| Duplex.SealSpec | ascon.go:116-178 | a sealed message is 16 bytes longer than its plaintext |
| Duplex.OpenSpec | ascon.go:181-248 | a successful open needs at least a tag's worth of input and yields 16 bytes fewer than it was given |
| Duplex.XorFromPad | ascon.go:145-148 | the loop xoring each byte of a partial block into its lane of x0, followed by the padding byte, xors the whole padded block into x0 |
| Duplex.EncryptFromIsXor | ascon.go:160-163 | the partial-block loop of Seal emits the leading bytes of x0 xored with the plaintext bytes |
| Duplex.ReplaceFromWord | ascon.go:225-229 | after Open's partial-block loop, x0 holds the ciphertext bytes in its leading lanes and its old bytes in the rest |
| Duplex.DecryptFromIsXor | ascon.go:225-226 | the partial-block loop of Open emits the leading bytes of x0 xored with the ciphertext bytes |
| Duplex.LastBlockState | ascon.go:225-230 | replacing the leading lanes of x0 with the ciphertext bytes and xoring in 0x80 gives the same x0 as Seal's xoring in of the padded plaintext block (lines 160-164) |
| Duplex.DecryptEncrypt | ascon.go:217-230 | decrypting Seal's ciphertext gives back the plaintext and leaves the state exactly as Seal left it, so both compute the same tag |
| Duplex.EncryptDecrypt | ascon.go:153-164 | encrypting what Open decrypted gives back the ciphertext and the same final state |
| Duplex.OpenSeal | ascon.go:181-248 | opening a sealed message with the same key, nonce and associated data gives back the plaintext |
| Duplex.OpenIffSeal | ascon.go:181-248 | a message opens to `p` if and only if it is the sealing of `p` (either direction) |
| Ascon.AbsorbAssociatedData | ascon.go:138-151 | the loop absorbs the associated data only when it is non-empty, and always sets the domain bit in x4 |
| Ascon.AbsorbData | ascon.go:139-149 | the whole blocks, then the padded last block, are absorbed, each followed by `p6` |
| Ascon.AbsorbWholeBlocks | ascon.go:140-144 | the loop over whole blocks leaves fewer than 8 bytes and keeps the absorption of the rest equal to the absorption of the whole |
| Ascon.XorLastBlock | ascon.go:145-148 | the byte loop plus the padding byte xors the padded block into x0 |
| Ascon.EncryptPlaintext | ascon.go:153-164 | the output is `dst` followed by the ciphertext, and the state is the encryption's final state |
| Ascon.EncryptWholeBlocks | ascon.go:154-159 | the loop appends one ciphertext block per whole plaintext block and preserves the reference ciphertext and final state of the remainder |
| Ascon.EncryptLastBlock | ascon.go:160-164 | the byte loop appends the leading bytes of x0 xored with the plaintext, and x0 ends xored with the padded block |
| Ascon.DecryptCiphertext | ascon.go:217-230 | the output is `dst` followed by the plaintext, and the state is the decryption's final state |
| Ascon.DecryptWholeBlocks | ascon.go:218-224 | the loop appends `x0 ^ c` per whole ciphertext block, sets x0 to `c`, and preserves the reference plaintext and final state of the remainder |
| Ascon.DecryptLastBlock | ascon.go:225-230 | the byte loop appends the leading bytes of x0 xored with the ciphertext; x0 ends as the ciphertext bytes over the old bytes, xored with 0x80 at the padding lane |
| Ascon.DecryptLanes | ascon.go:225-229 | each step of the loop appends lane `i` of x0 xored with `c[i]` and then clears lane `i` and sets it to `c[i]` |
| Ascon.AEAD.constructor | ascon.go:261 | the instance holds the given 16-byte key |
| Ascon.AEAD.Seal | ascon.go:116-178 | the result is `dst` followed by the sealed message (ciphertext, then tag x3, x4), of length `len(dst) + len(plaintext) + 16`; a nonce of the wrong length is a precondition |
| Ascon.AEAD.Open | ascon.go:181-248 | a ciphertext shorter than 16 bytes fails authentication; otherwise the result is `dst` followed by the plaintext when the recomputed tag equals the trailing 16 bytes, and an authentication failure when it does not |
| Ascon.New | ascon.go:257-262 | an instance is returned if and only if the key is 16 bytes long; otherwise the error is BadKeyLength |

## Left out

- Ascon.AEAD.Open: the tag comparison `subtle.ConstantTimeCompare` is modelled as sequence equality. Timing is not modelled.
- Ascon.AEAD.Seal and Ascon.AEAD.Open: a nonce that is not 16 bytes long makes the Go code panic. It is a precondition here.
- Ascon.AEAD.Seal: Go slices have a capacity and may alias. The model treats `dst` and the result as values. It does not model the reallocation to capacity `len(dst) + len(plaintext) + 16` (lines 121-123), nor any aliasing between `dst` and `plaintext`.
- Ascon.AEAD.Open: Go appends the decrypted bytes to `dst` before it checks the tag. So on an authentication failure, `dst`'s spare capacity may already hold plaintext bytes. The model returns only the error, because it has no slice capacity.
- Ascon.New: the Go instance keeps the caller's key slice, so a later change to that slice changes the key. The model holds an immutable copy.
- The `NonceSize` and `TagSize` accessors (lines 251-254) only return constants. They are modelled as the constants `NonceSize` and `TagSize` of module `Duplex`.
- Confidentiality and authenticity, the cryptographic security of the scheme, are not stated. The model proves functional correctness only.
- Constant-time behaviour of the permutation is not modelled.
- Go's single `Seal` and `Open` functions are split into one method per phase: associated data, whole blocks and the last block. Seal and Open call the same `AbsorbAssociatedData`. The Go copy in `Open` reads `extract64(data)` where `Seal` reads `extract64(data[:8])`, and `extract64` reads only the first eight bytes either way.
