/** The secure hash algorithm SHA-1 as FIPS 180-4 defines it, for messages made of whole bytes. */
module Sha1Spec {
  type Byte = bv8
  type Word = bv32

  const BLOCK_SIZE := 64
  const TWO_32 := 0x1_0000_0000
  const TWO_64 := 0x1_0000_0000_0000_0000

  /** The five working variables, and also the five words of the hash value. */
  datatype Registers = Registers(a: Word, b: Word, c: Word, d: Word, e: Word)

  /** Section 5.3.1: the initial hash value. */
  const INITIAL := Registers(0x67452301, 0xefcdab89, 0x98badcfe, 0x10325476, 0xc3d2e1f0)

  // Section 3.2: the rotations ROTL^1, ROTL^5 and ROTL^30.
  function Rol1(x: Word): Word { (x << 1) | (x >> 31) }
  function Rol5(x: Word): Word { (x << 5) | (x >> 27) }
  function Rol30(x: Word): Word { (x << 30) | (x >> 2) }

  // Section 4.1.1: the three logical functions.
  function Ch(x: Word, y: Word, z: Word): Word { (x & y) ^ ((!x) & z) }
  function Parity(x: Word, y: Word, z: Word): Word { x ^ y ^ z }
  function Maj(x: Word, y: Word, z: Word): Word { (x & y) ^ (x & z) ^ (y & z) }

  function Ft(t: nat, x: Word, y: Word, z: Word): Word {
    if t < 20 then Ch(x, y, z)
    else if t < 40 then Parity(x, y, z)
    else if t < 60 then Maj(x, y, z)
    else Parity(x, y, z)
  }

  /** Section 4.2.1: the round constants. */
  function Kt(t: nat): Word {
    if t < 20 then 0x5a827999
    else if t < 40 then 0x6ed9eba1
    else if t < 60 then 0x8f1bbcdc
    else 0xca62c1d6
  }

  /** A word of a block, most significant byte first. */
  function BigEndian(b0: Byte, b1: Byte, b2: Byte, b3: Byte): Word {
    ((b0 as Word) << 24) | ((b1 as Word) << 16) | ((b2 as Word) << 8) | (b3 as Word)
  }

  /** The four bytes of a word, most significant first. */
  function WordBytes(w: Word): (r: seq<Byte>)
    ensures |r| == 4
  {
    [(w >> 24) as Byte, ((w >> 16) & 0xff) as Byte, ((w >> 8) & 0xff) as Byte, (w & 0xff) as Byte]
  }

  /** Section 6.1.2, step 1: the message schedule W_t of one block. */
  function W(block: seq<Byte>, t: nat): Word
    requires |block| == BLOCK_SIZE
  {
    if t < 16 then BigEndian(block[4 * t], block[4 * t + 1], block[4 * t + 2], block[4 * t + 3])
    else Rol1(W(block, t - 3) ^ W(block, t - 8) ^ W(block, t - 14) ^ W(block, t - 16))
  }

  /** The sum T of section 6.1.2, step 3, from its five terms. */
  function Temporary(p: Word, f: Word, e: Word, k: Word, w: Word): Word { p + f + e + k + w }

  /** Section 6.1.2, step 3: one round. */
  function Round(t: nat, r: Registers, w: Word): Registers {
    Registers(Temporary(Rol5(r.a), Ft(t, r.b, r.c, r.d), r.e, Kt(t), w), r.a, Rol30(r.b), r.c, r.d)
  }

  function Rounds(n: nat, h: Registers, block: seq<Byte>): Registers
    requires |block| == BLOCK_SIZE
  {
    if n == 0 then h else Round(n - 1, Rounds(n - 1, h, block), W(block, n - 1))
  }

  function Add(h: Registers, r: Registers): Registers {
    Registers(h.a + r.a, h.b + r.b, h.c + r.c, h.d + r.d, h.e + r.e)
  }

  /** Section 6.1.2, steps 1 to 4 for one block. */
  function Compress(h: Registers, block: seq<Byte>): Registers
    requires |block| == BLOCK_SIZE
  {
    Add(h, Rounds(80, h, block))
  }

  /** Section 6.1.2 over all the blocks of a padded message. */
  function HashBlocks(h: Registers, data: seq<Byte>): Registers
    requires |data| % BLOCK_SIZE == 0
    decreases |data|
  {
    if |data| == 0 then h else HashBlocks(Compress(h, data[..BLOCK_SIZE]), data[BLOCK_SIZE..])
  }

  /** The 64-bit big-endian field holding the message length in bits. */
  function LengthField(bytes: nat): (r: seq<Byte>)
    ensures |r| == 8
  {
    WordBytes((8 * bytes / TWO_32 % TWO_32) as Word) + WordBytes((8 * bytes % TWO_32) as Word)
  }

  function Zeros(n: nat): seq<Byte> { seq(n, _ => 0) }

  /** How many zero bytes section 5.1.1 puts after the byte that starts the padding. */
  function ZeroCount(bytes: nat): (r: nat)
    ensures (bytes + 1 + r + 8) % BLOCK_SIZE == 0
  {
    (119 - bytes % BLOCK_SIZE) % BLOCK_SIZE
  }

  /** Section 5.1.1: the padded message. */
  function Pad(message: seq<Byte>): (r: seq<Byte>)
    ensures |r| % BLOCK_SIZE == 0
  {
    message + [0x80] + Zeros(ZeroCount(|message|)) + LengthField(|message|)
  }

  function DigestBytes(h: Registers): seq<Byte> {
    WordBytes(h.a) + WordBytes(h.b) + WordBytes(h.c) + WordBytes(h.d) + WordBytes(h.e)
  }

  /** The SHA-1 digest of a message. */
  function Sha1(message: seq<Byte>): seq<Byte> {
    DigestBytes(HashBlocks(INITIAL, Pad(message)))
  }

  /** Section 5.1.1 asks for the least number of zero bits that completes the block. */
  lemma ZeroCountIsLeast(bytes: nat, k: nat)
    requires (bytes + 1 + k + 8) % BLOCK_SIZE == 0
    ensures ZeroCount(bytes) <= k
  {
    var m := bytes % BLOCK_SIZE;
    assert bytes == BLOCK_SIZE * (bytes / BLOCK_SIZE) + m;
  }

  lemma {:induction false} HashBlocksAppend(h: Registers, x: seq<Byte>, y: seq<Byte>)
    requires |x| % BLOCK_SIZE == 0 && |y| % BLOCK_SIZE == 0
    ensures |x + y| % BLOCK_SIZE == 0
    ensures HashBlocks(h, x + y) == HashBlocks(HashBlocks(h, x), y)
    decreases |x|
  {
    if |x| == 0 {
      assert x + y == y;
    } else {
      assert (x + y)[..BLOCK_SIZE] == x[..BLOCK_SIZE];
      assert (x + y)[BLOCK_SIZE..] == x[BLOCK_SIZE..] + y;
      HashBlocksAppend(Compress(h, x[..BLOCK_SIZE]), x[BLOCK_SIZE..], y);
    }
  }
}
