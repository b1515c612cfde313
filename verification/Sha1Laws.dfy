/**
 Laws of SHA-1 apart from its definitions: its rotations and constants as numbers, its logical functions by their bits,
 its schedule and its rounds in other forms, and the form of a padded message.
 */
module Sha1Laws {
  import opened Sha1Spec
  import opened Sha1

  // ---- the rotations -------------------------------------------------------------------------------

  function Value(x: Word): nat { x as nat }

  function Up(x: Word): Word { x << 1 }

  function Top(x: Word): Word { x >> 31 }

  function Or(u: Word, v: Word): Word { u | v }

  lemma NumberDoubled(x: Word)
    ensures (x << 1) as nat == x as nat * 2 % TWO_32
  {
  }

  lemma NumberWithOne(x: Word)
    ensures ((x << 1) | 1) as nat == (x << 1) as nat + 1
  {
  }

  lemma NumberTop(x: Word)
    ensures (x >> 31) as nat == x as nat / 0x8000_0000
  {
  }

  lemma Same(x: Word, y: Word)
    requires x == y
    ensures Value(x) == y as nat
  {
    hide *;
    ValueIs(x);
  }

  lemma ValueIs(x: Word)
    ensures Value(x) == x as nat
  {
  }

  lemma Doubled(x: Word)
    ensures Value(Up(x)) == Value(x) * 2 % TWO_32
  {
    NumberDoubled(x);
    Same(x, x);
    Same(Up(x), x << 1);
    hide *;
  }

  lemma WithOne(x: Word)
    ensures Value(Or(Up(x), 1)) == Value(Up(x)) + 1
  {
    NumberWithOne(x);
    Same(Up(x), x << 1);
    Same(Or(Up(x), 1), (x << 1) | 1);
    hide *;
  }

  lemma WithZero(u: Word)
    ensures Or(u, 0) == u
  {
  }

  lemma TopBit(x: Word)
    ensures Value(Top(x)) == Value(x) / 0x8000_0000
  {
    NumberTop(x);
    Same(x, x);
    Same(Top(x), x >> 31);
    hide *;
  }

  lemma TopBitIs(x: Word)
    ensures Top(x) == 0 || Top(x) == 1
  {
    assert x >> 31 == 0 || x >> 31 == 1;
  }

  lemma ValueOfBit()
    ensures Value(0) == 0 && Value(1) == 1
  {
  }

  lemma RotatedBits(x: Word)
    ensures Rol1(x) == Or(Up(x), Top(x))
  {
  }

  lemma Combined(x: Word)
    ensures Value(Or(Up(x), Top(x))) == Value(Up(x)) + Value(Top(x))
  {
    WithOne(x);
    WithZero(Up(x));
    ValueOfBit();
    TopBitIs(x);
    hide *;
    if Top(x) == 0 { assert Or(Up(x), Top(x)) == Or(Up(x), 0); } else { assert Top(x) == 1; }
  }

  /** A rotation by one doubles the number, and the bit that is carried out comes back in at the end. */
  lemma RotatesByOne(x: Word)
    ensures Rol1(x) as nat == x as nat * 2 % TWO_32 + x as nat / 0x8000_0000
  {
    Doubled(x);
    TopBit(x);
    RotatedBits(x);
    Combined(x);
    hide Rol1, Up, Top, Or;
  }

  /** The upper bits of x, and the lower ones, which are below q, exchanged. */
  predicate Exchanged(x: nat, p: nat, q: nat, y: nat, high: nat, low: nat) {
    high < p && low < q && x == high * q + low && y == low * p + high
  }

  lemma LowerBits(low: nat, p: nat, q: nat) returns (low': nat, b: nat)
    requires p * q == 0x8000_0000 && low < 2 * q
    ensures b <= 1 && low' < q && low == low' + b * q
    ensures low * p == low' * p + b * 0x8000_0000 && low' * p + p <= 0x8000_0000
  {
    b := if low < q then 0 else 1;
    low' := low - b * q;
    if b == 1 { assert (low' + q) * p == low' * p + p * q; }
    assert (low' + 1) * p <= q * p;
  }

  lemma DoubledNumber(y: nat, b: nat, rest: nat)
    requires b <= 1 && rest < 0x8000_0000 && y == rest + b * 0x8000_0000
    ensures y * 2 % TWO_32 + y / 0x8000_0000 == 2 * rest + b
  {
  }

  /** A rotation by one takes the uppermost of the lower bits over. */
  lemma OneBitMore(x: nat, p: nat, q: nat, y: nat, high: nat, low: nat) returns (high': nat, low': nat)
    requires p * q == 0x8000_0000 && Exchanged(x, p, 2 * q, y, high, low)
    ensures Exchanged(x, 2 * p, q, y * 2 % TWO_32 + y / 0x8000_0000, high', low')
  {
    var b;
    low', b := LowerBits(low, p, q);
    high' := 2 * high + b;
    DoubledNumber(y, b, low' * p + high);
    UpperBits(high, low, high', low', b, p, q);
  }

  lemma UpperBits(high: nat, low: nat, high': nat, low': nat, b: nat, p: nat, q: nat)
    requires b <= 1 && high' == 2 * high + b && low == low' + b * q
    ensures high * (2 * q) + low == high' * q + low' && 2 * (low' * p + high) + b == low' * (2 * p) + high'
  {
  }

  lemma RotateOnce(x: nat, p: nat, q: nat, y: Word, high: nat, low: nat) returns (high': nat, low': nat)
    requires p * q == 0x8000_0000 && Exchanged(x, p, 2 * q, y as nat, high, low)
    ensures Exchanged(x, 2 * p, q, Rol1(y) as nat, high', low')
  {
    hide Rol1, Exchanged;
    RotatesByOne(y);
    high', low' := OneBitMore(x, p, q, y as nat, high, low);
  }

  /** Two rotations by one exchange the upper two bits with the others. */
  lemma RotateTwice(x: Word) returns (high: nat, low: nat)
    ensures Exchanged(x as nat, 4, 0x4000_0000, Rol1(Rol1(x)) as nat, high, low)
  {
    hide Rol1;
    high, low := RotateOnce(x as nat, 1, 0x8000_0000, x, 0, x as nat);
    high, low := RotateOnce(x as nat, 2, 0x4000_0000, Rol1(x), high, low);
  }

  /** A rotation by five is five rotations by one. */
  lemma FiveTimes(x: Word)
    ensures Rol5(x) == Rol1(Rol1(Rol1(Rol1(Rol1(x)))))
  {
  }

  /** A rotation by thirty is undone by two rotations by one. */
  lemma TwoMore(x: Word)
    ensures Rol1(Rol1(Rol30(x))) == x
  {
  }

  lemma FiveUp(x: nat, y: nat, high: nat, low: nat)
    requires Exchanged(x, 32, 0x800_0000, y, high, low)
    ensures y == x * 32 % TWO_32 + x / 0x800_0000
  {
    assert x * 32 == high * TWO_32 + low * 32;
  }

  lemma TwoBack(x: nat, y: nat, high: nat, low: nat)
    requires Exchanged(y, 4, 0x4000_0000, x, high, low)
    ensures y == x * 0x4000_0000 % TWO_32 + x / 4
  {
    assert x * 0x4000_0000 == low * TWO_32 + high * 0x4000_0000;
  }

  lemma RotatesByFive(x: Word)
    ensures Rol5(x) as nat == x as nat * 32 % TWO_32 + x as nat / 0x800_0000
  {
    hide Rol1, Rol5, Exchanged;
    FiveTimes(x);
    var n := x as nat;
    var high, low := RotateTwice(x);
    var y := Rol1(Rol1(x));
    high, low := RotateOnce(n, 4, 0x2000_0000, y, high, low);
    high, low := RotateOnce(n, 8, 0x1000_0000, Rol1(y), high, low);
    high, low := RotateOnce(n, 16, 0x800_0000, Rol1(Rol1(y)), high, low);
    FiveUp(n, Rol5(x) as nat, high, low);
  }

  lemma RotatesByThirty(x: Word)
    ensures Rol30(x) as nat == x as nat * 0x4000_0000 % TWO_32 + x as nat / 4
  {
    hide Rol1, Rol30, Exchanged;
    TwoMore(x);
    var high, low := RotateTwice(Rol30(x));
    TwoBack(x as nat, Rol30(x) as nat, high, low);
  }

  // ---- the logical functions -----------------------------------------------------------------------

  /** Ch takes the bits of y where x has ones, and those of z elsewhere. */
  lemma ChWhereOne(x: Word, y: Word, z: Word)
    ensures x & Ch(x, y, z) == x & y
  {
  }

  lemma ChWhereZero(x: Word, y: Word, z: Word)
    ensures (!x) & Ch(x, y, z) == (!x) & z
  {
  }

  /** Maj has the bits in which two of its arguments agree, whichever they are. */
  lemma MajWhereEqual(x: Word, y: Word, z: Word)
    ensures (!(x ^ y)) & Maj(x, y, z) == (!(x ^ y)) & x
  {
  }

  lemma MajSymmetric(x: Word, y: Word, z: Word)
    ensures Maj(x, y, z) == Maj(y, z, x)
  {
  }

  /** A word and its four bytes are one and the same. */
  lemma BytesOfWord(b0: Byte, b1: Byte, b2: Byte, b3: Byte)
    ensures WordBytes(BigEndian(b0, b1, b2, b3)) == [b0, b1, b2, b3]
  {
  }

  // ---- the constants -------------------------------------------------------------------------------

  /** The number whose square root a round constant holds, in units of two to the minus thirty. */
  function Radicand(t: nat): nat { if t < 20 then 2 else if t < 40 then 3 else if t < 60 then 5 else 10 }

  lemma RoundConstantIsRoot(t: nat)
    ensures var k := Kt(t) as nat;
            k * k <= Radicand(t) * 0x1000_0000_0000_0000 < (k + 1) * (k + 1)
  {
  }

  /** The initial hash value, in the memory of a little-endian machine, counts up and down again by nibbles. */
  lemma InitialCounts()
    ensures StoreLittle(INITIAL.a) + StoreLittle(INITIAL.b) + StoreLittle(INITIAL.c) + StoreLittle(INITIAL.d)
         == [0x01, 0x23, 0x45, 0x67, 0x89, 0xab, 0xcd, 0xef, 0xfe, 0xdc, 0xba, 0x98, 0x76, 0x54, 0x32, 0x10]
    ensures StoreLittle(INITIAL.e) == [0xf0, 0xe1, 0xd2, 0xc3]
  {
  }

  // ---- the message schedule ------------------------------------------------------------------------

  function Xor(x: Word, y: Word): Word { x ^ y }

  lemma RotatedXor(x: Word, y: Word)
    ensures Rol1(Xor(x, y)) == Xor(Rol1(x), Rol1(y))
  {
  }

  /** What two sums have in common cancels. */
  lemma Cancels(x: Word, y: Word, k: Word)
    ensures Xor(Xor(x, k), Xor(k, y)) == Xor(x, y)
  {
  }

  lemma Exchanges(p: Word, q: Word, r: Word, s: Word)
    ensures Xor(Xor(p, q), Xor(r, s)) == Xor(Xor(p, r), Xor(q, s))
  {
    XorFour(p, q, r, s);
    XorFour(p, r, q, s);
    MiddleExchanges(p, q, r, s);
    hide Xor;
  }

  lemma MiddleExchanges(p: Word, q: Word, r: Word, s: Word)
    ensures p ^ q ^ r ^ s == p ^ r ^ q ^ s
  {
  }

  lemma XorFour(p: Word, q: Word, r: Word, s: Word)
    ensures Xor(Xor(p, q), Xor(r, s)) == p ^ q ^ r ^ s
  {
  }

  function Four(p: Word, q: Word, r: Word, s: Word): Word { Xor(Xor(p, q), Xor(r, s)) }

  lemma RotatedFour(p: Word, q: Word, r: Word, s: Word)
    ensures Rol1(Four(p, q, r, s)) == Four(Rol1(p), Rol1(q), Rol1(r), Rol1(s))
  {
    RotatedXor(Xor(p, q), Xor(r, s));
    RotatedXor(p, q);
    RotatedXor(r, s);
    hide Rol1, Xor;
  }

  /** Of the sixteen words that make four, six are there twice. */
  lemma SumOfSums(w6: Word, w11: Word, w16: Word, w17: Word, w19: Word, w22: Word, w24: Word, w28: Word, w30: Word,
                  w32: Word)
    ensures Four(Four(w6, w11, w17, w19), Four(w11, w16, w22, w24), Four(w17, w22, w28, w30), Four(w19, w24, w30, w32))
         == Four(w6, w16, w28, w32)
  {
    Exchanges(Xor(w6, w11), Xor(w17, w19), Xor(w11, w16), Xor(w22, w24));
    Cancels(w6, w16, w11);
    Exchanges(Xor(w17, w22), Xor(w28, w30), Xor(w19, w24), Xor(w30, w32));
    Cancels(w28, w32, w30);
    Exchanges(w17, w22, w19, w24);
    Cancels(Xor(w6, w16), Xor(w28, w32), Xor(Xor(w17, w19), Xor(w22, w24)));
    hide Xor;
  }

  lemma WordIsSum(block: seq<Byte>, t: nat)
    requires |block| == BLOCK_SIZE && t >= 16
    ensures W(block, t) == Rol1(Four(W(block, t - 3), W(block, t - 8), W(block, t - 14), W(block, t - 16)))
  {
    XorFour(W(block, t - 3), W(block, t - 8), W(block, t - 14), W(block, t - 16));
    hide Rol1, Xor;
  }

  /** From word 32 on, a word also comes of those twice as far back, rotated by two. */
  lemma ScheduleByTwo(block: seq<Byte>, t: nat)
    requires |block| == BLOCK_SIZE && t >= 32
    ensures W(block, t) == Rol1(Rol1(Four(W(block, t - 6), W(block, t - 16), W(block, t - 28), W(block, t - 32))))
  {
    hide W, Rol1, Four;
    var w6, w11, w16, w17 := W(block, t - 6), W(block, t - 11), W(block, t - 16), W(block, t - 17);
    var w19, w22, w24, w28 := W(block, t - 19), W(block, t - 22), W(block, t - 24), W(block, t - 28);
    var w30, w32 := W(block, t - 30), W(block, t - 32);
    WordIsSum(block, t);
    WordIsSum(block, t - 3);
    WordIsSum(block, t - 8);
    WordIsSum(block, t - 14);
    WordIsSum(block, t - 16);
    RotatedFour(Four(w6, w11, w17, w19), Four(w11, w16, w22, w24), Four(w17, w22, w28, w30), Four(w19, w24, w30, w32));
    SumOfSums(w6, w11, w16, w17, w19, w22, w24, w28, w30, w32);
  }

  // ---- the rounds ----------------------------------------------------------------------------------

  /** The first working variable after n rounds. */
  function First(h: Registers, block: seq<Byte>, n: nat): Word
    requires |block| == BLOCK_SIZE
  {
    Rounds(n, h, block).a
  }

  lemma OneRound(h: Registers, block: seq<Byte>, t: nat)
    requires |block| == BLOCK_SIZE
    ensures var r, r' := Rounds(t, h, block), Rounds(t + 1, h, block);
            && r'.a == Temporary(Rol5(r.a), Ft(t, r.b, r.c, r.d), r.e, Kt(t), W(block, t))
            && r'.b == r.a && r'.c == Rol30(r.b) && r'.d == r.c && r'.e == r.d
  {
    hide Ft, Kt, Rol5, Rol30, Temporary, W;
  }

  /** The other working variables are earlier values of the first one. */
  lemma OthersAreEarlier(h: Registers, block: seq<Byte>, t: nat)
    requires |block| == BLOCK_SIZE && t >= 4
    ensures Rounds(t, h, block)
         == Registers(First(h, block, t), First(h, block, t - 1), Rol30(First(h, block, t - 2)),
                      Rol30(First(h, block, t - 3)), Rol30(First(h, block, t - 4)))
  {
    OneRound(h, block, t - 1);
    OneRound(h, block, t - 2);
    OneRound(h, block, t - 3);
    OneRound(h, block, t - 4);
    hide Rounds, Rol30, Rol5, Ft, Kt, Temporary, W;
  }

  /** The logical function of each twenty rounds: Ch, Parity, Maj, and Parity again. */
  function Logical(twenty: nat, x: Word, y: Word, z: Word): Word {
    if twenty == 0 then Ch(x, y, z) else if twenty == 2 then Maj(x, y, z) else x ^ y ^ z
  }

  lemma FunctionOfRound(t: nat, x: Word, y: Word, z: Word)
    requires t < 80
    ensures Ft(t, x, y, z) == Logical(t / 20, x, y, z)
  {
    hide Ch, Maj;
  }

  lemma TemporaryIs(p: Word, f: Word, e: Word, k: Word, w: Word)
    ensures Temporary(p, f, e, k, w) == p + f + e + k + w
  {
  }

  /** So the rounds are one recurrence, of the first working variable on its last five values. */
  lemma RoundsRecur(h: Registers, block: seq<Byte>, t: nat)
    requires |block| == BLOCK_SIZE && 4 <= t < 80
    ensures var c, d, e := Rol30(First(h, block, t - 2)), Rol30(First(h, block, t - 3)), Rol30(First(h, block, t - 4));
            First(h, block, t + 1)
            == Temporary(Rol5(First(h, block, t)), Logical(t / 20, First(h, block, t - 1), c, d), e, Kt(t), W(block, t))
  {
    hide Rounds, Rol30, Rol5, Ft, Logical, Temporary, Kt, W;
    OneRound(h, block, t);
    OthersAreEarlier(h, block, t);
    FunctionOfRound(t, First(h, block, t - 1), Rol30(First(h, block, t - 2)), Rol30(First(h, block, t - 3)));
  }

  // ---- the padded message --------------------------------------------------------------------------

  lemma WordOfBytes(w: Word)
    ensures var b := WordBytes(w); BigEndian(b[0], b[1], b[2], b[3]) == w
  {
  }

  function WordAt(s: seq<Byte>, i: nat): Word
    requires i + 4 <= |s|
  {
    BigEndian(s[i], s[i + 1], s[i + 2], s[i + 3])
  }

  lemma LengthWordsAt(p: seq<Byte>, high: Word, low: Word)
    requires |p| >= 8 && p[|p| - 8..] == WordBytes(high) + WordBytes(low)
    ensures WordAt(p, |p| - 8) == high && WordAt(p, |p| - 4) == low
  {
    hide WordBytes, BigEndian;
    assert forall i :: 0 <= i < 4 ==> p[|p| - 8 + i] == p[|p| - 8..][i] == WordBytes(high)[i];
    assert forall i :: 0 <= i < 4 ==> p[|p| - 4 + i] == p[|p| - 8..][4 + i] == WordBytes(low)[i];
    WordOfBytes(high);
    WordOfBytes(low);
  }

  lemma PadBytes(message: seq<Byte>)
    ensures var p, n := Pad(message), |message|;
            && |p| % 64 == 0 && n + 9 <= |p| < n + 9 + 64
            && p[..n] == message && p[n] == 0x80 && (forall i :: n < i < |p| - 8 ==> p[i] == 0)
            && p[|p| - 8..] == LengthField(n)
  {
    hide LengthField;
  }

  /**
   A padded message is the message, a byte whose first bit alone is set, fewer than 64 zeros, and the length of the
   message in bits, the more significant of its two words first.
   */
  lemma PadForm(message: seq<Byte>)
    ensures var p, n := Pad(message), |message|;
            && |p| % 64 == 0 && n + 9 <= |p| < n + 9 + 64
            && p[..n] == message && p[n] == 0x80 && (forall i :: n < i < |p| - 8 ==> p[i] == 0)
            && WordAt(p, |p| - 8) == (8 * n / TWO_32 % TWO_32) as Word && WordAt(p, |p| - 4) == (8 * n % TWO_32) as Word
  {
    hide WordBytes, WordAt, Pad;
    PadBytes(message);
    var n := |message|;
    LengthWordsAt(Pad(message), (8 * n / TWO_32 % TWO_32) as Word, (8 * n % TWO_32) as Word);
  }

  /** The digest is the five words of the last hash value. */
  lemma DigestForm(h: Registers)
    ensures var d := DigestBytes(h);
            |d| == 20 && WordAt(d, 0) == h.a && WordAt(d, 4) == h.b && WordAt(d, 8) == h.c && WordAt(d, 12) == h.d
            && WordAt(d, 16) == h.e
  {
    WordOfBytes(h.a);
    WordOfBytes(h.b);
    WordOfBytes(h.c);
    WordOfBytes(h.d);
    WordOfBytes(h.e);
    hide WordBytes, BigEndian;
  }
}
