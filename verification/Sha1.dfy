/** The streaming SHA-1 of src/Crypto/sha1.c. */
module Sha1 {
  import opened Sha1Spec

  const BUFFER_SIZE := 128

  /** The bytes that pad the buffer. */
  const FILL: seq<Byte> := [0x80] + Zeros(63)

  // ---- words in the memory of a little-endian machine -------------------------------------

  function Swap(n: Word): Word {
    (n << 24) | ((n & 0xff00) << 8) | ((n >> 8) & 0xff00) | (n >> 24)
  }

  function LoadLittle(b0: Byte, b1: Byte, b2: Byte, b3: Byte): Word {
    (b0 as Word) | ((b1 as Word) << 8) | ((b2 as Word) << 16) | ((b3 as Word) << 24)
  }

  function StoreLittle(w: Word): seq<Byte> {
    [(w & 0xff) as Byte, ((w >> 8) & 0xff) as Byte, ((w >> 16) & 0xff) as Byte, (w >> 24) as Byte]
  }

  /** Swapping after a little-endian load reads the word most significant byte first. */
  lemma SwapAfterLoad(b0: Byte, b1: Byte, b2: Byte, b3: Byte)
    ensures Swap(LoadLittle(b0, b1, b2, b3)) == BigEndian(b0, b1, b2, b3)
  {
  }

  /** Swapping before a little-endian store writes the word most significant byte first. */
  lemma SwapBeforeStore(w: Word)
    ensures StoreLittle(Swap(w)) == WordBytes(w)
  {
  }

  // ---- the round functions as the source writes them ---------------------------------------

  function F1(b: Word, c: Word, d: Word): Word { d ^ (b & (c ^ d)) }
  function F2(b: Word, c: Word, d: Word): Word { b ^ c ^ d }
  function F3(b: Word, c: Word, d: Word): Word { (b & c) | (d & (b | c)) }
  function F4(b: Word, c: Word, d: Word): Word { b ^ c ^ d }

  /** The function that round t of the written-out list names. */
  function F(t: nat, b: Word, c: Word, d: Word): Word {
    if t < 20 then F1(b, c, d)
    else if t < 40 then F2(b, c, d)
    else if t < 60 then F3(b, c, d)
    else F4(b, c, d)
  }

  function K(t: nat): Word {
    if t < 20 then 0x5a827999
    else if t < 40 then 0x6ed9eba1
    else if t < 60 then 0x8f1bbcdc
    else 0xca62c1d6
  }

  lemma F1IsCh(b: Word, c: Word, d: Word)
    ensures F1(b, c, d) == Ch(b, c, d)
  {
    assert d ^ (b & (c ^ d)) == (b & c) ^ ((!b) & d);
  }

  lemma F3IsMaj(b: Word, c: Word, d: Word)
    ensures F3(b, c, d) == Maj(b, c, d)
  {
    assert (b & c) | (d & (b | c)) == (b & c) ^ (b & d) ^ (c & d);
  }

  lemma FIsFt(t: nat, b: Word, c: Word, d: Word)
    ensures F(t, b, c, d) == Ft(t, b, c, d)
  {
    F1IsCh(b, c, d);
    F3IsMaj(b, c, d);
  }

  lemma KIsKt(t: nat)
    ensures K(t) == Kt(t)
  {
  }

  /** What the macro R leaves in its last register, whose old value is e. */
  function Accumulate(e: Word, p: Word, f: Word, k: Word, w: Word): Word { e + (p + f + k + w) }

  lemma AccumulateIsTemporary(e: Word, p: Word, f: Word, k: Word, w: Word)
    ensures Accumulate(e, p, f, k, w) == Temporary(p, f, e, k, w)
  {
    assert e + (p + f + k + w) == p + f + e + k + w;
  }

  /** The last register after round t of the written-out list. */
  function Step(t: nat, a: Word, b: Word, c: Word, d: Word, e: Word, w: Word): Word {
    Accumulate(e, Rol5(a), F(t, b, c, d), K(t), w)
  }

  /** One use of the macro R, with its register names rotated, is one round of the standard. */
  lemma StepIsRound(t: nat, a: Word, b: Word, c: Word, d: Word, e: Word, w: Word)
    ensures Registers(Step(t, a, b, c, d, e, w), a, Rol30(b), c, d) == Round(t, Registers(a, b, c, d, e), w)
  {
    hide F, Ft, K, Kt, Rol5, Rol30, Accumulate, Temporary;
    FIsFt(t, b, c, d);
    KIsKt(t);
    AccumulateIsTemporary(e, Rol5(a), Ft(t, b, c, d), Kt(t), w);
  }

  // ---- the circular message schedule -------------------------------------------------------

  /** The sixteen-word window holds the first words, and later the last sixteen before round t. */
  ghost predicate Window(x: seq<Word>, block: seq<Byte>, t: nat)
    requires |block| == BLOCK_SIZE
  {
    |x| == 16 &&
    forall r :: FirstRound(t) <= r < FirstRound(t) + 16 ==> x[r % 16] == W(block, r)
  }

  function FirstRound(t: nat): nat { if t < 16 then 0 else t - 16 }

  /** Indices less than sixteen apart fall in different slots. */
  lemma SlotsDiffer(r: nat, t: nat)
    requires r < t < r + 16
    ensures r % 16 != t % 16
  {
  }

  /** The macro M, and the plain read of the first sixteen rounds. */
  method NextWord(x: array<Word>, t: nat, ghost block: seq<Byte>) returns (w: Word)
    requires x.Length == 16 && |block| == BLOCK_SIZE
    requires Window(x[..], block, t)
    modifies x
    ensures w == W(block, t)
    ensures Window(x[..], block, t + 1)
  {
    ghost var before := x[..];
    if t < 16 {
      w := x[t];
      assert before[t % 16] == W(block, t);
    } else {
      assert before[(t - 16) % 16] == W(block, t - 16) && before[(t - 14) % 16] == W(block, t - 14);
      assert before[(t - 8) % 16] == W(block, t - 8) && before[(t - 3) % 16] == W(block, t - 3);
      var tm := x[t % 16] ^ x[(t - 14) % 16] ^ x[(t - 8) % 16] ^ x[(t - 3) % 16];
      XorOrder(W(block, t - 16), W(block, t - 14), W(block, t - 8), W(block, t - 3));
      x[t % 16] := Rol1(tm);
      w := x[t % 16];
    }
    WindowAdvances(before, x[..], block, t);
  }

  lemma XorOrder(p: Word, q: Word, r: Word, s: Word)
    ensures p ^ q ^ r ^ s == s ^ r ^ q ^ p
  {
  }

  lemma WindowAdvances(x: seq<Word>, x': seq<Word>, block: seq<Byte>, t: nat)
    requires |block| == BLOCK_SIZE && Window(x, block, t)
    requires x' == if t < 16 then x else x[t % 16 := W(block, t)]
    ensures Window(x', block, t + 1)
  {
    hide W;
    forall r | FirstRound(t + 1) <= r < FirstRound(t + 1) + 16
      ensures x'[r % 16] == W(block, r)
    {
      if r < t && 16 <= t {
        SlotsDiffer(r, t);
      }
    }
  }

  // ---- one block ---------------------------------------------------------------------------

  /** Fill the window with the sixteen words of a block. */
  method LoadWords(block: seq<Byte>) returns (x: array<Word>)
    requires |block| == BLOCK_SIZE
    ensures fresh(x) && x.Length == 16 && Window(x[..], block, 0)
  {
    hide Swap, LoadLittle, BigEndian;
    x := new Word[16];
    for t := 0 to 16
      invariant forall j :: 0 <= j < t ==> x[j] == W(block, j)
    {
      SwapAfterLoad(block[4 * t], block[4 * t + 1], block[4 * t + 2], block[4 * t + 3]);
      x[t] := Swap(LoadLittle(block[4 * t], block[4 * t + 1], block[4 * t + 2], block[4 * t + 3]));
    }
  }

  lemma NoRounds(h: Registers, block: seq<Byte>)
    requires |block| == BLOCK_SIZE
    ensures Rounds(0, h, block) == h
  {
  }

  /** One use of the macro R, given the registers as round t of the written-out list names them. */
  method R(x: array<Word>, t: nat, a: Word, b: Word, c: Word, d: Word, e: Word,
           ghost h: Registers, ghost block: seq<Byte>)
    returns (e': Word, b': Word)
    requires x.Length == 16 && |block| == BLOCK_SIZE && Window(x[..], block, t)
    requires Registers(a, b, c, d, e) == Rounds(t, h, block)
    modifies x
    ensures Window(x[..], block, t + 1)
    ensures Registers(e', a, b', c, d) == Rounds(t + 1, h, block)
  {
    hide Step, Round, Rol30, W, Window;
    var w := NextWord(x, t, block);
    StepIsRound(t, a, b, c, d, e, w);
    e', b' := Step(t, a, b, c, d, e, w), Rol30(b);
  }

  /** The eighty rounds, five at a time: after five the register names are back in place. */
  method EightyRounds(h: Registers, block: seq<Byte>) returns (r: Registers)
    requires |block| == BLOCK_SIZE
    ensures r == Rounds(80, h, block)
  {
    hide *;
    NoRounds(h, block);
    var x := LoadWords(block);
    var a, b, c, d, e := h.a, h.b, h.c, h.d, h.e;
    var t := 0;
    while t < 80
      invariant t <= 80 && t % 5 == 0
      invariant fresh(x) && x.Length == 16 && Window(x[..], block, t)
      invariant Registers(a, b, c, d, e) == Rounds(t, h, block)
    {
      e, b := R(x, t, a, b, c, d, e, h, block);
      d, a := R(x, t + 1, e, a, b, c, d, h, block);
      c, e := R(x, t + 2, d, e, a, b, c, h, block);
      b, d := R(x, t + 3, c, d, e, a, b, h, block);
      a, c := R(x, t + 4, b, c, d, e, a, h, block);
      t := t + 5;
    }
    r := Registers(a, b, c, d, e);
  }

  // ---- the streaming context ---------------------------------------------------------------

  /** The bytes after a copy of `data` to position `at`. */
  function Splice(s: seq<Byte>, at: nat, data: seq<Byte>): (r: seq<Byte>)
    requires at + |data| <= |s|
    ensures |r| == |s|
  {
    s[..at] + data + s[at + |data|..]
  }

  lemma SpliceParts(s: seq<Byte>, at: nat, data: seq<Byte>)
    requires at + |data| <= |s|
    ensures Splice(s, at, data)[..at + |data|] == s[..at] + data
    ensures Splice(s, at, data)[..|data|] == data || at != 0
    ensures Splice(s, at, data)[at + |data|..] == s[at + |data|..]
  {
  }

  /** Two words written at `at` and then the fill between the kept bytes and them. */
  lemma SplicePadding(s: seq<Byte>, keep: nat, fill: seq<Byte>, at: nat, high: seq<Byte>, low: seq<Byte>)
    requires keep + |fill| == at && at + 8 <= |s| && |high| == |low| == 4
    ensures Splice(Splice(Splice(s, at, high), at + 4, low), keep, fill)[..at + 8]
         == s[..keep] + (fill + (high + low))
  {
    var s1 := Splice(s, at, high);
    var s2 := Splice(s1, at + 4, low);
    SpliceParts(s, at, high);
    SpliceParts(s1, at + 4, low);
    assert s2[..at + 8] == s[..at] + (high + low);
    assert Splice(s2, keep, fill)[..at + 8] == s2[..keep] + fill + s2[..at + 8][at..];
  }

  class Context {
    var A: Word
    var B: Word
    var C: Word
    var D: Word
    var E: Word
    var total0: nat
    var total1: nat
    var buflen: nat
    const buffer: array<Byte>
    /** The bytes of the message already hashed, whole blocks only. */
    ghost var hashed: seq<Byte>

    function Hash(): Registers
      reads this
    {
      Registers(A, B, C, D, E)
    }

    /** What every call leaves true, whatever the buffer holds. */
    ghost predicate Consistent()
      reads this
    {
      buffer.Length == BUFFER_SIZE && total0 < TWO_32 && total1 < TWO_32 &&
      |hashed| % BLOCK_SIZE == 0 && Hash() == HashBlocks(INITIAL, hashed)
    }

    /** Between calls at most one whole block waits in the buffer. */
    ghost predicate Valid()
      reads this
    {
      Consistent() && buflen <= BLOCK_SIZE
    }

    /** The internal buffer as bytes. */
    function Bytes(): (r: seq<Byte>)
      reads buffer
      ensures |r| == buffer.Length
    {
      buffer[..]
    }

    /** The message given so far. */
    ghost function Message(): seq<Byte>
      reads this, buffer
      requires Valid()
    {
      hashed + Bytes()[..buflen]
    }

    function Total(): nat
      reads this
    {
      total1 * TWO_32 + total0
    }

    /** The two counter words hold the number of hashed bytes. */
    ghost predicate Counted()
      reads this
    {
      Total() == |hashed| % TWO_64
    }

    constructor ()
      ensures Valid() && Message() == [] && Counted() && fresh(buffer)
    {
      A, B, C, D, E := 0x67452301, 0xefcdab89, 0x98badcfe, 0x10325476, 0xc3d2e1f0;
      total0, total1 := 0, 0;
      buflen := 0;
      buffer := new Byte[BUFFER_SIZE];
      hashed := [];
    }

    /** The double word increment. */
    method Count(len: nat)
      requires total0 < TWO_32 && total1 < TWO_32
      modifies `total0, `total1
      ensures total0 < TWO_32 && total1 < TWO_32
      ensures Total() == CountAdd(old(total0), old(total1), len)
    {
      total0 := (total0 + len) % TWO_32;
      if total0 < len {
        total1 := (total1 + 1) % TWO_32;
      }
    }

    /** Add the registers to the hash value. */
    method AddRegisters(r: Registers)
      modifies `A, `B, `C, `D, `E
      ensures Hash() == Add(old(Hash()), r)
    {
      hide Add;
      var sum := Add(Hash(), r);
      A, B, C, D, E := sum.a, sum.b, sum.c, sum.d, sum.e;
    }

    method ProcessBlock(data: seq<Byte>)
      requires Consistent() && |data| % BLOCK_SIZE == 0
      modifies `A, `B, `C, `D, `E, `total0, `total1, `hashed
      ensures Consistent() && hashed == old(hashed) + data
      ensures Total() == CountAdd(old(total0), old(total1), |data|)
      ensures old(Counted()) && |data| < TWO_32 ==> Counted()
    {
      hide HashBlocks, Rounds, Add, CountAdd;
      Count(|data|);
      ghost var h0 := Hash();
      var i := 0;
      while i < |data|
        invariant i <= |data| && i % BLOCK_SIZE == 0
        invariant HashBlocks(Hash(), data[i..]) == HashBlocks(h0, data)
        modifies `A, `B, `C, `D, `E
      {
        HashBlocksStep(Hash(), data, i);
        var r := EightyRounds(Hash(), data[i..i + BLOCK_SIZE]);
        AddRegisters(r);
        i := i + BLOCK_SIZE;
      }
      NoBlocks(Hash(), data[|data|..]);
      HashBlocksAppend(INITIAL, hashed, data);
      if |data| < TWO_32 {
        CountedAdd(old(total0), old(total1), |hashed|, |data|);
      }
      hashed := hashed + data;
    }

    /** memcpy into the internal buffer. */
    method CopyIn(at: nat, data: seq<Byte>)
      requires at + |data| <= buffer.Length
      modifies buffer
      ensures Bytes() == Splice(old(Bytes()), at, data)
    {
      forall i | 0 <= i < |data| {
        buffer[at + i] := data[i];
      }
    }

    /** Add bytes to the message. `unaligned` says whether the input is read through the buffer. */
    method ProcessBytes(data: seq<Byte>, unaligned: bool)
      requires Valid()
      modifies this, buffer
      ensures Valid() && Message() == old(Message()) + data
      ensures old(Counted()) && (|data| < TWO_32 || unaligned) ==> Counted()
    {
      var rest := data;
      if buflen != 0 {
        rest := FillBuffer(rest);
      }
      if |rest| >= BLOCK_SIZE {
        rest := WholeBlocks(rest, unaligned);
      }
      assert Message() + rest == old(Message()) + data;
      if |rest| > 0 {
        KeepRest(rest);
      }
    }

    /** Complete the bytes already waiting, hash the blocks that fills, and return what is left. */
    method FillBuffer(data: seq<Byte>) returns (rest: seq<Byte>)
      requires Valid() && buflen != 0
      modifies this, buffer
      ensures Valid() && Message() + rest == old(Message()) + data
      ensures |rest| <= |data| && (rest != [] ==> buflen == 0)
      ensures old(Counted()) ==> Counted()
    {
      hide HashBlocks, CountAdd, Splice;
      var leftOver := buflen;
      var add := if BUFFER_SIZE - leftOver > |data| then |data| else BUFFER_SIZE - leftOver;
      ghost var kept := Bytes()[..buflen];
      SpliceParts(Bytes(), leftOver, data[..add]);
      CopyIn(leftOver, data[..add]);
      buflen := buflen + add;
      if buflen > BLOCK_SIZE {
        FlushBuffer();
      }
      rest := data[add..];
    }

    /** Hash whole blocks straight from the input, or through the buffer when it is not aligned. */
    method WholeBlocks(data: seq<Byte>, unaligned: bool) returns (rest: seq<Byte>)
      requires Valid() && buflen == 0
      modifies this, buffer
      ensures Valid() && buflen == 0 && Message() + rest == old(Message()) + data
      ensures |rest| <= BLOCK_SIZE
      ensures old(Counted()) && (|data| < TWO_32 || unaligned) ==> Counted()
    {
      hide HashBlocks, CountAdd, Splice;
      rest := data;
      assert Message() == hashed;
      if unaligned {
        while |rest| > BLOCK_SIZE
          invariant Consistent() && buflen == 0
          invariant hashed + rest == old(hashed) + data
          invariant old(Counted()) ==> Counted()
        {
          SpliceParts(Bytes(), 0, rest[..BLOCK_SIZE]);
          CopyIn(0, rest[..BLOCK_SIZE]);
          ProcessBlock(Bytes()[..BLOCK_SIZE]);
          rest := rest[BLOCK_SIZE..];
        }
      } else {
        var whole := |rest| - |rest| % BLOCK_SIZE;
        ProcessBlock(rest[..whole]);
        rest := rest[whole..];
      }
      assert Message() == hashed;
    }

    /** Move the remaining bytes to the buffer, and hash it if that fills it. */
    method KeepRest(data: seq<Byte>)
      requires Valid() && buflen + |data| <= BUFFER_SIZE
      modifies this, buffer
      ensures Valid() && Message() == old(Message()) + data
      ensures old(Counted()) ==> Counted()
    {
      hide HashBlocks, CountAdd, Splice, Bytes;
      ghost var kept := Bytes()[..buflen];
      SpliceParts(Bytes(), buflen, data);
      CopyIn(buflen, data);
      buflen := buflen + |data|;
      assert hashed + Bytes()[..buflen] == (hashed + kept) + data;
      if buflen >= BLOCK_SIZE {
        FlushBuffer();
      }
    }

    /** Hash the whole blocks in the buffer and move what is left to its start. */
    method FlushBuffer()
      requires Consistent() && BLOCK_SIZE <= buflen <= BUFFER_SIZE
      modifies this, buffer
      ensures Consistent() && buflen == old(buflen) % BLOCK_SIZE
      ensures hashed + Bytes()[..buflen] == old(hashed + Bytes()[..buflen])
      ensures old(Counted()) ==> Counted()
    {
      hide HashBlocks, CountAdd, Splice;
      OneOrTwoBlocks(buflen);
      var whole := buflen - buflen % BLOCK_SIZE;
      var head, tail := Bytes()[..whole], Bytes()[whole..buflen];
      ghost var before := hashed;
      assert before + head + tail == before + Bytes()[..buflen];
      ProcessBlock(head);
      buflen := buflen % BLOCK_SIZE;
      SpliceParts(Bytes(), 0, tail);
      CopyIn(0, tail);
    }

    /** Write the padding behind the kept bytes; the blocks to hash are the first `size` words. */
    method PadBuffer() returns (size: nat)
      requires Valid()
      modifies `total0, `total1, buffer
      ensures total0 < TWO_32 && total1 < TWO_32 && (size == 16 || size == 32)
      ensures old(Counted()) ==> hashed + Bytes()[..size * 4] == Pad(old(Message()))
    {
      hide CountAdd, HashBlocks, Pad, WordBytes, Splice;
      var bytes := buflen;
      size := if bytes < 56 then 16 else 32;
      ghost var kept := Bytes()[..bytes];
      CountRest();
      var high := total1 * 8 % TWO_32 + total0 / 0x2000_0000;
      var low := total0 * 8 % TWO_32;
      HighWordFits(total0, total1);
      WritePadding(size, high as Word, low as Word);
      if old(Counted()) {
        LengthWords(total0, total1, |hashed| + bytes);
        LastBlocksArePadding(hashed, kept);
      }
    }

    /** Take the bytes still in the buffer into account. */
    method CountRest()
      requires Valid()
      modifies `total0, `total1
      ensures total0 < TWO_32 && total1 < TWO_32
      ensures old(Counted()) ==> Total() == (|hashed| + buflen) % TWO_64
    {
      hide CountAdd;
      Count(buflen);
      if old(Counted()) {
        CountedAdd(old(total0), old(total1), |hashed|, buflen);
      }
    }

    method WritePadding(size: nat, high: Word, low: Word)
      requires buffer.Length == BUFFER_SIZE && buflen <= (size - 2) * 4 <= 120 && (size - 2) * 4 - buflen <= 64
      modifies buffer
      ensures Bytes()[..size * 4] == old(Bytes()[..buflen]) + (FILL[..(size - 2) * 4 - buflen]
                                    + (WordBytes(high) + WordBytes(low)))
    {
      SwapBeforeStore(high);
      SwapBeforeStore(low);
      hide Swap, StoreLittle, WordBytes, Splice;
      var at := (size - 2) * 4;
      SplicePadding(Bytes(), buflen, FILL[..at - buflen], at, WordBytes(high), WordBytes(low));
      CopyIn(at, StoreLittle(Swap(high)));
      CopyIn((size - 1) * 4, StoreLittle(Swap(low)));
      CopyIn(buflen, FILL[..at - buflen]);
    }

    /** Pad, hash the last one or two blocks and read the digest. */
    method Finish() returns (digest: seq<Byte>)
      requires Valid()
      modifies this, buffer
      ensures old(Counted()) ==> digest == Sha1(old(Message()))
    {
      hide HashBlocks, CountAdd, Splice, Pad;
      var size := PadBuffer();
      ProcessBlock(Bytes()[..size * 4]);
      digest := ReadDigest();
    }

    /** The five words of the hash value, as bytes. */
    method ReadDigest() returns (digest: seq<Byte>)
      ensures digest == DigestBytes(Hash())
    {
      SwapBeforeStore(A);
      SwapBeforeStore(B);
      SwapBeforeStore(C);
      SwapBeforeStore(D);
      SwapBeforeStore(E);
      hide Swap, StoreLittle, WordBytes;
      digest := StoreLittle(Swap(A)) + StoreLittle(Swap(B)) + StoreLittle(Swap(C))
              + StoreLittle(Swap(D)) + StoreLittle(Swap(E));
    }
  }

  lemma NoBlocks(h: Registers, data: seq<Byte>)
    requires data == []
    ensures HashBlocks(h, data) == h
  {
  }

  lemma HashBlocksStep(h: Registers, data: seq<Byte>, i: nat)
    requires |data| % BLOCK_SIZE == 0 && i % BLOCK_SIZE == 0 && i < |data|
    ensures i + BLOCK_SIZE <= |data|
    ensures HashBlocks(h, data[i..])
         == HashBlocks(Add(h, Rounds(80, h, data[i..i + BLOCK_SIZE])), data[i + BLOCK_SIZE..])
  {
    hide Rounds, Add;
    assert data[i..][..BLOCK_SIZE] == data[i..i + BLOCK_SIZE];
    assert data[i..][BLOCK_SIZE..] == data[i + BLOCK_SIZE..];
  }

  /** The two words the source builds from the byte counter hold the length in bits. */
  lemma LengthWords(total0: nat, total1: nat, n: nat)
    requires total0 < TWO_32 && total1 < TWO_32 && total1 * TWO_32 + total0 == n % TWO_64
    ensures total1 * 8 % TWO_32 + total0 / 0x2000_0000 == 8 * n / TWO_32 % TWO_32
    ensures total0 * 8 % TWO_32 == 8 * n % TWO_32
  {
    var q := n / TWO_64;
    var high1, low1 := total1 / 0x2000_0000, total1 % 0x2000_0000;
    var high0, low0 := total0 / 0x2000_0000, total0 % 0x2000_0000;
    Quotient(total1 * 8, high1, 8 * low1);
    Quotient(total0 * 8, high0, 8 * low0);
    Quotient(8 * n, 8 * q * TWO_32 + total1 * 8 + high0, 8 * low0);
    Quotient(8 * n / TWO_32, 8 * q + high1, 8 * low1 + high0);
  }

  lemma HighWordFits(total0: nat, total1: nat)
    requires total0 < TWO_32
    ensures total1 * 8 % TWO_32 + total0 / 0x2000_0000 < TWO_32
  {
    Quotient(total1 * 8, total1 / 0x2000_0000, 8 * (total1 % 0x2000_0000));
  }

  lemma Quotient(x: nat, q: nat, r: nat)
    requires x == q * TWO_32 + r && r < TWO_32
    ensures x / TWO_32 == q && x % TWO_32 == r
  {
  }

  /** What Finish puts after the kept bytes completes the padded message. */
  lemma LastBlocksArePadding(hashed: seq<Byte>, kept: seq<Byte>)
    requires |hashed| % BLOCK_SIZE == 0 && |kept| <= BLOCK_SIZE
    ensures var size := if |kept| < 56 then 64 else 128;
            hashed + (kept + (FILL[..size - 8 - |kept|] + LengthField(|hashed| + |kept|))) == Pad(hashed + kept)
  {
    hide LengthField;
    var size := if |kept| < 56 then 64 else 128;
    FillIsPadding(size - 8 - |kept|);
    RestOfBlock(|hashed|, |kept|);
    assert |hashed + kept| == |hashed| + |kept|;
  }

  lemma FillIsPadding(n: nat)
    requires 1 <= n <= 64
    ensures FILL[..n] == [0x80] + Zeros(n - 1)
  {
  }

  lemma RestOfBlock(hashed: nat, kept: nat)
    requires hashed % BLOCK_SIZE == 0 && kept <= BLOCK_SIZE
    ensures ZeroCount(hashed + kept) == (if kept < 56 then 64 else 128) - 9 - kept
  {
    OneOrTwoBlocks(BLOCK_SIZE + kept);
  }

  lemma OneOrTwoBlocks(n: nat)
    requires BLOCK_SIZE <= n <= BUFFER_SIZE
    ensures n % BLOCK_SIZE == if n == BUFFER_SIZE then 0 else n - BLOCK_SIZE
  {
  }

  function CountAdd(total0: nat, total1: nat, len: nat): nat {
    var t := (total0 + len) % TWO_32;
    (if t < len then (total1 + 1) % TWO_32 else total1) * TWO_32 + t
  }

  /** The double word increment is addition modulo 2^64 exactly while at most one carry is due. */
  lemma CountAddExact(total0: nat, total1: nat, len: nat)
    requires total0 < TWO_32 && total1 < TWO_32 && len < TWO_64
    ensures CountAdd(total0, total1, len) == (total1 * TWO_32 + total0 + len) % TWO_64
       <==> (total0 + len) / TWO_32 <= 1
  {
  }

  lemma CountedAdd(total0: nat, total1: nat, n: nat, len: nat)
    requires total0 < TWO_32 && total1 < TWO_32 && len < TWO_32
    ensures total1 * TWO_32 + total0 == n % TWO_64 ==> CountAdd(total0, total1, len) == (n + len) % TWO_64
  {
    CountAddExact(total0, total1, len);
  }

  // ---- a message in pieces -----------------------------------------------------------------

  function Concat(pieces: seq<seq<Byte>>): seq<Byte> {
    if pieces == [] then [] else Concat(pieces[..|pieces| - 1]) + pieces[|pieces| - 1]
  }

  /** However a message is split into pieces, and whatever their alignment, the digest is the same. */
  method DigestOfPieces(pieces: seq<seq<Byte>>, unaligned: seq<bool>) returns (digest: seq<Byte>)
    requires |unaligned| == |pieces|
    requires forall i :: 0 <= i < |pieces| ==> |pieces[i]| < TWO_32 || unaligned[i]
    ensures digest == Sha1(Concat(pieces))
  {
    hide Sha1;
    var ctx := new Context();
    for i := 0 to |pieces|
      invariant fresh(ctx) && fresh(ctx.buffer) && ctx.Valid() && ctx.Counted()
      invariant ctx.Message() == Concat(pieces[..i])
    {
      assert pieces[..i + 1][..i] == pieces[..i];
      ctx.ProcessBytes(pieces[i], unaligned[i]);
    }
    assert pieces[..|pieces|] == pieces;
    digest := ctx.Finish();
  }
}
