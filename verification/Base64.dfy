/** Base64 as src/Crypto/base64.cpp writes and reads it, against section 4 of RFC 4648. */
module Base64 {
  type Byte = x: int | 0 <= x < 256

  function Letter(v: nat): char
    requires v < 64
  {
    if v < 26 then 'A' + v as char
    else if v < 52 then 'a' + (v - 26) as char
    else if v < 62 then '0' + (v - 52) as char
    else if v == 62 then '+' else '/'
  }

  datatype Option<T> = None | Some(value: T)

  /** The table from letters to values. */
  function Value(c: char): (v: Option<nat>)
    ensures v.Some? ==> v.value < 64
  {
    if 'A' <= c <= 'Z' then Some((c - 'A') as nat)
    else if 'a' <= c <= 'z' then Some((c - 'a') as nat + 26)
    else if '0' <= c <= '9' then Some((c - '0') as nat + 52)
    else if c == '+' then Some(62) else if c == '/' then Some(63) else None
  }

  lemma ValueOfLetter(v: nat)
    requires v < 64
    ensures Value(Letter(v)) == Some(v) && Letter(v) != '=' && !IsBlank(Letter(v))
  {
  }

  /** The alphabet of table 1 of RFC 4648. */
  const ALPHABET := "ABCDEFGHIJKLMNOPQRSTUVWXYZ" + "abcdefghijklmnopqrstuvwxyz" + "0123456789" + "+/"

  lemma CapitalsRun(v: nat)
    requires v < 26
    ensures "ABCDEFGHIJKLMNOPQRSTUVWXYZ"[v] == 'A' + v as char
    ensures "abcdefghijklmnopqrstuvwxyz"[v] == 'a' + v as char
  {
  }

  lemma DigitsRun(v: nat)
    requires v < 10
    ensures "0123456789"[v] == '0' + v as char
  {
  }

  /** The letters of the six-bit numbers are those of the alphabet, in its order, and no others have a value. */
  lemma LettersAreAlphabet(c: char, v: nat)
    requires v < 64
    ensures |ALPHABET| == 64 && Letter(v) == ALPHABET[v]
    ensures Value(c) == Some(v) <==> c == ALPHABET[v]
    ensures Value(c) == None <==> c !in ALPHABET
  {
    LetterIs(v);
    if Value(c).Some? {
      LetterIs(Value(c).value);
      assert c == Letter(Value(c).value);
    } else if c in ALPHABET {
      var i :| 0 <= i < |ALPHABET| && ALPHABET[i] == c;
      LetterIs(i);
      ValueOfLetter(i);
    }
    ValueOfLetter(v);
  }

  lemma LetterIs(v: nat)
    requires v < 64
    ensures |ALPHABET| == 64 && Letter(v) == ALPHABET[v]
  {
    if v < 26 { CapitalsRun(v); } else if v < 52 { CapitalsRun(v - 26); } else if v < 62 { DigitsRun(v - 52); }
  }

  predicate IsBlank(c: char) { c == ' ' || c == '\r' || c == '\n' || c == '\t' }

  /** Characters the decoder refuses; of those from 64 on that are no letters its table says nothing. */
  predicate IsIllegal(c: char) { c < 64 as char && c != '=' && !IsBlank(c) && Value(c) == None }

  predicate IsKnown(c: char) { c < 64 as char || Value(c).Some? }

  predicate AllKnown(s: string) { forall i :: 0 <= i < |s| ==> IsKnown(s[i]) }

  // ---- encoding ------------------------------------------------------------------------------------

  /** A final group of one byte: twelve bits, the last four of them given. */
  function OneByte(b: Byte, rest: nat): string
    requires rest < 16
  {
    [Letter(b / 4), Letter(b % 4 * 16 + rest), '=', '=']
  }

  function TwoBytes(b: Byte, c: Byte, rest: nat): string
    requires rest < 4
  {
    [Letter(b / 4), Letter(b % 4 * 16 + c / 16), Letter(c % 16 * 4 + rest), '=']
  }

  function ThreeBytes(b: Byte, c: Byte, d: Byte): string {
    [Letter(b / 4), Letter(b % 4 * 16 + c / 16), Letter(c % 16 * 4 + d / 64), Letter(d % 64)]
  }

  /** The group of the first n bytes of three; bits of the others fill it up. */
  function GroupText(b: Byte, c: Byte, d: Byte, n: nat): string
    requires 1 <= n <= 3
  {
    if n == 1 then OneByte(b, c / 16) else if n == 2 then TwoBytes(b, c, d / 64) else ThreeBytes(b, c, d)
  }

  /** What the encoder writes, with the bytes that are in its buffer before. */
  function Encoded(s: seq<Byte>, buffer: (Byte, Byte, Byte)): string {
    if s == [] then []
    else if |s| == 1 then GroupText(s[0], buffer.1, buffer.2, 1)
    else if |s| == 2 then GroupText(s[0], s[1], buffer.2, 2)
    else GroupText(s[0], s[1], s[2], 3) + Encoded(s[3..], (s[0], s[1], s[2]))
  }

  /** Section 4 of RFC 4648: groups of 24 bits as four numbers of six, missing bits of the last group zero. */
  function Rfc4648(s: seq<Byte>): string {
    if s == [] then []
    else if |s| == 1 then Quantum8(s[0])
    else if |s| == 2 then Quantum16(s[0], s[1])
    else Quantum24(s[0], s[1], s[2]) + Rfc4648(s[3..])
  }

  function Quantum8(b: int): string
    requires 0 <= b < 256
  {
    var bits := b * 16;
    [Letter(bits / 64), Letter(bits % 64), '=', '=']
  }

  function Quantum16(b: int, c: int): string
    requires 0 <= b < 256 && 0 <= c < 256
  {
    var bits := (b * 256 + c) * 4;
    [Letter(bits / 4096), Letter(bits / 64 % 64), Letter(bits % 64), '=']
  }

  function Quantum24(b: int, c: int, d: int): string
    requires 0 <= b < 256 && 0 <= c < 256 && 0 <= d < 256
  {
    var bits := (b * 256 + c) * 256 + d;
    [Letter(bits / 262144), Letter(bits / 4096 % 64), Letter(bits / 64 % 64), Letter(bits % 64)]
  }

  /** The numbers of six bits that make up a word, whatever stands above them. */
  lemma Sextets(w: nat, x: nat, y: nat, z: nat)
    requires x < 64 && y < 64 && z < 64
    ensures var n := ((w * 64 + x) * 64 + y) * 64 + z;
            n / 262144 == w && n / 4096 % 64 == x && n / 64 % 64 == y && n % 64 == z
  {
    var n := ((w * 64 + x) * 64 + y) * 64 + z;
    assert n / 64 == (w * 64 + x) * 64 + y && n % 64 == z;
    assert n / 4096 == n / 64 / 64;
    assert n / 262144 == n / 64 / 64 / 64;
  }

  lemma QuantaAreGroups(b: Byte, c: Byte, d: Byte)
    ensures Quantum8(b) == OneByte(b, 0) && Quantum16(b, c) == TwoBytes(b, c, 0)
    ensures Quantum24(b, c, d) == ThreeBytes(b, c, d)
  {
    hide Letter;
    Sextets(0, 0, b / 4, b % 4 * 16);
    Sextets(0, b / 4, b % 4 * 16 + c / 16, c % 16 * 4);
    Sextets(b / 4, b % 4 * 16 + c / 16, c % 16 * 4 + d / 64, d % 64);
    Split(b, c, d);
  }

  lemma Split(b: int, c: int, d: int)
    requires 0 <= b < 256 && 0 <= c < 256 && 0 <= d < 256
    ensures b / 4 * 64 + b % 4 * 16 == b * 16
    ensures (b / 4 * 64 + b % 4 * 16 + c / 16) * 64 + c % 16 * 4 == (b * 256 + c) * 4
    ensures ((b / 4 * 64 + b % 4 * 16 + c / 16) * 64 + c % 16 * 4 + d / 64) * 64 + d % 64 == (b * 256 + c) * 256 + d
  {
  }

  /** The bits of the buffer that get into the last group: those behind the last byte. */
  function Leaked(s: seq<Byte>, buffer: (Byte, Byte, Byte)): nat {
    if |s| < 3 then (if |s| == 1 then buffer.1 / 16 else if |s| == 2 then buffer.2 / 64 else 0)
    else Leaked(s[3..], (s[0], s[1], s[2]))
  }

  lemma LetterInjective(v: nat, w: nat)
    requires v < 64 && w < 64 && Letter(v) == Letter(w)
    ensures v == w
  {
    ValueOfLetter(v);
    ValueOfLetter(w);
  }

  /** The encoding is that of the standard exactly if nothing but zeros leaks. */
  lemma {:induction false} StandardExactly(s: seq<Byte>, buffer: (Byte, Byte, Byte))
    ensures Encoded(s, buffer) == Rfc4648(s) <==> Leaked(s, buffer) == 0
  {
    hide Letter, Quantum8, Quantum16, Quantum24;
    if |s| == 1 {
      QuantaAreGroups(s[0], 0, 0);
      if Encoded(s, buffer)[1] == Rfc4648(s)[1] { LetterInjective(s[0] % 4 * 16 + buffer.1 / 16, s[0] % 4 * 16); }
    } else if |s| == 2 {
      QuantaAreGroups(s[0], s[1], 0);
      if Encoded(s, buffer)[2] == Rfc4648(s)[2] { LetterInjective(s[1] % 16 * 4 + buffer.2 / 64, s[1] % 16 * 4); }
    } else if |s| >= 3 {
      QuantaAreGroups(s[0], s[1], s[2]);
      StandardExactly(s[3..], (s[0], s[1], s[2]));
      SameBehind(ThreeBytes(s[0], s[1], s[2]), Encoded(s[3..], (s[0], s[1], s[2])), Rfc4648(s[3..]));
    }
  }

  lemma SameBehind(first: string, s: string, t: string)
    ensures first + s == first + t <==> s == t
  {
    if first + s == first + t { assert s == (first + s)[|first|..] == (first + t)[|first|..] == t; }
  }

  /** The word of a group; the first byte is a signed char, so its sign fills the top byte. */
  function Word(b: Byte, c: Byte, d: Byte): nat {
    (if b < 128 then b * 65536 else 0x1_0000_0000 - (256 - b) * 65536) + c * 256 + d
  }

  /** The sign does not get into the four numbers of the word. */
  lemma WordNumbers(b: Byte, c: Byte, d: Byte)
    ensures Word(b, c, d) / 262144 % 64 == b / 4
    ensures Word(b, c, d) / 4096 % 64 == b % 4 * 16 + c / 16
    ensures Word(b, c, d) / 64 % 64 == c % 16 * 4 + d / 64
    ensures Word(b, c, d) % 64 == d % 64
  {
    var sign := if b < 128 then 0 else 255;
    Sextets(sign * 64 + b / 4, b % 4 * 16 + c / 16, c % 16 * 4 + d / 64, d % 64);
    Split(b, c, d);
    assert Word(b, c, d) == sign * 16777216 + b * 65536 + c * 256 + d;
    assert (sign * 64 + b / 4) % 64 == b / 4;
  }

  /** Where a group of the encoder stands in the whole. */
  lemma EncodedGroup(rest: seq<Byte>, was: (Byte, Byte, Byte), now: (Byte, Byte, Byte), n: nat)
    requires rest != [] && n == (if |rest| < 3 then |rest| else 3)
    requires now.0 == rest[0] && now.1 == (if n >= 2 then rest[1] else was.1)
    requires now.2 == if n >= 3 then rest[2] else was.2
    ensures Encoded(rest, was) == GroupText(now.0, now.1, now.2, n) + Encoded(rest[n..], now)
  {
    hide GroupText;
  }

  method EncodeString(str: seq<Byte>, buffer: (Byte, Byte, Byte)) returns (base64: string)
    ensures base64 == Encoded(str, buffer)
  {
    hide Word, GroupText, Encoded;
    base64 := "";
    var block_str := new Byte[3];
    block_str[0], block_str[1], block_str[2] := buffer.0, buffer.1, buffer.2;
    var at := 0;
    while at < |str|
      invariant 0 <= at <= |str|
      invariant base64 + Encoded(str[at..], (block_str[0], block_str[1], block_str[2])) == Encoded(str, buffer)
    {
      ghost var rest, was := str[at..], (block_str[0], block_str[1], block_str[2]);
      var blockSize := if |str| - at < 3 then |str| - at else 3;
      block_str[0] := str[at];
      if blockSize >= 2 { block_str[1] := str[at + 1]; }
      if blockSize >= 3 { block_str[2] := str[at + 2]; }
      ghost var now := (block_str[0], block_str[1], block_str[2]);
      EncodedGroup(rest, was, now, blockSize);
      var chars := Group(block_str[0], block_str[1], block_str[2], blockSize);
      assert rest[blockSize..] == str[at + blockSize..];
      base64 := base64 + chars;
      at := at + blockSize;
    }
    assert str[at..] == [];
    NothingEncoded((block_str[0], block_str[1], block_str[2]));
  }

  lemma NothingEncoded(buffer: (Byte, Byte, Byte))
    ensures Encoded([], buffer) == []
  {
  }

  /** The characters of one group, by the shifts and masks of a word; the third byte is left out of it after one. */
  method Group(b: Byte, c: Byte, d: Byte, blockSize: nat) returns (chars: string)
    requires 1 <= blockSize <= 3
    ensures chars == GroupText(b, c, d, blockSize)
  {
    hide Word, Letter;
    var last := if blockSize >= 2 then d else 0;
    var block := Word(b, c, last);
    WordNumbers(b, c, last);
    chars := [Letter(block / 262144 % 64), Letter(block / 4096 % 64)];
    if blockSize == 1 {
      chars := chars + ['=', '='];
    }
    if blockSize == 2 {
      chars := chars + [Letter(block / 64 % 64)] + ['='];
    }
    if blockSize == 3 {
      chars := chars + [Letter(block / 64 % 64)] + [Letter(block % 64)];
    }
  }

  // ---- decoding ------------------------------------------------------------------------------------

  /** The state of the decoder: the group under way, and what it has written. */
  datatype Decoder = Decoder(block: nat, blockSize: nat, blockPadding: nat, out: seq<Byte>)

  predicate InGroup(d: Decoder) {
    && d.blockSize < 4 && d.blockPadding <= d.blockSize
    && d.block < (match d.blockSize case 0 => 1 case 1 => 64 case 2 => 4096 case _ => 262144)
  }

  /** One character that is not illegal. None if a group of nothing but padding asks for less than no byte. */
  function Feed(d: Decoder, c: char): (r: Option<Decoder>)
    requires InGroup(d) && IsKnown(c) && !IsIllegal(c)
    ensures r.Some? ==> InGroup(r.value)
  {
    if IsBlank(c) then Some(d)
    else
      var d' := if c == '=' then Decoder(d.block * 64, d.blockSize + 1, d.blockPadding + 1, d.out)
                else Decoder(d.block * 64 + Value(c).value, d.blockSize + 1, d.blockPadding, d.out);
      if d'.blockSize < 4 then Some(d')
      else if d'.blockPadding == 4 then None
      else Some(Decoder(0, 0, 0, d.out + Bytes(d'.block)[..3 - d'.blockPadding]))
  }

  function Bytes(block: nat): (bs: seq<Byte>)
    requires block < 16777216
    ensures |bs| == 3
  {
    [block / 65536, block / 256 % 256, block % 256]
  }

  datatype Outcome = Done(decoder: Decoder) | Illegal(out: seq<Byte>) | Undefined

  /** The decoder on a text. */
  function Decode(d: Decoder, s: string): (o: Outcome)
    requires InGroup(d) && AllKnown(s)
    ensures o.Done? ==> InGroup(o.decoder)
    decreases |s|
  {
    if s == [] then Done(d)
    else if IsIllegal(s[0]) then Illegal(d.out)
    else match Feed(d, s[0])
      case None => Undefined
      case Some(d') => Decode(d', s[1..])
  }

  function Fresh(out: seq<Byte>): Decoder { Decoder(0, 0, 0, out) }

  lemma HasValue(c: char)
    requires IsKnown(c) && !IsIllegal(c) && c != '=' && !IsBlank(c)
    ensures Value(c).Some?
  {
  }

  method DecodeString(str: seq<Byte>, base64: string) returns (out: seq<Byte>, ok: bool)
    requires AllKnown(base64) && Decode(Fresh(str), base64) != Undefined
    ensures ok == Decode(Fresh(str), base64).Done?
    ensures out == match Decode(Fresh(str), base64) case Done(d) => d.out case Illegal(o) => o
  {
    hide Bytes, Value, IsIllegal;
    out := str;
    var block: nat, blockSize: nat, blockPadding: nat := 0, 0, 0;
    for i := 0 to |base64|
      invariant InGroup(Decoder(block, blockSize, blockPadding, out))
      invariant Decode(Decoder(block, blockSize, blockPadding, out), base64[i..]) == Decode(Fresh(str), base64)
    {
      assert base64[i..][0] == base64[i] && base64[i..][1..] == base64[i + 1..];
      if IsIllegal(base64[i]) {
        return out, false;
      } else if base64[i] == '=' {
        block := block * 64;
        blockSize := blockSize + 1;
        blockPadding := blockPadding + 1;
      } else if IsBlank(base64[i]) {
        continue;
      } else {
        HasValue(base64[i]);
        block := block * 64 + Value(base64[i]).value;
        blockSize := blockSize + 1;
      }
      if blockSize == 4 {
        out := out + Bytes(block)[..3 - blockPadding];
        block, blockSize, blockPadding := 0, 0, 0;
      }
    }
    ok := true;
  }

  /** Decoding in two parts is decoding the whole. */
  lemma {:induction false} DecodeAppend(d: Decoder, s: string, t: string)
    requires InGroup(d) && AllKnown(s) && AllKnown(t)
    ensures Decode(d, s + t) == match Decode(d, s) case Done(d') => Decode(d', t) case o => o
    decreases |s|
  {
    hide Feed, IsIllegal;
    if s == [] {
      assert s + t == t;
    } else {
      assert (s + t)[1..] == s[1..] + t;
      if !IsIllegal(s[0]) && Feed(d, s[0]).Some? { DecodeAppend(Feed(d, s[0]).value, s[1..], t); }
    }
  }

  // ---- blanks, groups, and the way back ------------------------------------------------------------

  function Clean(s: string): (r: string) {
    if s == [] then [] else if s[0] in {' ', '\t', '\r', '\n'} then Clean(s[1..]) else [s[0]] + Clean(s[1..])
  }

  lemma {:induction false} CleanKnown(s: string)
    requires AllKnown(s)
    ensures AllKnown(Clean(s))
  {
    if s != [] { CleanKnown(s[1..]); }
  }

  /** Blanks make no difference, wherever they are. */
  lemma {:induction false} BlanksIgnored(d: Decoder, s: string)
    requires InGroup(d) && AllKnown(s)
    ensures AllKnown(Clean(s)) && Decode(d, Clean(s)) == Decode(d, s)
    decreases |s|
  {
    CleanKnown(s);
    if s != [] && !IsIllegal(s[0]) && Feed(d, s[0]).Some? { BlanksIgnored(Feed(d, s[0]).value, s[1..]); }
  }

  /** What has been written before stays in front. */
  function Behind(out: seq<Byte>, o: Outcome): Outcome {
    match o
    case Done(d) => Done(d.(out := out + d.out))
    case Illegal(os) => Illegal(out + os)
    case Undefined => Undefined
  }

  lemma {:induction false} DecodeBehind(out: seq<Byte>, d: Decoder, s: string)
    requires InGroup(d) && AllKnown(s)
    ensures Decode(d.(out := out + d.out), s) == Behind(out, Decode(d, s))
    decreases |s|
  {
    if s != [] && !IsIllegal(s[0]) {
      FeedBehind(out, d, s[0]);
      if Feed(d, s[0]).Some? { DecodeBehind(out, Feed(d, s[0]).value, s[1..]); }
    }
  }

  lemma FeedBehind(out: seq<Byte>, d: Decoder, c: char)
    requires InGroup(d) && IsKnown(c) && !IsIllegal(c)
    ensures Feed(d.(out := out + d.out), c)
         == match Feed(d, c) case None => None case Some(d') => Some(d'.(out := out + d'.out))
  {
    hide Bytes, Value;
    if Feed(d, c).Some? {
      var more := Feed(d, c).value.out[|d.out|..];
      assert Feed(d, c).value.out == d.out + more;
      assert out + (d.out + more) == (out + d.out) + more;
    }
  }

  /** A group is under way exactly for as many characters as are over in fours. */
  lemma {:induction false} GroupCount(d: Decoder, s: string)
    requires InGroup(d) && AllKnown(s) && Decode(d, s).Done?
    ensures Decode(d, s).decoder.blockSize == (d.blockSize + |Clean(s)|) % 4
    decreases |s|
  {
    hide Feed, IsIllegal;
    if s != [] {
      FeedCount(d, s[0]);
      GroupCount(Feed(d, s[0]).value, s[1..]);
    }
  }

  lemma FeedCount(d: Decoder, c: char)
    requires InGroup(d) && IsKnown(c) && !IsIllegal(c) && Feed(d, c).Some?
    ensures Feed(d, c).value.blockSize == if IsBlank(c) then d.blockSize else (d.blockSize + 1) % 4
  {
    hide Bytes, Value;
  }

  /** Between groups nothing is kept but the output. */
  lemma BetweenGroups(d: Decoder)
    requires InGroup(d) && d.blockSize == 0
    ensures d == Fresh(d.out)
  {
  }

  /** Decoding distributes over a text of whole groups with another text behind it. */
  lemma DecodeConcat(s: string, t: string)
    requires AllKnown(s) && AllKnown(t) && |Clean(s)| % 4 == 0 && Decode(Fresh([]), s).Done?
    ensures Decode(Fresh([]), s + t) == Behind(Decode(Fresh([]), s).decoder.out, Decode(Fresh([]), t))
  {
    hide Decode;
    DecodeAppend(Fresh([]), s, t);
    GroupCount(Fresh([]), s);
    var out := Decode(Fresh([]), s).decoder.out;
    BetweenGroups(Decode(Fresh([]), s).decoder);
    DecodeBehind(out, Fresh([]), t);
    assert out + [] == out;
  }

  lemma {:induction false} RefusedForIllegal(d: Decoder, s: string)
    requires InGroup(d) && AllKnown(s) && Decode(d, s) != Undefined
    ensures Decode(d, s).Done? <==> forall i :: 0 <= i < |s| ==> !IsIllegal(s[i])
    decreases |s|
  {
    hide Feed, IsIllegal;
    if s != [] && !IsIllegal(s[0]) {
      RefusedForIllegal(Feed(d, s[0]).value, s[1..]);
      assert forall i :: 0 < i < |s| ==> s[i] == s[1..][i - 1];
    }
  }

  predicate IsWritten(c: char) { c in ALPHABET || c == '=' || c in {' ', '\t', '\r', '\n'} }

  lemma IllegalExactly(c: char)
    requires IsKnown(c)
    ensures IsIllegal(c) <==> !IsWritten(c)
  {
    LettersAreAlphabet(c, 0);
    if Value(c).Some? { LettersAreAlphabet(c, Value(c).value); }
    assert ALPHABET[0] == 'A';
  }

  /** Unless a group of four pads comes first, a text is refused exactly for a character that is never written. */
  lemma RefusedExactly(d: Decoder, s: string)
    requires InGroup(d) && AllKnown(s) && Decode(d, s) != Undefined
    ensures Decode(d, s).Done? <==> forall i :: 0 <= i < |s| ==> IsWritten(s[i])
  {
    RefusedForIllegal(d, s);
    forall i | 0 <= i < |s|
      ensures IsIllegal(s[i]) <==> !IsWritten(s[i])
    {
      IllegalExactly(s[i]);
    }
  }

  function Number(c: char): nat
    requires c == '=' || Value(c).Some?
  {
    if c == '=' then 0 else Value(c).value
  }

  function Pad(c: char): nat { if c == '=' then 1 else 0 }

  predicate IsContent(c: char) { c == '=' || Value(c).Some? }

  lemma FeedContent(d: Decoder, c: char)
    requires InGroup(d) && IsContent(c)
    ensures IsKnown(c) && !IsIllegal(c)
    ensures d.blockSize < 3 ==>
      Feed(d, c) == Some(Decoder(d.block * 64 + Number(c), d.blockSize + 1, d.blockPadding + Pad(c), d.out))
    ensures d.blockSize == 3 && d.blockPadding + Pad(c) < 4 ==>
      Feed(d, c) == Some(Fresh(d.out + Bytes(d.block * 64 + Number(c))[..3 - (d.blockPadding + Pad(c))]))
  {
    hide Bytes;
  }

  lemma DecodeFirst(d: Decoder, s: string)
    requires s != [] && InGroup(d) && AllKnown(s) && !IsIllegal(s[0]) && Feed(d, s[0]).Some?
    ensures Decode(d, s) == Decode(Feed(d, s[0]).value, s[1..])
  {
  }

  /** One group. */
  lemma DecodeGroup(out: seq<Byte>, c0: char, c1: char, c2: char, c3: char)
    requires IsContent(c0) && IsContent(c1) && IsContent(c2) && IsContent(c3)
    requires Pad(c0) + Pad(c1) + Pad(c2) + Pad(c3) < 4
    ensures AllKnown([c0, c1, c2, c3])
    ensures var block := ((Number(c0) * 64 + Number(c1)) * 64 + Number(c2)) * 64 + Number(c3);
            Decode(Fresh(out), [c0, c1, c2, c3])
              == Done(Fresh(out + Bytes(block)[..3 - (Pad(c0) + Pad(c1) + Pad(c2) + Pad(c3))]))
  {
    hide Feed, Bytes, Value, IsIllegal, IsContent;
    FeedContent(Fresh(out), c0);
    var d1 := Feed(Fresh(out), c0).value;
    FeedContent(d1, c1);
    var d2 := Feed(d1, c1).value;
    FeedContent(d2, c2);
    var d3 := Feed(d2, c2).value;
    FeedContent(d3, c3);
    var d4 := Feed(d3, c3).value;
    hide Decode;
    var s := [c0, c1, c2, c3];
    assert s[1..] == [c1, c2, c3] && s[1..][1..] == [c2, c3] && [c2, c3][1..] == [c3] && [c3][1..] == [];
    DecodeFirst(Fresh(out), s);
    DecodeFirst(d1, [c1, c2, c3]);
    DecodeFirst(d2, [c2, c3]);
    DecodeFirst(d3, [c3]);
    DecodeNothing(d4);
  }

  lemma DecodeNothing(d: Decoder)
    requires InGroup(d)
    ensures Decode(d, []) == Done(d)
  {
  }

  lemma GroupBytes(b: Byte, c: Byte, d: Byte)
    ensures var block := ((b / 4 * 64 + (b % 4 * 16 + c / 16)) * 64 + (c % 16 * 4 + d / 64)) * 64 + d % 64;
            block < 16777216 && Bytes(block) == [b, c, d]
  {
    Split(b, c, d);
    var block := (b * 256 + c) * 256 + d;
    assert block / 65536 == b && block / 256 == b * 256 + c;
  }

  lemma ContentOfLetter(v: nat)
    requires v < 64
    ensures IsContent(Letter(v)) && Number(Letter(v)) == v && Pad(Letter(v)) == 0
    ensures IsContent('=') && Number('=') == 0 && Pad('=') == 1
  {
    ValueOfLetter(v);
  }

  /** A group comes back as its bytes, whatever filled it up. */
  lemma DecodeText(out: seq<Byte>, b: Byte, c: Byte, d: Byte, n: nat)
    requires 1 <= n <= 3
    ensures AllKnown(GroupText(b, c, d, n))
    ensures Decode(Fresh(out), GroupText(b, c, d, n)) == Done(Fresh(out + [b, c, d][..n]))
  {
    hide Decode, AllKnown, Bytes, Value, Letter, IsContent, Number, Pad;
    var v0, v1, v2, v3 := b / 4, b % 4 * 16 + c / 16, c % 16 * 4 + d / 64, d % 64;
    ContentOfLetter(v0);
    ContentOfLetter(v1);
    ContentOfLetter(v2);
    ContentOfLetter(v3);
    if n == 1 {
      var c' := c / 16 * 16;
      assert c' / 16 == c / 16 && c' % 16 == 0;
      DecodeGroup(out, Letter(v0), Letter(v1), '=', '=');
      GroupBytes(b, c', 0);
      assert [b, c', 0][..1] == [b, c, d][..1];
    } else if n == 2 {
      var d' := d / 64 * 64;
      assert d' / 64 == d / 64 && d' % 64 == 0;
      DecodeGroup(out, Letter(v0), Letter(v1), Letter(v2), '=');
      GroupBytes(b, c, d');
      assert [b, c, d'][..2] == [b, c, d][..2];
    } else {
      DecodeGroup(out, Letter(v0), Letter(v1), Letter(v2), Letter(v3));
      GroupBytes(b, c, d);
      assert [b, c, d][..3] == [b, c, d];
    }
  }

  /** Every byte string comes back, whatever was in the encoder's buffer, behind what the decoder had written. */
  lemma {:induction false} RoundTrip(s: seq<Byte>, buffer: (Byte, Byte, Byte), out: seq<Byte>)
    ensures AllKnown(Encoded(s, buffer)) && Decode(Fresh(out), Encoded(s, buffer)) == Done(Fresh(out + s))
  {
    hide Decode, GroupText;
    if s == [] {
      DecodeNothing(Fresh(out));
      assert out + s == out;
    } else {
      var n := if |s| < 3 then |s| else 3;
      var now := (s[0], if n >= 2 then s[1] else buffer.1, if n >= 3 then s[2] else buffer.2);
      EncodedGroup(s, buffer, now, n);
      var text := GroupText(now.0, now.1, now.2, n);
      DecodeText(out, now.0, now.1, now.2, n);
      RoundTrip(s[n..], now, out + s[..n]);
      DecodeAppend(Fresh(out), text, Encoded(s[n..], now));
      assert [now.0, now.1, now.2][..n] == s[..n];
      assert out + s[..n] + s[n..] == out + s by { assert s == s[..n] + s[n..]; }
    }
  }

  /** Blanks put anywhere into an encoding do not hurt. */
  lemma RoundTripWithBlanks(s: seq<Byte>, buffer: (Byte, Byte, Byte), text: string)
    requires AllKnown(text) && Clean(text) == Encoded(s, buffer)
    ensures Decode(Fresh([]), text) == Done(Fresh(s))
  {
    BlanksIgnored(Fresh([]), text);
    RoundTrip(s, buffer, []);
    assert [] + s == s;
  }
}
