// The branch-free decoders of the installer: signify keys, signatures and
// file hashes. Everything between the input and the output is 32-bit words.
module Signify {
  import opened Text
  import opened Base64

  // ---- Bytes as characters and as numbers ----------------------------------

  function CharOf(b: bv8): char { b as int as char }

  function Chars(s: seq<bv8>): (t: string)
    ensures |t| == |s| && forall i :: 0 <= i < |s| ==> t[i] == CharOf(s[i])
  {
    seq(|s|, i requires 0 <= i < |s| => CharOf(s[i]))
  }

  function Numbers(s: seq<bv8>): (t: seq<nat>)
    ensures |t| == |s| && IsBytes(t) && forall i :: 0 <= i < |s| ==> t[i] == s[i] as int
  {
    seq(|s|, i requires 0 <= i < |s| => s[i] as int)
  }

  // ---- One character -------------------------------------------------------

  /** A plain char of the compiler is signed. */
  function Promoted(b: bv8): bv32 { (b as bv32) | if b >= 0x80 then 0xFFFF_FF00 else 0 }

  /** The arithmetic shift of an int by 8. */
  function ShiftRight8(x: bv32): bv32 { (x >> 8) | if x >= 0x8000_0000 then 0xFF00_0000 else 0 }

  /** All ones for a character strictly between the two bounds. */
  function Between(c: bv32, below: bv32, above: bv32): bv32 { ShiftRight8((below - c) & (c - above)) }

  /** The six bits of a character, or -1. */
  function Lane(c: bv32): bv32 {
    0xFFFF_FFFF
    + (Between(c, 64, 91) & (c - 64))
    + (Between(c, 96, 123) & (c - 70))
    + (Between(c, 47, 58) & (c + 5))
    + (Between(c, 42, 44) & 63)
    + (Between(c, 46, 48) & 64)
  }

  predicate IsAlphabet(b: bv8) { 65 <= b <= 90 || 97 <= b <= 122 || 48 <= b <= 57 || b == 43 || b == 47 }

  function Mask(on: bool): bv32 { if on then 0xFFFF_FFFF else 0 }

  lemma BetweenIsMask(b: bv8)
    ensures var c := Promoted(b);
            && Between(c, 64, 91) == Mask(65 <= b <= 90)
            && Between(c, 96, 123) == Mask(97 <= b <= 122)
            && Between(c, 47, 58) == Mask(48 <= b <= 57)
            && Between(c, 42, 44) == Mask(b == 43)
            && Between(c, 46, 48) == Mask(b == 47)
  {}

  function SixBits(b: bv8): bv32 {
    if 65 <= b <= 90 then (b as bv32) - 65
    else if 97 <= b <= 122 then (b as bv32) - 71
    else if 48 <= b <= 57 then (b as bv32) + 4
    else if b == 43 then 62
    else if b == 47 then 63
    else 0xFFFF_FFFF
  }

  lemma MaskedSum(b: bv8, c: bv32, upper: bv32, lower: bv32, digit: bv32, plus: bv32, slash: bv32)
    requires b < 128 ==> c == (b as bv32)
    requires upper == Mask(65 <= b <= 90) && lower == Mask(97 <= b <= 122) && digit == Mask(48 <= b <= 57)
    requires plus == Mask(b == 43) && slash == Mask(b == 47)
    ensures 0xFFFF_FFFF + (upper & (c - 64)) + (lower & (c - 70)) + (digit & (c + 5)) + (plus & 63) + (slash & 64) == SixBits(b)
  {}

  /** The sum without branches is the lookup with branches. */
  lemma LaneIsSixBits(b: bv8)
    ensures Lane(Promoted(b)) == SixBits(b)
  {
    var c := Promoted(b);
    BetweenIsMask(b);
    MaskedSum(b, c, Between(c, 64, 91), Between(c, 96, 123), Between(c, 47, 58), Between(c, 42, 44), Between(c, 46, 48));
  }

  function Letter(v: bv8): bv8 {
    if v < 26 then v + 65 else if v < 52 then v + 71 else if v < 62 then v - 4 else if v == 62 then 43 else 47
  }

  lemma SixBitsOfLetter(b: bv8)
    ensures IsAlphabet(b) ==> SixBits(b) < 64 && Letter(SixBits(b) as bv8) == b
    ensures !IsAlphabet(b) ==> SixBits(b) == 0xFFFF_FFFF
  {}

  lemma AlphabetChar(b: bv8)
    ensures IsAlphabet(b) <==> IsSextetChar(CharOf(b))
  {}

  lemma LetterChar(v: bv8)
    requires v < 64
    ensures CharOf(Letter(v)) == SextetChar(v as int)
  {}

  // ---- One group -----------------------------------------------------------

  function Word(a: bv32, b: bv32, c: bv32, d: bv32): bv32 { (a << 18) | (b << 12) | (c << 6) | d }

  /** The three bytes that a group is written as. */
  function Triple(v: bv32): (t: seq<bv8>)
    ensures |t| == 3
  {
    [((v >> 16) & 0xff) as bv8, ((v >> 8) & 0xff) as bv8, (v & 0xff) as bv8]
  }

  predicate IsLane(a: bv32) { a < 64 || a == 0xFFFF_FFFF }

  lemma SignOfWord(a: bv32, b: bv32, c: bv32, d: bv32)
    requires IsLane(a) && IsLane(b) && IsLane(c) && IsLane(d)
    ensures Word(a, b, c, d) >> 31 == if a < 64 && b < 64 && c < 64 && d < 64 then 0 else 1
  {}

  lemma BytesOfWord(a: bv32, b: bv32, c: bv32, d: bv32)
    requires a < 64 && b < 64 && c < 64 && d < 64
    ensures var v := Word(a, b, c, d);
            var k0, k1, k2 := ((v >> 16) & 0xff) as bv8, ((v >> 8) & 0xff) as bv8, (v & 0xff) as bv8;
            && k0 >> 2 == a as bv8 && ((k0 & 3) << 4) | (k1 >> 4) == b as bv8
            && ((k1 & 15) << 2) | (k2 >> 6) == c as bv8 && k2 & 63 == d as bv8
  {}

  lemma FirstSix(k: bv8)
    ensures (k >> 2) as int == (k as int) / 4
  {}

  lemma SecondSix(k: bv8, l: bv8)
    ensures (((k & 3) << 4) | (l >> 4)) as int == (k as int) % 4 * 16 + (l as int) / 16
  {
    DisjointOr4((k & 3) << 4, l >> 4);
    LowTwo(k);
    HighFour(l);
  }

  lemma DisjointOr4(x: bv8, y: bv8)
    requires x & 15 == 0 && y < 16 && x < 64
    ensures (x | y) as int == x as int + y as int
  {}

  lemma LowTwo(k: bv8)
    ensures ((k & 3) << 4) as int == (k as int) % 4 * 16
  {}

  lemma HighFour(k: bv8)
    ensures (k >> 4) as int == (k as int) / 16
  {}

  lemma ThirdSix(k: bv8, l: bv8)
    ensures (((k & 15) << 2) | (l >> 6)) as int == (k as int) % 16 * 4 + (l as int) / 64
  {
    DisjointOr2((k & 15) << 2, l >> 6);
    LowFour(k);
    HighTwo(l);
  }

  lemma DisjointOr2(x: bv8, y: bv8)
    requires x & 3 == 0 && y < 4 && x < 64
    ensures (x | y) as int == x as int + y as int
  {}

  lemma LowFour(k: bv8)
    ensures ((k & 15) << 2) as int == (k as int) % 16 * 4
  {}

  lemma HighTwo(k: bv8)
    ensures (k >> 6) as int == (k as int) / 64
  {}

  lemma LastSix(k: bv8)
    ensures (k & 63) as int == (k as int) % 64
  {}

  /** The sextet characters of three bytes, in shifts and in arithmetic. */
  lemma QuadInBits(k0: bv8, k1: bv8, k2: bv8)
    ensures Quad(k0 as int, k1 as int, k2 as int) ==
            [CharOf(Letter(k0 >> 2)), CharOf(Letter(((k0 & 3) << 4) | (k1 >> 4))),
             CharOf(Letter(((k1 & 15) << 2) | (k2 >> 6))), CharOf(Letter(k2 & 63))]
  {
    FirstSix(k0);
    SecondSix(k0, k1);
    ThirdSix(k1, k2);
    LastSix(k2);
    SmallParts(k0, k1, k2);
    LetterChar(k0 >> 2);
    LetterChar(((k0 & 3) << 4) | (k1 >> 4));
    LetterChar(((k1 & 15) << 2) | (k2 >> 6));
    LetterChar(k2 & 63);
  }

  lemma SmallParts(k0: bv8, k1: bv8, k2: bv8)
    ensures k0 >> 2 < 64 && ((k0 & 3) << 4) | (k1 >> 4) < 64 && ((k1 & 15) << 2) | (k2 >> 6) < 64 && k2 & 63 < 64
  {}

  lemma TripleEncodes(src: seq<bv8>, a: bv32, b: bv32, c: bv32, d: bv32)
    requires |src| == 4 && a < 64 && b < 64 && c < 64 && d < 64
    requires Letter(a as bv8) == src[0] && Letter(b as bv8) == src[1]
    requires Letter(c as bv8) == src[2] && Letter(d as bv8) == src[3]
    ensures Encode(Numbers(Triple(Word(a, b, c, d)))) == Chars(src)
  {
    var t := Triple(Word(a, b, c, d));
    BytesOfWord(a, b, c, d);
    QuadInBits(t[0], t[1], t[2]);
    EncodeTriple(Numbers(t));
  }

  lemma EncodeTriple(t: seq<nat>)
    requires |t| == 3 && IsBytes(t)
    ensures Encode(t) == Quad(t[0], t[1], t[2])
  {
    assert t[3..] == [];
  }

  method DecodeCharacter(b: bv8) returns (lane: bv32)
    ensures IsLane(lane) && (IsSextetChar(CharOf(b)) <==> lane < 64)
    ensures lane < 64 ==> Letter(lane as bv8) == b
  {
    lane := Lane(Promoted(b));
    LaneIsSixBits(b);
    SixBitsOfLetter(b);
    AlphabetChar(b);
  }

  /** The sign of the value of a group says whether all four characters are of
      the alphabet, and if so its three bytes encode to the group. */
  ghost predicate IsValue(src: seq<bv8>, val: bv32)
    requires |src| == 4
  {
    && val >> 31 < 2
    && (val >> 31 == 0 <==> SextetChars(Chars(src)))
    && (val >> 31 == 0 ==> Encode(Numbers(Triple(val))) == Chars(src))
  }

  /** decode_base64: its loop over four characters, written out. */
  method DecodeBase64(src: seq<bv8>) returns (val: bv32)
    requires |src| == 4
    ensures IsValue(src, val)
  {
    var a := DecodeCharacter(src[0]);
    var b := DecodeCharacter(src[1]);
    var c := DecodeCharacter(src[2]);
    var d := DecodeCharacter(src[3]);
    val := (a << 18) | (b << 12) | (c << 6) | d;
    SignOfWord(a, b, c, d);
    FourChars(src);
    if a < 64 && b < 64 && c < 64 && d < 64 { TripleEncodes(src, a, b, c, d); }
  }

  lemma FourChars(src: seq<bv8>)
    requires |src| == 4
    ensures SextetChars(Chars(src)) <==>
            IsSextetChar(CharOf(src[0])) && IsSextetChar(CharOf(src[1]))
            && IsSextetChar(CharOf(src[2])) && IsSextetChar(CharOf(src[3]))
  {
    var t := Chars(src);
    assert SextetChars(t) ==> IsSextetChar(t[0]) && IsSextetChar(t[1]) && IsSextetChar(t[2]) && IsSextetChar(t[3]);
  }

  // ---- Public keys and signatures ------------------------------------------

  /** What has been decoded of a text so far. */
  ghost predicate DecodedSoFar(text: seq<bv8>, k: nat, bytes: seq<bv8>, bad: bool)
    requires 4 * k <= |text| && 3 * k <= |bytes|
  {
    && (!bad <==> SextetChars(Chars(text[..4 * k])))
    && (!bad ==> Encode(Numbers(bytes[..3 * k])) == Chars(text[..4 * k]))
  }

  lemma JoinGroups(front: seq<bv8>, group: seq<bv8>, bytes: seq<bv8>, t: seq<bv8>)
    requires |bytes| % 3 == 0
    ensures SextetChars(Chars(front + group)) <==> SextetChars(Chars(front)) && SextetChars(Chars(group))
    ensures Encode(Numbers(bytes)) == Chars(front) && Encode(Numbers(t)) == Chars(group) ==>
              Encode(Numbers(bytes + t)) == Chars(front + group)
  {
    CharsConcat(front, group);
    AlphabetConcat(Chars(front), Chars(group));
    NumbersConcat(bytes, t);
    EncodeConcat(Numbers(bytes), Numbers(t));
  }

  lemma DecodeStep(text: seq<bv8>, k: nat, bytes: seq<bv8>, more: seq<bv8>, bad: bool, t: seq<bv8>, good: bool)
    requires 4 * k + 4 <= |text| && 3 * k + 3 <= |bytes| == |more| && |t| == 3
    requires DecodedSoFar(text, k, bytes, bad) && more == bytes[..3 * k] + t + bytes[3 * k + 3..]
    requires good <==> SextetChars(Chars(text[4 * k..4 * k + 4]))
    requires good ==> Encode(Numbers(t)) == Chars(text[4 * k..4 * k + 4])
    ensures DecodedSoFar(text, k + 1, more, bad || !good)
  {
    var group, front := text[4 * k..4 * k + 4], text[..4 * k];
    assert text[..4 * (k + 1)] == front + group;
    assert more[..3 * (k + 1)] == bytes[..3 * k] + t;
    JoinGroups(front, group, bytes[..3 * k], t);
  }

  lemma CharsConcat(a: seq<bv8>, b: seq<bv8>)
    ensures Chars(a + b) == Chars(a) + Chars(b)
  {}

  lemma NumbersConcat(a: seq<bv8>, b: seq<bv8>)
    ensures Numbers(a + b) == Numbers(a) + Numbers(b)
  {}

  /** The text is the canonical encoding of n bytes. */
  ghost predicate Encodes(text: seq<bv8>, n: nat) {
    exists bytes: seq<nat> :: IsBytes(bytes) && |bytes| == n && Encode(bytes) == Chars(text)
  }

  method Store(out: array<bv8>, i: nat, val: bv32)
    requires 3 * i + 3 <= out.Length
    modifies out
    ensures out[..] == old(out[..3 * i]) + Triple(val) + old(out[3 * i + 3..])
  {
    out[i * 3 + 0] := ((val >> 16) & 0xff) as bv8;
    out[i * 3 + 1] := ((val >> 8) & 0xff) as bv8;
    out[i * 3 + 2] := (val & 0xff) as bv8;
  }

  lemma Stored(before: seq<bv8>, after: seq<bv8>, t: seq<bv8>, k: nat, end: nat)
    requires |t| == 3 && 3 * k + 3 <= end <= |before| && after == before[..3 * k] + t + before[3 * k + 3..]
    ensures |after| == |before| && after[end..] == before[end..]
  {}

  /** The loop over whole groups. */
  method DecodeWholeGroups(out: array<bv8>, base64: seq<bv8>, groups: nat) returns (ret: bv8)
    requires 3 * groups <= out.Length && 4 * groups <= |base64|
    modifies out
    ensures DecodedSoFar(base64, groups, out[..], ret != 0)
    ensures out[3 * groups..] == old(out[3 * groups..]) && ret < 2
  {
    ret := 0;
    assert Chars(base64[..0]) == "" && Numbers(out[..0]) == [];
    for i := 0 to groups
      invariant ret < 2 && DecodedSoFar(base64, i, out[..], ret != 0)
      invariant out[3 * groups..] == old(out[3 * groups..])
    {
      ghost var before := out[..];
      var val := DecodeBase64(base64[i * 4..i * 4 + 4]);
      ghost var was := ret != 0;
      OrSign(ret, val);
      ret := ret | ((val >> 31) as bv8);
      Store(out, i, val);
      Stored(before, out[..], Triple(val), i, 3 * groups);
      DecodeStep(base64, i, before, out[..], was, Triple(val), val >> 31 == 0);
    }
  }

  lemma OrSign(ret: bv8, val: bv32)
    requires ret < 2
    ensures var r := ret | ((val >> 31) as bv8); r < 2 && (r != 0 <==> ret != 0 || val >> 31 != 0)
  {}

  /** 1 & ((ret - 1) >> 8) on an int. */
  function IsZero(ret: bv8): bv32 { 1 & ShiftRight8((ret as bv32) - 1) }

  lemma IsZeroMeans(ret: bv8)
    ensures IsZero(ret) != 0 <==> ret == 0
  {}

  method PubkeyFromBase64(key: array<bv8>, base64: seq<bv8>) returns (ok: bool)
    requires key.Length == 42 && |base64| == 56
    modifies key
    ensures ok <==> Encodes(base64, 42)
    ensures ok ==> Encode(Numbers(key[..])) == Chars(base64)
  {
    var ret := DecodeWholeGroups(key, base64, 42 / 3);
    IsZeroMeans(ret);
    ok := IsZero(ret) != 0;
    assert key[..42] == key[..] && base64[..56] == base64;
    PlainEncoding(base64, 42);
  }

  lemma PlainEncoding(text: seq<bv8>, n: nat)
    requires n % 3 == 0 && |text| == n / 3 * 4
    ensures Encodes(text, n) <==> SextetChars(Chars(text))
  {
    if SextetChars(Chars(text)) {
      var bytes := DecodeGroups(Chars(text));
    }
    if bytes: seq<nat> :| IsBytes(bytes) && |bytes| == n && Encode(bytes) == Chars(text) {
      EncodeAlphabet(bytes);
    }
  }

  method SignatureFromBase64(sig: array<bv8>, base64: seq<bv8>) returns (ok: bool)
    requires sig.Length == 74 && |base64| == 100
    modifies sig
    ensures ok <==> Encodes(base64, 74)
    ensures ok ==> Encode(Numbers(sig[..])) == Chars(base64)
  {
    PaddedEncoding(base64);
    if base64[99] != 61 {
      assert Chars(base64)[96..][3] == CharOf(base64[99]);
      NotEquals(base64[99]);
      return false;
    }
    var ret := DecodeWholeGroups(sig, base64, 74 / 3);
    ghost var front, bad := sig[..72], ret != 0;
    var val := DecodeBase64(base64[96..99] + [65]);
    OrTail(ret, val);
    ret := ret | ((val >> 31) as bv8) | ((val & 0xff) as bv8);
    JoinTail(base64, sig[..], bad, val);
    sig[72] := ((val >> 16) & 0xff) as bv8;
    sig[73] := ((val >> 8) & 0xff) as bv8;
    IsZeroMeans(ret);
    ok := IsZero(ret) != 0;
    assert sig[..] == front + Triple(val)[..2];
  }

  lemma NotEquals(b: bv8)
    requires b != 61
    ensures CharOf(b) != '='
  {}

  lemma OrTail(ret: bv8, val: bv32)
    ensures ret | ((val >> 31) as bv8) | ((val & 0xff) as bv8) == 0 <==> ret == 0 && val >> 31 == 0 && val & 0xff == 0
  {}

  lemma PaddedEncoding(text: seq<bv8>)
    requires |text| == 100
    ensures Encodes(text, 74) <==> PaddedText(Chars(text))
  {
    if PaddedText(Chars(text)) {
      var bytes := DecodePadded(Chars(text));
    }
    if bytes: seq<nat> :| IsBytes(bytes) && |bytes| == 74 && Encode(bytes) == Chars(text) {
      assert bytes == bytes[..72] + [bytes[72], bytes[73]];
      EncodedPadded(bytes[..72], bytes[72], bytes[73]);
    }
  }

  /** The last group has its padding replaced by A; its low byte tells whether
      the two spare bits are clear. */
  lemma TailDecodes(last: seq<bv8>, val: bv32)
    requires |last| == 4 && last[3] == 61 && IsValue(last[..3] + [65], val)
    ensures TailText(Chars(last)) <==> val >> 31 == 0 && val & 0xff == 0
    ensures TailText(Chars(last)) ==> Encode(Numbers(Triple(val)[..2])) == Chars(last)
  {
    var group := last[..3] + [65];
    FourChars(group);
    LastChars(last);
    if val >> 31 == 0 {
      var t := Numbers(Triple(val));
      EncodeTriple(t);
      TailBytes(t[0], t[1], t[2], Chars(last));
      LowByte(val);
      assert Numbers(Triple(val)[..2]) == [t[0], t[1]];
    }
  }

  lemma LastChars(last: seq<bv8>)
    requires |last| == 4 && last[3] == 61
    ensures Chars(last)[3] == '=' && Chars(last[..3] + [65]) == Chars(last)[..3] + "A"
    ensures TailText(Chars(last)) ==> IsSextetChar(CharOf(last[2])) && IsSextetChar(CharOf(65))
  {
    assert CharOf(65) == 'A';
  }

  lemma LowByte(val: bv32)
    ensures val & 0xff == 0 <==> ((val & 0xff) as bv8) as int == 0
  {}

  lemma TailBytes(a: nat, b: nat, c: nat, last: string)
    requires a < 256 && b < 256 && c < 256 && |last| == 4 && last[3] == '='
    requires Quad(a, b, c) == last[..3] + "A"
    ensures TailText(last) <==> c == 0
    ensures c == 0 ==> Encode([a, b]) == last
  {
    var q := Quad(a, b, c);
    GroupOfQuad(a, b, c);
    assert q[3] == 'A' && forall i :: 0 <= i < 3 ==> q[i] == last[i];
    RegroupBytes(a, b, c);
    SextetOfChar(c % 64);
    SextetOfChar(b % 16 * 4 + c / 64);
    PaddingCharValue(last[2]);
    assert c % 64 == 0;
    SpareBits(b, c);
    if c == 0 { assert last == last[..3] + "="; }
  }

  lemma SpareBits(b: nat, c: nat)
    requires c < 256 && c % 64 == 0
    ensures (b % 16 * 4 + c / 64) % 4 == 0 <==> c == 0
  {}

  lemma JoinTail(text: seq<bv8>, bytes: seq<bv8>, bad: bool, val: bv32)
    requires |text| == 100 && |bytes| == 74 && text[99] == 61 && DecodedSoFar(text, 24, bytes, bad)
    requires IsValue(text[96..99] + [65], val)
    ensures PaddedText(Chars(text)) <==> !bad && val >> 31 == 0 && val & 0xff == 0
    ensures PaddedText(Chars(text)) ==> Encode(Numbers(bytes[..72] + Triple(val)[..2])) == Chars(text)
  {
    var front, last, two := text[..96], text[96..], Triple(val)[..2];
    assert last[..3] == text[96..99];
    TailDecodes(last, val);
    assert text == front + last;
    CharsConcat(front, last);
    assert Chars(text)[..96] == Chars(front) && Chars(text)[96..] == Chars(last);
    NumbersConcat(bytes[..72], two);
    EncodeConcat(Numbers(bytes[..72]), Numbers(two));
  }

  // ---- Hashes in hexadecimal -----------------------------------------------

  predicate IsHex(b: bv8) { 48 <= b <= 57 || 65 <= b <= 70 || 97 <= b <= 102 }

  predicate AllHex(hex: seq<bv8>) { forall i :: 0 <= i < |hex| ==> IsHex(hex[i]) }

  /** The value of a digit; what is not a digit counts as zero. */
  function Nibble(b: bv8): bv8 {
    if 48 <= b <= 57 then b - 48 else if 65 <= b <= 70 then b - 55 else if 97 <= b <= 102 then b - 87 else 0
  }

  function PairValue(high: bv8, low: bv8): bv8 { (Nibble(high) << 4) | Nibble(low) }

  function HexBytes(hex: seq<bv8>): (bytes: seq<bv8>)
    requires |hex| % 2 == 0
    ensures |bytes| == |hex| / 2 && forall i :: 0 <= i < |bytes| ==> bytes[i] == PairValue(hex[2 * i], hex[2 * i + 1])
  {
    seq(|hex| / 2, i requires 0 <= i < |hex| / 2 => PairValue(hex[2 * i], hex[2 * i + 1]))
  }

  function HexDigit(v: bv8): bv8 { if v < 10 then v + 48 else v + 87 }

  /** Lower-case hexadecimal. */
  function HexText(bytes: seq<bv8>): (hex: seq<bv8>)
    ensures |hex| == 2 * |bytes|
    ensures forall i :: 0 <= i < |bytes| ==> hex[2 * i] == HexDigit(bytes[i] >> 4) && hex[2 * i + 1] == HexDigit(bytes[i] & 15)
  {
    seq(2 * |bytes|, k requires 0 <= k < 2 * |bytes| => HexDigitAt(bytes, k))
  }

  function HexDigitAt(bytes: seq<bv8>, k: nat): bv8
    requires k < 2 * |bytes|
  {
    if k % 2 == 0 then HexDigit(bytes[k / 2] >> 4) else HexDigit(bytes[k / 2] & 15)
  }

  lemma HexDigits(b: bv8)
    ensures IsHex(HexDigit(b >> 4)) && IsHex(HexDigit(b & 15)) && PairValue(HexDigit(b >> 4), HexDigit(b & 15)) == b
  {}

  /** Every hash is what its text decodes to. */
  lemma HexRoundTrip(bytes: seq<bv8>)
    ensures AllHex(HexText(bytes)) && HexBytes(HexText(bytes)) == bytes
  {
    var hex := HexText(bytes);
    forall k | 0 <= k < |hex| ensures IsHex(hex[k]) {
      HexDigits(bytes[k / 2]);
      assert k == 2 * (k / 2) || k == 2 * (k / 2) + 1;
    }
    forall i | 0 <= i < |bytes| ensures HexBytes(hex)[i] == bytes[i] {
      HexDigits(bytes[i]);
    }
  }

  function LowerDigit(b: bv8): bv8 { if 65 <= b <= 70 then b + 32 else b }

  lemma DigitsOfPair(high: bv8, low: bv8, b: bv8)
    ensures IsHex(high) && IsHex(low) && PairValue(high, low) == b <==>
            LowerDigit(high) == HexDigit(b >> 4) && LowerDigit(low) == HexDigit(b & 15)
  {}

  /** A text decodes to these bytes exactly when it is their hexadecimal text, in
      capitals or not. */
  lemma HexExactly(hex: seq<bv8>, bytes: seq<bv8>)
    requires |hex| == 2 * |bytes|
    ensures AllHex(hex) && HexBytes(hex) == bytes <==>
            forall k :: 0 <= k < |hex| ==> LowerDigit(hex[k]) == HexText(bytes)[k]
  {
    forall i | 0 <= i < |bytes|
      ensures IsHex(hex[2 * i]) && IsHex(hex[2 * i + 1]) && HexBytes(hex)[i] == bytes[i] <==>
              LowerDigit(hex[2 * i]) == HexText(bytes)[2 * i] && LowerDigit(hex[2 * i + 1]) == HexText(bytes)[2 * i + 1]
    {
      DigitsOfPair(hex[2 * i], hex[2 * i + 1], bytes[i]);
    }
    if AllHex(hex) && HexBytes(hex) == bytes {
      forall k | 0 <= k < |hex| ensures LowerDigit(hex[k]) == HexText(bytes)[k] {
        assert k == 2 * (k / 2) || k == 2 * (k / 2) + 1;
      }
    }
    if forall k :: 0 <= k < |hex| ==> LowerDigit(hex[k]) == HexText(bytes)[k] {
      forall k | 0 <= k < |hex| ensures IsHex(hex[k]) {
        assert k == 2 * (k / 2) || k == 2 * (k / 2) + 1;
      }
    }
  }

  /** The masks for one digit; the arithmetic is on unsigned int but for the
      last one, which is on int. */
  method DecodeDigit(c: bv8) returns (value: bv8, bad: bv8)
    ensures value == Nibble(c) && bad == if IsHex(c) then 0 else 0xff
  {
    var num := c ^ 48;
    var num0 := ((((num as bv32) - 10) >> 8) & 0xff) as bv8;
    var alpha := ((((c as bv32) & 0xFFFF_FFDF) - 55) & 0xff) as bv8;
    var alpha0 := (((((alpha as bv32) - 10) ^ ((alpha as bv32) - 16)) >> 8) & 0xff) as bv8;
    bad := (ShiftRight8(((num0 | alpha0) as bv32) - 1) & 0xff) as bv8;
    value := (num0 & num) | (alpha0 & alpha);
  }

  method HashFromHex(hash: array<bv8>, hex: seq<bv8>) returns (ok: bool)
    requires hash.Length == 32 && |hex| == 64
    modifies hash
    ensures hash[..] == HexBytes(hex)
    ensures ok <==> AllHex(hex)
  {
    var ret: bv8 := 0;
    for i := 0 to 32
      invariant forall k :: 0 <= k < i ==> hash[k] == PairValue(hex[2 * k], hex[2 * k + 1])
      invariant ret == 0 <==> AllHex(hex[..2 * i])
    {
      var high, badHigh := DecodeDigit(hex[2 * i]);
      var acc := high * 16;
      var low, badLow := DecodeDigit(hex[2 * i + 1]);
      Accumulated(high, low, hex[2 * i], hex[2 * i + 1]);
      AccumulatedFaults(ret, badHigh, badLow);
      hash[i] := acc | low;
      ret := ret | badHigh | badLow;
      TwoMoreDigits(hex, 2 * i);
    }
    assert hex[..64] == hex;
    IsZeroMeans(ret);
    ok := IsZero(ret) != 0;
  }

  lemma Accumulated(high: bv8, low: bv8, h: bv8, l: bv8)
    requires high == Nibble(h) && low == Nibble(l)
    ensures (high * 16) | low == PairValue(h, l)
  {}

  lemma AccumulatedFaults(ret: bv8, a: bv8, b: bv8)
    ensures ret | a | b == 0 <==> ret == 0 && a == 0 && b == 0
  {}

  lemma TwoMoreDigits(hex: seq<bv8>, k: nat)
    requires k + 2 <= |hex|
    ensures AllHex(hex[..k + 2]) <==> AllHex(hex[..k]) && IsHex(hex[k]) && IsHex(hex[k + 1])
  {
    assert hex[..k + 2] == hex[..k] + [hex[k], hex[k + 1]];
  }
}
