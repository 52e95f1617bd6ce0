// Base64 with padding, sections 3.5 and 4 of RFC 4648, over bytes 0..255.
module Base64 {
  import opened Text

  predicate IsBytes(s: seq<nat>) { forall i :: 0 <= i < |s| ==> s[i] < 256 }

  /** The alphabet, from value to character. */
  function SextetChar(v: nat): (c: char)
    requires v < 64
  {
    if v < 26 then (v + 'A' as int) as char
    else if v < 52 then (v - 26 + 'a' as int) as char
    else if v < 62 then (v - 52 + '0' as int) as char
    else if v == 62 then '+' else '/'
  }

  predicate IsSextetChar(c: char) {
    'A' <= c <= 'Z' || 'a' <= c <= 'z' || '0' <= c <= '9' || c == '+' || c == '/'
  }

  /** The alphabet, from character to value. */
  function Sextet(c: char): (v: nat)
    requires IsSextetChar(c)
    ensures v < 64 && SextetChar(v) == c
  {
    if 'A' <= c <= 'Z' then c as int - 'A' as int
    else if 'a' <= c <= 'z' then c as int - 'a' as int + 26
    else if '0' <= c <= '9' then c as int - '0' as int + 52
    else if c == '+' then 62 else 63
  }

  lemma SextetOfChar(v: nat)
    requires v < 64
    ensures IsSextetChar(SextetChar(v)) && Sextet(SextetChar(v)) == v
  {}

  /** Four characters for three bytes. */
  function Quad(a: nat, b: nat, c: nat): (s: string)
    requires a < 256 && b < 256 && c < 256
    ensures |s| == 4
  {
    [SextetChar(a / 4), SextetChar(a % 4 * 16 + b / 16), SextetChar(b % 16 * 4 + c / 64), SextetChar(c % 64)]
  }

  function Encode(bytes: seq<nat>): (s: string)
    requires IsBytes(bytes)
    ensures |s| == (|bytes| + 2) / 3 * 4
    decreases |bytes|
  {
    if bytes == [] then ""
    else if |bytes| == 1 then Quad(bytes[0], 0, 0)[..2] + "=="
    else if |bytes| == 2 then Quad(bytes[0], bytes[1], 0)[..3] + "="
    else Quad(bytes[0], bytes[1], bytes[2]) + Encode(bytes[3..])
  }

  /** The 24-bit value of four characters, most significant first. */
  function GroupValue(s: string): (v: nat)
    requires |s| == 4 && forall i :: 0 <= i < 4 ==> IsSextetChar(s[i])
    ensures v < 0x100_0000
  {
    Sextet(s[0]) * 262144 + Sextet(s[1]) * 4096 + Sextet(s[2]) * 64 + Sextet(s[3])
  }

  /** The three bytes of a 24-bit value. */
  function Bytes3(v: nat): (b: seq<nat>)
    requires v < 0x100_0000
    ensures |b| == 3 && IsBytes(b)
  {
    [v / 65536, v / 256 % 256, v % 256]
  }

  lemma BytesOfSum(p: nat, q: nat, r: nat)
    requires p < 256 && q < 256 && r < 256
    ensures Bytes3(p * 65536 + q * 256 + r) == [p, q, r]
  {
    var v := p * 65536 + q * 256 + r;
    assert v / 65536 == p && v % 256 == r && v / 256 == p * 256 + q;
  }

  /** Six bits at a time or eight bits at a time: the same 24 bits. */
  lemma SplitValue(x: nat, y: nat, z: nat, w: nat)
    requires x < 64 && y < 64 && z < 64 && w < 64
    ensures x * 4 + y / 16 < 256 && y % 16 * 16 + z / 4 < 256 && z % 4 * 64 + w < 256
    ensures x * 262144 + y * 4096 + z * 64 + w < 0x100_0000
    ensures Bytes3(x * 262144 + y * 4096 + z * 64 + w) == [x * 4 + y / 16, y % 16 * 16 + z / 4, z % 4 * 64 + w]
  {
    var p, q, r := x * 4 + y / 16, y % 16 * 16 + z / 4, z % 4 * 64 + w;
    assert p * 65536 + q * 256 + r == x * 262144 + y * 4096 + z * 64 + w;
    BytesOfSum(p, q, r);
  }

  /** The sextets of the bytes made from four sextets, and back. */
  lemma Regroup(x: nat, y: nat, z: nat, w: nat)
    requires x < 64 && y < 64 && z < 64 && w < 64
    ensures var p, q, r := x * 4 + y / 16, y % 16 * 16 + z / 4, z % 4 * 64 + w;
            p / 4 == x && p % 4 * 16 + q / 16 == y && q % 16 * 4 + r / 64 == z && r % 64 == w
  {}

  lemma RegroupBytes(a: nat, b: nat, c: nat)
    requires a < 256 && b < 256 && c < 256
    ensures var x, y, z, w := a / 4, a % 4 * 16 + b / 16, b % 16 * 4 + c / 64, c % 64;
            x < 64 && y < 64 && z < 64 && w < 64
            && x * 4 + y / 16 == a && y % 16 * 16 + z / 4 == b && z % 4 * 64 + w == c
  {}

  lemma QuadOfSextets(x: nat, y: nat, z: nat, w: nat)
    requires x < 64 && y < 64 && z < 64 && w < 64
    ensures var b := Bytes3(x * 262144 + y * 4096 + z * 64 + w);
            Quad(b[0], b[1], b[2]) == [SextetChar(x), SextetChar(y), SextetChar(z), SextetChar(w)]
  {
    SplitValue(x, y, z, w);
    Regroup(x, y, z, w);
  }

  /** Decoding a group and encoding its bytes gives the group back. */
  lemma QuadOfGroup(s: string)
    requires |s| == 4 && forall i :: 0 <= i < 4 ==> IsSextetChar(s[i])
    ensures var b := Bytes3(GroupValue(s)); Quad(b[0], b[1], b[2]) == s
  {
    var x, y, z, w := Sextet(s[0]), Sextet(s[1]), Sextet(s[2]), Sextet(s[3]);
    QuadOfSextets(x, y, z, w);
    assert s == [s[0], s[1], s[2], s[3]];
  }

  /** Encoding three bytes and decoding the group gives the bytes back. */
  lemma GroupOfQuad(a: nat, b: nat, c: nat)
    requires a < 256 && b < 256 && c < 256
    ensures forall i :: 0 <= i < 4 ==> IsSextetChar(Quad(a, b, c)[i])
    ensures Bytes3(GroupValue(Quad(a, b, c))) == [a, b, c]
  {
    RegroupBytes(a, b, c);
    var x, y, z, w := a / 4, a % 4 * 16 + b / 16, b % 16 * 4 + c / 64, c % 64;
    SextetOfChar(x);
    SextetOfChar(y);
    SextetOfChar(z);
    SextetOfChar(w);
    SplitValue(x, y, z, w);
  }

  predicate SextetChars(s: string) { forall i :: 0 <= i < |s| ==> IsSextetChar(s[i]) }

  /** Every text over the alphabet whose length is a multiple of four decodes. */
  lemma {:induction false} DecodeGroups(s: string) returns (bytes: seq<nat>)
    requires |s| % 4 == 0 && SextetChars(s)
    ensures IsBytes(bytes) && |bytes| == |s| / 4 * 3 && Encode(bytes) == s
    decreases |s|
  {
    if s == "" {
      bytes := [];
    } else {
      var head := Bytes3(GroupValue(s[..4]));
      QuadOfGroup(s[..4]);
      var rest := DecodeGroups(s[4..]);
      bytes := head + rest;
      assert bytes[3..] == rest && s == s[..4] + s[4..];
    }
  }

  lemma {:induction false} EncodeAlphabet(bytes: seq<nat>)
    requires IsBytes(bytes) && |bytes| % 3 == 0
    ensures SextetChars(Encode(bytes))
    decreases |bytes|
  {
    if bytes != [] {
      QuadAlphabet(bytes[0], bytes[1], bytes[2]);
      EncodeAlphabet(bytes[3..]);
      AlphabetConcat(Quad(bytes[0], bytes[1], bytes[2]), Encode(bytes[3..]));
    }
  }

  lemma QuadAlphabet(a: nat, b: nat, c: nat)
    requires a < 256 && b < 256 && c < 256
    ensures SextetChars(Quad(a, b, c))
  {
    GroupOfQuad(a, b, c);
  }

  lemma AlphabetConcat(s: string, t: string)
    ensures SextetChars(s + t) <==> SextetChars(s) && SextetChars(t)
  {
    assert SextetChars(s + t) ==> (forall i :: 0 <= i < |s| ==> (s + t)[i] == s[i]) && forall i :: 0 <= i < |t| ==> (s + t)[|s| + i] == t[i];
  }

  lemma {:induction false} EncodeConcat(bytes: seq<nat>, tail: seq<nat>)
    requires IsBytes(bytes) && IsBytes(tail) && |bytes| % 3 == 0
    ensures IsBytes(bytes + tail) && Encode(bytes + tail) == Encode(bytes) + Encode(tail)
    decreases |bytes|
  {
    var both := bytes + tail;
    if bytes == [] {
      assert both == tail;
    } else {
      assert both[3..] == bytes[3..] + tail;
      EncodeConcat(bytes[3..], tail);
      var q := Quad(bytes[0], bytes[1], bytes[2]);
      assert Encode(both) == q + Encode(both[3..]);
      Associates(q, Encode(bytes[3..]), Encode(tail));
    }
  }

  /** The last character before the padding of a two-byte tail leaves its two
      low bits clear. */
  predicate PaddingChar(c: char) {
    || c == 'A' || c == 'E' || c == 'I' || c == 'M' || c == 'Q' || c == 'U' || c == 'Y' || c == 'c'
    || c == 'g' || c == 'k' || c == 'o' || c == 's' || c == 'w' || c == '4' || c == '8' || c == '0'
  }

  lemma PaddingCharValue(c: char)
    requires IsSextetChar(c)
    ensures PaddingChar(c) <==> Sextet(c) % 4 == 0
  {}

  predicate TailText(s: string) {
    |s| == 4 && IsSextetChar(s[0]) && IsSextetChar(s[1]) && PaddingChar(s[2]) && s[3] == '='
  }

  /** The padded tail: exactly the encodings of two bytes. */
  lemma DecodeTail(s: string) returns (a: nat, b: nat)
    requires TailText(s)
    ensures a < 256 && b < 256 && Encode([a, b]) == s
  {
    var g := s[..3] + "A";
    PaddingCharValue(s[2]);
    QuadOfGroup(g);
    SplitValue(Sextet(g[0]), Sextet(g[1]), Sextet(g[2]), 0);
    var v := Bytes3(GroupValue(g));
    a, b := v[0], v[1];
    assert v[2] == 0;
    assert Quad(a, b, 0)[..3] == s[..3];
    assert s == s[..3] + "=";
  }

  lemma EncodeTail(a: nat, b: nat)
    requires a < 256 && b < 256
    ensures TailText(Encode([a, b]))
  {
    var q := Quad(a, b, 0);
    GroupOfQuad(a, b, 0);
    SextetOfChar(b % 16 * 4);
    assert q[2] == SextetChar(b % 16 * 4);
    PaddingCharValue(q[2]);
    assert Encode([a, b]) == q[..3] + "=";
  }

  /** The canonical text of a 32-byte key. */
  ghost predicate KeyEncoding(s: string) {
    exists key: seq<nat> :: IsBytes(key) && |key| == 32 && s == Encode(key)
  }

  predicate KeyChars(s: string) {
    |s| == 44 && SextetChars(s[..40]) && TailText(s[40..])
  }

  /** The encodings of 32 bytes, character by character. */
  lemma KeyText(s: string)
    ensures KeyEncoding(s) <==> KeyChars(s)
  {
    if KeyChars(s) {
      var key := DecodePadded(s);
    }
    if key: seq<nat> :| IsBytes(key) && |key| == 32 && s == Encode(key) {
      assert key == key[..30] + [key[30], key[31]];
      EncodedPadded(key[..30], key[30], key[31]);
    }
  }

  predicate PaddedText(s: string) {
    |s| >= 4 && |s| % 4 == 0 && SextetChars(s[..|s| - 4]) && TailText(s[|s| - 4..])
  }

  /** The text of any number of groups and a two-byte tail. */
  lemma DecodePadded(s: string) returns (bytes: seq<nat>)
    requires PaddedText(s)
    ensures IsBytes(bytes) && |bytes| == |s| / 4 * 3 - 1 && Encode(bytes) == s
  {
    var n := |s| - 4;
    var front := DecodeGroups(s[..n]);
    var a, b := DecodeTail(s[n..]);
    EncodeConcat(front, [a, b]);
    assert s == s[..n] + s[n..];
    bytes := front + [a, b];
  }

  lemma EncodedPadded(front: seq<nat>, a: nat, b: nat)
    requires IsBytes(front) && a < 256 && b < 256 && |front| % 3 == 0
    ensures IsBytes(front + [a, b]) && PaddedText(Encode(front + [a, b]))
    ensures |Encode(front + [a, b])| == |front| / 3 * 4 + 4
  {
    EncodeConcat(front, [a, b]);
    EncodeAlphabet(front);
    EncodeTail(a, b);
    GroupCount(|front|);
    var s, t := Encode(front), Encode([a, b]);
    PaddedConcat(s, t);
  }

  lemma GroupCount(n: nat)
    requires n % 3 == 0
    ensures (n + 2) / 3 * 4 == n / 3 * 4 && n / 3 * 4 % 4 == 0
  {}

  lemma PaddedConcat(s: string, t: string)
    requires SextetChars(s) && |s| % 4 == 0 && TailText(t)
    ensures PaddedText(s + t)
  {
    assert (s + t)[..|s|] == s && (s + t)[|s|..] == t;
  }

  lemma QuadInjective(a: nat, b: nat, c: nat, x: nat, y: nat, z: nat)
    requires a < 256 && b < 256 && c < 256 && x < 256 && y < 256 && z < 256
    requires Quad(a, b, c) == Quad(x, y, z)
    ensures a == x && b == y && c == z
  {
    GroupOfQuad(a, b, c);
    GroupOfQuad(x, y, z);
    assert [a, b, c][0] == a && [a, b, c][1] == b && [a, b, c][2] == c;
    assert [x, y, z][0] == x && [x, y, z][1] == y && [x, y, z][2] == z;
  }

  /** Different byte strings of one length have different texts. */
  lemma {:induction false} EncodeInjective(x: seq<nat>, y: seq<nat>)
    requires IsBytes(x) && IsBytes(y) && |x| == |y| && Encode(x) == Encode(y)
    ensures x == y
    decreases |x|
  {
    if |x| >= 3 {
      var p, q := Quad(x[0], x[1], x[2]), Quad(y[0], y[1], y[2]);
      assert Encode(x) == p + Encode(x[3..]) && Encode(y) == q + Encode(y[3..]);
      assert p == Encode(x)[..4] && q == Encode(y)[..4];
      assert Encode(x[3..]) == Encode(x)[4..] && Encode(y[3..]) == Encode(y)[4..];
      QuadInjective(x[0], x[1], x[2], y[0], y[1], y[2]);
      EncodeInjective(x[3..], y[3..]);
      assert x == x[..3] + x[3..] && y == y[..3] + y[3..];
    } else if |x| == 2 {
      TailInjective(x[0], x[1], y[0], y[1], 3);
    } else if |x| == 1 {
      TailInjective(x[0], 0, y[0], 0, 2);
    }
  }

  lemma TailInjective(a: nat, b: nat, x: nat, y: nat, k: nat)
    requires a < 256 && b < 256 && x < 256 && y < 256 && 2 <= k <= 3 && (k == 2 ==> b == 0 && y == 0)
    requires Quad(a, b, 0)[..k] + "==="[k - 1..] == Quad(x, y, 0)[..k] + "==="[k - 1..]
    ensures a == x && b == y
  {
    var p, q, s := Quad(a, b, 0), Quad(x, y, 0), Quad(a, b, 0)[..k] + "==="[k - 1..];
    assert p[..k] == s[..k] && q[..k] == s[..k];
    assert forall i :: 0 <= i < k ==> p[i] == s[i] && q[i] == s[i];
    assert p == q;
    QuadInjective(a, b, 0, x, y, 0);
  }
}
