// The text forms of IP addresses, stated without any scanner: IPv4 as four
// decimal octets, IPv6 as section 2.2 of RFC 4291 describes it.
module AddressGrammar {
  import opened Text

  // ---- IPv4 ----------------------------------------------------------------

  /** A decimal number up to 255 without leading zeros. */
  predicate Octet(s: string) {
    Canonical(s) && |s| <= 3 && Value(s) <= 255
  }

  predicate AllOctets(parts: seq<string>) {
    forall i :: 0 <= i < |parts| ==> Octet(parts[i])
  }

  predicate Octets(s: string, n: int) {
    var parts := Split(s, '.');
    |parts| == n && AllOctets(parts)
  }

  predicate DottedQuad(s: string) { Octets(s, 4) }

  function RenderQuad(a: nat, b: nat, c: nat, d: nat): string {
    Join([Render(a), Render(b), Render(c), Render(d)], ".")
  }

  lemma DigitsFree(s: string, c: char)
    requires AllDigits(s) && !IsDigit(c)
    ensures c !in s
  {}

  lemma OctetRender(n: nat)
    requires n <= 255
    ensures Octet(Render(n)) && '.' !in Render(n)
  {
    ValueOfRender(n);
    RenderLength(n);
    DigitsFree(Render(n), '.');
  }

  lemma QuadHasRendering(s: string) returns (a: nat, b: nat, c: nat, d: nat)
    requires DottedQuad(s)
    ensures a <= 255 && b <= 255 && c <= 255 && d <= 255 && s == RenderQuad(a, b, c, d)
  {
    var p := Split(s, '.');
    JoinSplit(s, '.');
    forall i | 0 <= i < 4 ensures Render(Value(p[i])) == p[i] { RenderOfValue(p[i]); }
    a, b, c, d := Value(p[0]), Value(p[1]), Value(p[2]), Value(p[3]);
    assert p == [p[0], p[1], p[2], p[3]];
  }

  lemma RenderingIsQuad(a: nat, b: nat, c: nat, d: nat)
    requires a <= 255 && b <= 255 && c <= 255 && d <= 255
    ensures DottedQuad(RenderQuad(a, b, c, d))
  {
    OctetRender(a);
    OctetRender(b);
    OctetRender(c);
    OctetRender(d);
    SplitJoin([Render(a), Render(b), Render(c), Render(d)], '.');
  }

  /** The dotted quads are exactly the canonical renderings of four bytes. */
  lemma DottedQuadIsRendering(s: string)
    ensures DottedQuad(s) <==>
            exists a: nat, b: nat, c: nat, d: nat ::
              a <= 255 && b <= 255 && c <= 255 && d <= 255 && s == RenderQuad(a, b, c, d)
  {
    if DottedQuad(s) {
      var a, b, c, d := QuadHasRendering(s);
    }
    forall a: nat, b: nat, c: nat, d: nat
      | a <= 255 && b <= 255 && c <= 255 && d <= 255 && s == RenderQuad(a, b, c, d)
      ensures DottedQuad(s)
    {
      RenderingIsQuad(a, b, c, d);
    }
  }

  // ---- IPv6 ----------------------------------------------------------------

  predicate IsHex(c: char) { IsDigit(c) || 'a' <= c <= 'f' || 'A' <= c <= 'F' }

  predicate HexGroup(s: string) {
    1 <= |s| <= 4 && forall i :: 0 <= i < |s| ==> IsHex(s[i])
  }

  predicate AllHexGroups(parts: seq<string>) {
    parts == [] || (HexGroup(parts[0]) && AllHexGroups(parts[1..]))
  }

  /** Hexadecimal groups, the last of which may be a dotted quad. */
  predicate MixedParts(parts: seq<string>)
    requires parts != []
  {
    if |parts| == 1 then HexGroup(parts[0]) || DottedQuad(parts[0])
    else HexGroup(parts[0]) && MixedParts(parts[1..])
  }

  /** Colon-separated hexadecimal groups. */
  predicate Groups(t: string) { AllHexGroups(Split(t, ':')) }

  /** Colon-separated hexadecimal groups, the last of which may be a dotted quad. */
  predicate MixedGroups(t: string) { MixedParts(Split(t, ':')) }

  /** How many 16-bit groups a list of groups denotes; a dotted quad denotes two. */
  function Width(t: string): nat {
    var parts := Split(t, ':');
    if t == "" then 0 else |parts| + if DottedQuad(parts[|parts| - 1]) then 1 else 0
  }

  /** Nothing, or groups denoting at most n 16-bit groups. */
  predicate AtMost(t: string, n: int) {
    (t == "" || MixedGroups(t)) && Width(t) <= n
  }

  /** A "::" at p, standing for at least one group. */
  predicate ElidedAt(s: string, p: int) {
    && 0 <= p <= |s| - 2
    && s[p] == ':' && s[p + 1] == ':'
    && (p == 0 || Groups(s[..p]))
    && AtMost(s[p + 2..], 7 - Width(s[..p]))
  }

  ghost predicate IPv6Text(s: string) {
    || (MixedGroups(s) && Width(s) == 8)
    || exists p :: ElidedAt(s, p)
  }

  // ---- How the grammar reads from left to right ----------------------------

  lemma HexIsNotPunctuation(s: string)
    requires HexGroup(s)
    ensures ':' !in s && '.' !in s && !DottedQuad(s)
  {
    SplitWithout(s, '.');
  }

  lemma QuadHasNoColon(s: string)
    requires DottedQuad(s)
    ensures ':' !in s
  {
    var p := Split(s, '.');
    forall i | 0 <= i < |p| ensures ':' !in p[i] {
      DigitsFree(p[i], ':');
    }
    JoinSplit(s, '.');
    JoinFree(p, ".", ':');
  }

  lemma {:induction false} JoinFree(parts: seq<string>, sep: string, c: char)
    requires c !in sep && Free(parts, c)
    ensures c !in Join(parts, sep)
    decreases |parts|
  {
    if |parts| > 1 { JoinFree(parts[1..], sep, c); }
  }

  /** A group followed by a colon is split off as the first piece. */
  lemma SplitGroup(t: string, j: nat)
    requires j < |t| && HexGroup(t[..j]) && t[j] == ':'
    ensures Split(t, ':') == [t[..j]] + Split(t[j + 1..], ':')
  {
    HexIsNotPunctuation(t[..j]);
    IndexOfUnique(t, ':', j);
  }

  lemma StepMixed(t: string, j: nat)
    requires j < |t| && HexGroup(t[..j]) && t[j] == ':'
    ensures MixedGroups(t) <==> MixedGroups(t[j + 1..])
    ensures Groups(t) <==> Groups(t[j + 1..])
    ensures t[j + 1..] != "" ==> Width(t) == 1 + Width(t[j + 1..])
    ensures !MixedGroups("") && !Groups("")
  {
    SplitGroup(t, j);
    SplitWithout("", ':');
    SplitWithout("", '.');
    var parts, rest := Split(t, ':'), Split(t[j + 1..], ':');
    assert parts[0] == t[..j] && parts[1..] == rest;
    assert parts[|parts| - 1] == rest[|rest| - 1];
  }

  /** A text that starts with a colon starts with an empty piece. */
  lemma LeadingColon(t: string)
    requires t != "" && t[0] == ':'
    ensures !Groups(t) && (!MixedGroups(t))
  {
    IndexOfUnique(t, ':', 0);
    var parts := Split(t, ':');
    assert parts[0] == "" && |parts| >= 2;
  }

  /** What must still follow when i groups precede t and "::" has been seen;
      "::" itself counts as one of the i. */
  predicate AfterElision(t: string, i: int) {
    MixedGroups(t) && Width(t) + i <= 8
  }

  /** A "::" in t, after i groups; at p == 0 its first colon precedes t. */
  predicate LaterElision(t: string, p: int, i: int) {
    if p == 0 then t != "" && t[0] == ':' && AtMost(t[1..], 7 - i)
    else
      && 0 < p <= |t| - 2 && t[p] == ':' && t[p + 1] == ':' && Groups(t[..p])
      && AtMost(t[p + 2..], 7 - i - Width(t[..p]))
  }

  /** What must still follow when i groups precede t and no "::" has been seen. */
  ghost predicate BeforeElision(t: string, i: int) {
    || (MixedGroups(t) && Width(t) + i == 8)
    || exists p :: LaterElision(t, p, i)
  }

  lemma StepAfter(t: string, j: nat, i: int)
    requires j < |t| - 1 && HexGroup(t[..j]) && t[j] == ':'
    ensures AfterElision(t, i) <==> AfterElision(t[j + 1..], i + 1)
  {
    StepMixed(t, j);
  }

  lemma StepFirstElision(t: string, j: nat, i: int)
    requires j < |t| - 1 && HexGroup(t[..j]) && t[j] == ':'
    ensures LaterElision(t, j, i) <==> LaterElision(t[j + 1..], 0, i + 1)
  {
    HexIsNotPunctuation(t[..j]);
    OnePiece(t[..j]);
    assert t[j + 2..] == t[j + 1..][1..];
  }

  lemma StepLeft(t: string, j: nat, p: nat)
    requires j < |t| - 1 && HexGroup(t[..j]) && t[j] == ':' && p <= |t| - j - 1
    ensures Groups(t[..p + j + 1]) <==> Groups(t[j + 1..][..p])
    ensures p > 0 ==> Width(t[..p + j + 1]) == 1 + Width(t[j + 1..][..p])
  {
    var left := t[..p + j + 1];
    assert left[..j] == t[..j] && left[j + 1..] == t[j + 1..][..p];
    StepMixed(left, j);
  }

  lemma StepElision(t: string, j: nat, i: int, p: nat)
    requires j < |t| - 1 && HexGroup(t[..j]) && t[j] == ':' && 0 < p <= |t| - j - 3
    ensures LaterElision(t, p + j + 1, i) <==> LaterElision(t[j + 1..], p, i + 1)
  {
    var q, u := p + j + 1, t[j + 1..];
    StepLeft(t, j, p);
    assert t[q + 2..] == u[p + 2..];
    assert t[q] == u[p] && t[q + 1] == u[p + 1];
  }

  lemma StepBefore(t: string, j: nat, i: int)
    requires j < |t| - 1 && HexGroup(t[..j]) && t[j] == ':'
    ensures BeforeElision(t, i) <==> BeforeElision(t[j + 1..], i + 1)
  {
    StepMixed(t, j);
    var u, k := t[j + 1..], i + 1;
    if p :| LaterElision(u, p, k) { ElisionForward(t, j, i, p); }
    if q :| LaterElision(t, q, i) { ElisionBackward(t, j, i, q); }
  }

  lemma ElisionForward(t: string, j: nat, i: int, p: int)
    requires j < |t| - 1 && HexGroup(t[..j]) && t[j] == ':' && LaterElision(t[j + 1..], p, i + 1)
    ensures BeforeElision(t, i)
  {
    if p == 0 { StepFirstElision(t, j, i); } else { StepElision(t, j, i, p); }
  }

  lemma ElisionBackward(t: string, j: nat, i: int, q: int)
    requires j < |t| - 1 && HexGroup(t[..j]) && t[j] == ':' && LaterElision(t, q, i)
    ensures BeforeElision(t[j + 1..], i + 1)
  {
    NotInGroup(t, j, i, q);
    if q == j { FirstBackward(t, j, i); } else { LaterBackward(t, j, i, q - j - 1); }
  }

  lemma FirstBackward(t: string, j: nat, i: int)
    requires j < |t| - 1 && HexGroup(t[..j]) && t[j] == ':' && LaterElision(t, j, i)
    ensures BeforeElision(t[j + 1..], i + 1)
  {
    StepFirstElision(t, j, i);
    assert LaterElision(t[j + 1..], 0, i + 1);
  }

  lemma LaterBackward(t: string, j: nat, i: int, p: nat)
    requires j < |t| - 1 && HexGroup(t[..j]) && t[j] == ':' && p > 0 && LaterElision(t, p + j + 1, i)
    ensures BeforeElision(t[j + 1..], i + 1)
  {
    StepElision(t, j, i, p);
    assert LaterElision(t[j + 1..], p, i + 1);
  }

  lemma NotInGroup(t: string, j: nat, i: int, q: int)
    requires j < |t| - 1 && HexGroup(t[..j]) && t[j] == ':' && LaterElision(t, q, i)
    ensures q == j || q > j + 1
  {
    if q == j + 1 {
      assert t[..q][..j] == t[..j] && t[..q][j + 1..] == "";
      StepMixed(t[..q], j);
    }
  }

  /** Where the text starts: a leading colon must be the first of "::". */
  lemma StartOfText(s: string)
    requires s != ""
    ensures s[0] != ':' ==> (IPv6Text(s) <==> BeforeElision(s, 0))
    ensures s[0] == ':' && |s| > 1 ==> (IPv6Text(s) <==> s[1] == ':' && BeforeElision(s[1..], 0))
    ensures |s| == 1 ==> !IPv6Text(s)
  {
    if s[0] != ':' {
      assert forall p :: ElidedAt(s, p) <==> LaterElision(s, p, 0) by { EmptyWidth(); }
    } else {
      LeadingColon(s);
      forall p | p > 0 && ElidedAt(s, p) ensures false {
        LeadingColon(s[..p]);
      }
      if |s| > 1 {
        var u := s[1..];
        if s[1] == ':' { LeadingColon(u); }
        assert ElidedAt(s, 0) <==> LaterElision(u, 0, 0) by { EmptyWidth(); assert s[2..] == u[1..] && s[..0] == ""; }
        forall p | p > 0 && LaterElision(u, p, 0) && s[1] == ':' ensures false {
          LeadingColon(u[..p]);
        }
      }
    }
    if |s| == 1 && MixedGroups(s) {
      OnePiece(s);
    }
  }

  lemma EmptyWidth()
    ensures Width("") == 0
  {}

  /** What a text without any colon amounts to. */
  lemma OnePiece(t: string)
    requires t != "" && ':' !in t
    ensures Split(t, ':') == [t]
    ensures Groups(t) <==> HexGroup(t)
    ensures MixedGroups(t) <==> HexGroup(t) || DottedQuad(t)
    ensures Width(t) == if DottedQuad(t) then 2 else 1
    ensures forall p, i :: !LaterElision(t, p, i)
  {
    SplitWithout(t, ':');
    assert [t][0] == t && AllHexGroups([t][1..]);
  }

  lemma NotAGroup(t: string, j: nat)
    requires j < |t| && t[0] != ':'
    requires j <= 4 && (forall k :: 0 <= k < j ==> IsHex(t[k]))
    requires t[j] != ':' && (j == 4 || !IsHex(t[j]))
    ensures (MixedGroups(t) <==> DottedQuad(t)) && !Groups(t) && (MixedGroups(t) ==> Width(t) == 2)
    ensures forall p, i :: !LaterElision(t, p, i)
    ensures t[j] != '.' ==> !DottedQuad(t)
  {
    FirstPieceBroken(t, j);
    forall p, i ensures !LaterElision(t, p, i) {
      if LaterElision(t, p, i) { FirstPieceBroken(t[..p], j); }
    }
    if IndexOf(t, ':') == |t| {
      OnePiece(t);
    } else if DottedQuad(t) {
      QuadHasNoColon(t);
    }
    if t[j] != '.' && DottedQuad(t) { FirstOctet(t, j); }
  }

  lemma FirstPieceBroken(t: string, j: nat)
    requires t != "" && t[0] != ':' && j <= 4
    requires forall k :: 0 <= k < j && k < |t| ==> IsHex(t[k])
    requires j < |t| ==> t[j] != ':' && (j == 4 || !IsHex(t[j]))
    ensures j < |t| ==> !HexGroup(Split(t, ':')[0])
    ensures j >= |t| ==> HexGroup(t)
    ensures j < |t| ==> !Groups(t)
    ensures j < |t| && |Split(t, ':')| > 1 ==> !MixedGroups(t)
  {
    if j < |t| {
      var k := IndexOf(t, ':');
      assert k > j;
      assert t[..k][j] == t[j];
      assert Split(t, ':')[0] == t[..k];
    }
  }

  /** The first octet of a dotted quad ends in a dot after at most three digits. */
  lemma FirstOctet(t: string, j: nat)
    requires j < |t| && DottedQuad(t) && j <= 4
    requires (forall k :: 0 <= k < j ==> IsHex(t[k])) && (j == 4 || !IsHex(t[j]))
    ensures t[j] == '.'
  {
    var k := IndexOf(t, '.');
    assert Split(t, '.')[0] == t[..k];
    assert Octet(t[..k]);
    assert k < |t|;
  }
}
