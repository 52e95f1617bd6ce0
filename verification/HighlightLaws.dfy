// Which texts are shown without an error: a description of the well-formed
// configurations by lines and names alone, and the proof that the line grammar of
// the highlighter shows an error in exactly the other ones.
module HighlightLaws {
  import opened Text
  import opened AddressGrammar
  import opened Base64
  import opened StringSpans
  import opened HighlightGrammar

  // ---- The settings --------------------------------------------------------

  /** The section that a line stands in. */
  datatype Part = Nowhere | InInterface | InPeer

  /** What a name stands for: a setting of a section, whose value is one text with
      its own kind of highlight, a list of names or of networks, or a host with
      its port. */
  datatype Row = Unknown | Plain(part: Part, shown: Highlight) | Names(part: Part) | Networks(part: Part) | HostPort(part: Part)

  /** The settings that WireGuard's own tools know, in small letters. */
  function WireGuardRow(k: string): Row {
    if k == "privatekey" then Plain(InInterface, HPrivateKey)
    else if k == "listenport" then Plain(InInterface, HPort)
    else if k == "address" then Networks(InInterface)
    else if k == "dns" then Names(InInterface)
    else if k == "mtu" then Plain(InInterface, HMTU)
    else if k == "table" then Plain(InInterface, HTable)
    else if k == "publickey" then Plain(InPeer, HPublicKey)
    else if k == "presharedkey" then Plain(InPeer, HPresharedKey)
    else if k == "allowedips" then Networks(InPeer)
    else if k == "endpoint" then HostPort(InPeer)
    else if k == "persistentkeepalive" then Plain(InPeer, HKeepalive)
    else if k == "preup" then Plain(InInterface, HCmd)
    else if k == "postup" then Plain(InInterface, HCmd)
    else if k == "predown" then Plain(InInterface, HCmd)
    else if k == "postdown" then Plain(InInterface, HCmd)
    else Unknown
  }

  /** The settings of the obfuscated protocol. */
  function ObfuscationRow(k: string): Row {
    if k == "jc" then Plain(InInterface, HJunk(JunkCount))
    else if k == "jmin" then Plain(InInterface, HJunk(JunkMin))
    else if k == "jmax" then Plain(InInterface, HJunk(JunkMax))
    else if k == "s1" then Plain(InInterface, HPadding(1))
    else if k == "s2" then Plain(InInterface, HPadding(2))
    else if k == "s3" then Plain(InInterface, HPadding(3))
    else if k == "s4" then Plain(InInterface, HPadding(4))
    else if k == "h1" then Plain(InInterface, HHeader(1))
    else if k == "h2" then Plain(InInterface, HHeader(2))
    else if k == "h3" then Plain(InInterface, HHeader(3))
    else if k == "h4" then Plain(InInterface, HHeader(4))
    else if k == "i1" then Plain(InInterface, HInit(1))
    else if k == "i2" then Plain(InInterface, HInit(2))
    else if k == "i3" then Plain(InInterface, HInit(3))
    else if k == "i4" then Plain(InInterface, HInit(4))
    else if k == "i5" then Plain(InInterface, HInit(5))
    else Unknown
  }

  function RowOf(name: string): Row {
    if WireGuardRow(Lowered(name)).Unknown? then ObfuscationRow(Lowered(name)) else WireGuardRow(Lowered(name))
  }

  /** Names are compared in small letters. */
  function Lowered(s: string): (t: string)
    ensures |t| == |s| && forall i :: 0 <= i < |s| ==> t[i] == AsciiLower(s[i])
  {
    seq(|s|, i requires 0 <= i < |s| => AsciiLower(s[i]))
  }

  predicate Listed(row: Row, part: Part) { !row.Unknown? && row.part == part && part != Nowhere }

  ghost function NameTexts(): string -> bool { t => DottedQuad(t) || IPv6Text(t) || HostnameText(t) }

  ghost function NetworkTexts(): string -> bool { t => NetworkText(t) }

  /** Nothing but blanks, or one of these texts. */
  ghost predicate PartText(part: string, item: string -> bool) {
    Trim(part, Blank) == "" || item(Trim(part, Blank))
  }

  ghost function PartTexts(item: string -> bool): string -> bool { part => PartText(part, item) }

  ghost predicate AllParts(parts: seq<string>, ok: string -> bool) {
    forall i :: 0 <= i < |parts| ==> ok(parts[i])
  }

  /** The items of a list between its commas, with something behind the last. */
  ghost predicate ListText(v: string, item: string -> bool) {
    var parts := Split(v, ',');
    Trim(parts[|parts| - 1], Blank) != "" && AllParts(parts, PartTexts(item))
  }

  /** What a setting allows behind its equals sign. */
  ghost predicate ValueText(row: Row, v: string) {
    match row
    case Unknown => false
    case Plain(_, shown) => v != "" && Fits(shown, v)
    case Names(_) => ListText(v, NameTexts())
    case Networks(_) => ListText(v, NetworkTexts())
    case HostPort(_) => EndpointText(v)
  }

  // ---- Lines ---------------------------------------------------------------

  /** A line without its comment and the blanks around it. */
  function Code(line: string): string { Trim(line[..IndexOf(line, '#')], Blank) }

  function HeaderOf(code: string): Part {
    if Lowered(code) == "[interface]" then InInterface else if Lowered(code) == "[peer]" then InPeer else Nowhere
  }

  /** The names of the settings and of the sections. */
  datatype Reference = Reference(listed: (string, Part) -> bool, value: (string, string) -> bool, header: string -> Part)

  ghost function Settings(): Reference {
    Reference((name: string, part: Part) => Listed(RowOf(name), part),
              (name: string, v: string) => ValueText(RowOf(name), v),
              (code: string) => HeaderOf(code))
  }

  /** A name of the section, an equals sign and a value that the name allows. */
  predicate IsSetting(r: Reference, code: string, part: Part) {
    var eq := IndexOf(code, '=');
    eq < |code|
    && var name, v := Trim(code[..eq], Blank), Trim(code[eq + 1..], Blank);
       r.listed(name, part) && v != "" && r.value(name, v)
  }

  /** Nothing, the header of a section, or a setting. */
  predicate CodeText(r: Reference, code: string, part: Part) {
    code == "" || r.header(code) != Nowhere || IsSetting(r, code, part)
  }

  /** The section that a line leaves the next one in. */
  function PartAfter(r: Reference, code: string, part: Part): Part {
    if code != "" && code[0] == '[' then r.header(code) else part
  }

  function LineTexts(r: Reference): (string, Part) -> bool {
    (line: string, part: Part) => CodeText(r, Code(line), part)
  }

  function LineParts(r: Reference): (string, Part) -> Part {
    (line: string, part: Part) => PartAfter(r, Code(line), part)
  }

  /** The section that these lines leave the next one in. */
  function PartBehind(after: (string, Part) -> Part, lines: seq<string>): Part {
    if lines == [] then Nowhere else after(lines[|lines| - 1], PartBehind(after, lines[..|lines| - 1]))
  }

  /** Each line is one of these texts for the section that it stands in. */
  predicate LinesText(ok: (string, Part) -> bool, after: (string, Part) -> Part, lines: seq<string>) {
    forall k :: 0 <= k < |lines| ==> ok(lines[k], PartBehind(after, lines[..k]))
  }

  ghost predicate WellFormed(config: string) {
    LinesText(LineTexts(Settings()), LineParts(Settings()), Split(config, '\n'))
  }

  // ---- Spans without an error ----------------------------------------------

  predicate NoError(spans: seq<HighlightSpan>) { forall i :: 0 <= i < |spans| ==> spans[i].t != HError }

  lemma NoErrorConcat(a: seq<HighlightSpan>, b: seq<HighlightSpan>)
    ensures NoError(a + b) <==> NoError(a) && NoError(b)
  {
    if NoError(a + b) {
      assert forall i :: 0 <= i < |a| ==> a[i] == (a + b)[i];
      assert forall i :: 0 <= i < |b| ==> b[i] == (a + b)[|a| + i];
    }
  }

  lemma NoErrorThree(a: seq<HighlightSpan>, b: seq<HighlightSpan>, x: HighlightSpan)
    requires x.t != HError
    ensures NoError(a + b + [x]) <==> NoError(a) && NoError(b)
  {
    NoErrorConcat(a, b);
    NoErrorConcat(a + b, [x]);
  }

  // ---- Names and fields ----------------------------------------------------

  lemma CaselessKey(a: string, b: string)
    ensures Caseless(a, b) <==> Lowered(a) == Lowered(b)
  {
    if Lowered(a) == Lowered(b) {
      forall i | 0 <= i < |a| ensures AsciiLower(a[i]) == AsciiLower(b[i]) {
        assert Lowered(a)[i] == Lowered(b)[i];
      }
    }
  }

  function WireGuardKey(k: string): Field {
    if k == "privatekey" then PrivateKey
    else if k == "listenport" then ListenPort
    else if k == "address" then Address
    else if k == "dns" then DNS
    else if k == "mtu" then MTU
    else if k == "table" then Table
    else if k == "publickey" then PublicKey
    else if k == "presharedkey" then PresharedKey
    else if k == "allowedips" then AllowedIPs
    else if k == "endpoint" then Endpoint
    else if k == "persistentkeepalive" then PersistentKeepalive
    else if k == "preup" then PreUp
    else if k == "postup" then PostUp
    else if k == "predown" then PreDown
    else if k == "postdown" then PostDown
    else Invalid
  }

  function ObfuscationKey(k: string): Field {
    if k == "jc" then Junk(JunkCount)
    else if k == "jmin" then Junk(JunkMin)
    else if k == "jmax" then Junk(JunkMax)
    else if k == "s1" then Padding(1)
    else if k == "s2" then Padding(2)
    else if k == "s3" then Padding(3)
    else if k == "s4" then Padding(4)
    else if k == "h1" then Header(1)
    else if k == "h2" then Header(2)
    else if k == "h3" then Header(3)
    else if k == "h4" then Header(4)
    else if k == "i1" then Init(1)
    else if k == "i2" then Init(2)
    else if k == "i3" then Init(3)
    else if k == "i4" then Init(4)
    else if k == "i5" then Init(5)
    else Invalid
  }

  lemma WireGuardWords()
    ensures Lowered("PrivateKey") == "privatekey" && Lowered("ListenPort") == "listenport" && Lowered("Address") == "address"
    ensures Lowered("DNS") == "dns" && Lowered("MTU") == "mtu" && Lowered("Table") == "table"
  {}

  lemma WireGuardWordsToo()
    ensures Lowered("PublicKey") == "publickey" && Lowered("PresharedKey") == "presharedkey" && Lowered("AllowedIPs") == "allowedips"
    ensures Lowered("Endpoint") == "endpoint" && Lowered("PersistentKeepalive") == "persistentkeepalive" && Lowered("PreUp") == "preup"
    ensures Lowered("PostUp") == "postup" && Lowered("PreDown") == "predown" && Lowered("PostDown") == "postdown"
  {}

  lemma ObfuscationWords()
    ensures Lowered("Jc") == "jc" && Lowered("Jmin") == "jmin" && Lowered("Jmax") == "jmax"
    ensures Lowered("S1") == "s1" && Lowered("S2") == "s2" && Lowered("S3") == "s3"
    ensures Lowered("S4") == "s4" && Lowered("H1") == "h1" && Lowered("H2") == "h2"
    ensures Lowered("H3") == "h3" && Lowered("H4") == "h4" && Lowered("I1") == "i1"
    ensures Lowered("I2") == "i2" && Lowered("I3") == "i3" && Lowered("I4") == "i4"
    ensures Lowered("I5") == "i5"
  {}

  lemma WireGuardByKey(name: string)
    ensures WireGuardField(name) == WireGuardKey(Lowered(name))
  {
    WireGuardWords();
    WireGuardWordsToo();
    CaselessKey(name, "PrivateKey");
    CaselessKey(name, "ListenPort");
    CaselessKey(name, "Address");
    CaselessKey(name, "DNS");
    CaselessKey(name, "MTU");
    CaselessKey(name, "Table");
    CaselessKey(name, "PublicKey");
    CaselessKey(name, "PresharedKey");
    CaselessKey(name, "AllowedIPs");
    CaselessKey(name, "Endpoint");
    CaselessKey(name, "PersistentKeepalive");
    CaselessKey(name, "PreUp");
    CaselessKey(name, "PostUp");
    CaselessKey(name, "PreDown");
    CaselessKey(name, "PostDown");
  }

  lemma ObfuscationByKey(name: string)
    ensures ObfuscationField(name) == ObfuscationKey(Lowered(name))
  {
    ObfuscationWords();
    CaselessKey(name, "Jc");
    CaselessKey(name, "Jmin");
    CaselessKey(name, "Jmax");
    CaselessKey(name, "S1");
    CaselessKey(name, "S2");
    CaselessKey(name, "S3");
    CaselessKey(name, "S4");
    CaselessKey(name, "H1");
    CaselessKey(name, "H2");
    CaselessKey(name, "H3");
    CaselessKey(name, "H4");
    CaselessKey(name, "I1");
    CaselessKey(name, "I2");
    CaselessKey(name, "I3");
    CaselessKey(name, "I4");
    CaselessKey(name, "I5");
  }

  function SectionOf(part: Part): Field {
    match part
    case Nowhere => Invalid
    case InInterface => InterfaceSection
    case InPeer => PeerSection
  }

  /** The values of a field that are shown without an error. */
  ghost predicate FieldText(f: Field, v: string) {
    if IsList(f) then ListText(v, if f == DNS then NameTexts() else NetworkTexts())
    else if SingleValued(f) then ValueHighlight(f, v) != HError
    else EndpointText(v)
  }

  /** A field and a row that say the same. */
  ghost predicate Corresponds(f: Field, row: Row) {
    && (f == Invalid <==> row.Unknown?)
    && (row.Unknown? || (row.part != Nowhere && SectionForField(f) == SectionOf(row.part)))
    && match row
       case Unknown => true
       case Plain(_, shown) => SingleValued(f) && ShownAs(f, shown)
       case Names(_) => f == DNS
       case Networks(_) => f == Address || f == AllowedIPs
       case HostPort(_) => f == Endpoint
  }

  /** A value in the grammar of the field is shown like this. */
  ghost predicate ShownAs(f: Field, shown: Highlight)
    requires SingleValued(f)
  {
    shown != HError && forall v :: ShownAt(f, shown, v)
  }

  ghost predicate ShownAt(f: Field, shown: Highlight, v: string)
    requires SingleValued(f)
  {
    v != "" ==> ValueHighlight(f, v) == if Fits(shown, v) then shown else HError
  }

  function FieldsRow(f: Field): Row {
    match f
    case PrivateKey => Plain(InInterface, HPrivateKey)
    case ListenPort => Plain(InInterface, HPort)
    case Address => Networks(InInterface)
    case DNS => Names(InInterface)
    case MTU => Plain(InInterface, HMTU)
    case Table => Plain(InInterface, HTable)
    case PublicKey => Plain(InPeer, HPublicKey)
    case PresharedKey => Plain(InPeer, HPresharedKey)
    case AllowedIPs => Networks(InPeer)
    case Endpoint => HostPort(InPeer)
    case PersistentKeepalive => Plain(InPeer, HKeepalive)
    case PreUp => Plain(InInterface, HCmd)
    case PostUp => Plain(InInterface, HCmd)
    case PreDown => Plain(InInterface, HCmd)
    case PostDown => Plain(InInterface, HCmd)
    case Junk(kind) => Plain(InInterface, HJunk(kind))
    case Padding(n) => Plain(InInterface, HPadding(n))
    case Header(n) => Plain(InInterface, HHeader(n))
    case Init(n) => Plain(InInterface, HInit(n))
    case _ => Unknown
  }

  lemma WireGuardRows(k: string)
    ensures WireGuardRow(k) == FieldsRow(WireGuardKey(k))
  {}

  lemma ObfuscationRows(k: string)
    ensures ObfuscationRow(k) == FieldsRow(ObfuscationKey(k))
  {}

  lemma FieldsRowRight(f: Field)
    requires f != InterfaceSection && f != PeerSection
    ensures Corresponds(f, FieldsRow(f))
  {
    if FieldsRow(f).Plain? {
      forall v ensures ShownAt(f, FieldsRow(f).shown, v) {
        if v != "" { ShownRight(f, v); }
      }
    }
  }

  lemma ShownRight(f: Field, v: string)
    requires FieldsRow(f).Plain? && v != ""
    ensures SingleValued(f)
    ensures ValueHighlight(f, v) == if Fits(FieldsRow(f).shown, v) then FieldsRow(f).shown else HError
  {
    match f
    case PrivateKey =>
    case PublicKey =>
    case PresharedKey =>
    case MTU =>
    case Table =>
    case ListenPort =>
    case PersistentKeepalive =>
    case Junk(_) =>
    case Padding(_) =>
    case Header(_) =>
    case _ =>
  }

  lemma NoSections(k: string)
    ensures WireGuardKey(k) !in {InterfaceSection, PeerSection} && ObfuscationKey(k) !in {InterfaceSection, PeerSection}
    ensures WireGuardRow(k).Unknown? <==> WireGuardKey(k) == Invalid
  {
    WireGuardRows(k);
  }

  lemma FieldRow(name: string)
    ensures Corresponds(FieldOf(name), RowOf(name))
  {
    WireGuardByKey(name);
    ObfuscationByKey(name);
    WireGuardRows(Lowered(name));
    ObfuscationRows(Lowered(name));
    NoSections(Lowered(name));
    FieldsRowRight(FieldOf(name));
  }

  /** A key is shown as a field exactly when its section lists it. */
  lemma KeyIsListed(name: string, part: Part)
    ensures KeyHighlight(FieldOf(name), SectionOf(part)) == if Listed(RowOf(name), part) then HField else HError
  {
    FieldRow(name);
  }

  /** A value that is one text is shown with the kind of its name exactly when that
      allows it. */
  lemma ValueIsShown(name: string, v: string)
    requires RowOf(name).Plain? && v != ""
    ensures SingleValued(FieldOf(name))
    ensures ValueHighlight(FieldOf(name), v) == if ValueText(RowOf(name), v) then RowOf(name).shown else HError
  {
    FieldRow(name);
    assert ShownAt(FieldOf(name), RowOf(name).shown, v);
  }

  lemma FieldTextByName(name: string, v: string)
    requires !RowOf(name).Unknown? && v != ""
    ensures FieldText(FieldOf(name), v) <==> ValueText(RowOf(name), v)
  {
    FieldRow(name);
    if RowOf(name).Plain? { ValueIsShown(name, v); }
  }

  // ---- Stretches of the text -----------------------------------------------

  lemma TrimStretch(b: string, lo: int, hi: int)
    requires 0 <= lo <= hi <= |b|
    ensures var a := First(b, lo, hi);
            Trim(b[lo..hi], Blank) == b[a..Last(b, a, hi)] && (a < hi ==> Last(b, a, hi) > a)
  {
    var a := First(b, lo, hi);
    var e := Last(b, a, hi);
    StretchMiddle(b, lo, a, e, hi);
    MiddleIsTrim(b[lo..hi], Blank, a - lo, e - lo);
    SliceOfSlice(b, lo, a, e, hi);
  }

  lemma SliceOfSlice(b: string, lo: int, a: int, e: int, hi: int)
    requires 0 <= lo <= a <= e <= hi <= |b|
    ensures b[lo..hi][a - lo..e - lo] == b[a..e]
  {
    var t := b[lo..hi][a - lo..e - lo];
    forall i | 0 <= i < e - a ensures t[i] == b[a..e][i] { assert b[lo..hi][a - lo + i] == b[a + i]; }
  }

  lemma StretchMiddle(b: string, lo: int, a: int, e: int, hi: int)
    requires 0 <= lo <= hi <= |b| && a == First(b, lo, hi) && e == Last(b, a, hi)
    ensures Middle(b[lo..hi], Blank, a - lo, e - lo) && (a < hi ==> e > a)
  {
    assert a < hi ==> !Blank(b[a]);
  }

  lemma IndexIsFind(b: string, c: char, lo: int, hi: int)
    requires 0 <= lo <= hi <= |b|
    ensures IndexOf(b[lo..hi], c) == Find(b, c, lo, hi) - lo
  {
    var k := Find(b, c, lo, hi) - lo;
    assert forall i :: 0 <= i < k ==> b[lo..hi][..k][i] == b[lo + i];
    IndexOfUnique(b[lo..hi], c, k);
  }

  /** The pieces in front of position p, which follows a separator. */
  function PiecesTo(b: string, c: char, lo: int, p: int): seq<string>
    requires 0 <= lo <= p <= |b|
  {
    if p == lo then [] else Split(b[lo..p - 1], c)
  }

  lemma PiecesAt(b: string, c: char, lo: int, p: int, hi: int)
    requires 0 <= lo <= p <= hi <= |b| && Without(b, c, p, hi) && (lo < p ==> b[p - 1] == c)
    ensures Split(b[lo..hi], c) == PiecesTo(b, c, lo, p) + [b[p..hi]]
  {
    StretchParts(b, c, lo, p, hi);
    if p == lo {
      SplitLast(b[lo..hi], c, 0);
    } else {
      LastPieceOf(b[lo..hi], c, p - lo, b[p..hi], b[lo..p - 1]);
    }
  }

  lemma StretchParts(b: string, c: char, lo: int, p: int, hi: int)
    requires 0 <= lo <= p <= hi <= |b| && Without(b, c, p, hi) && (lo < p ==> b[p - 1] == c)
    ensures var s, k := b[lo..hi], p - lo;
            c !in s[k..] && s[k..] == b[p..hi] && (k > 0 ==> s[k - 1] == c && s[..k - 1] == b[lo..p - 1])
  {
    NoneBehind(b, c, lo, p, hi);
    var s, k := b[lo..hi], p - lo;
    assert s[k..] == b[p..hi];
    if k > 0 { assert s[..k - 1] == b[lo..p - 1]; }
  }

  lemma LastPieceOf(s: string, c: char, k: nat, last: string, front: string)
    requires 0 < k <= |s| && c !in s[k..] && s[k - 1] == c && last == s[k..] && front == s[..k - 1]
    ensures Split(s, c) == Split(front, c) + [last]
  {
    SplitLast(s, c, k);
  }

  lemma NoneBehind(b: string, c: char, lo: int, p: int, hi: int)
    requires 0 <= lo <= p <= hi <= |b| && Without(b, c, p, hi)
    ensures c !in b[lo..hi][p - lo..]
  {
    var t := b[lo..hi][p - lo..];
    forall i | 0 <= i < |t| ensures t[i] != c { assert t[i] == b[p + i]; }
  }

  // ---- Lists ---------------------------------------------------------------

  lemma AllPartsMore(parts: seq<string>, last: string, ok: string -> bool)
    ensures AllParts(parts + [last], ok) <==> AllParts(parts, ok) && ok(last)
  {
    var more := parts + [last];
    assert more[|parts|] == last;
    assert forall i :: 0 <= i < |parts| ==> more[i] == parts[i];
  }

  /** The spans of the stretches show an error unless their text is one of these. */
  ghost predicate Tells(item: (Field, string, nat) -> seq<HighlightSpan>, b: string, f: Field, ok: string -> bool) {
    forall lo, hi :: TellsAt(item, b, f, ok, lo, hi)
  }

  ghost predicate TellsAt(item: (Field, string, nat) -> seq<HighlightSpan>, b: string, f: Field, ok: string -> bool,
                          lo: int, hi: int)
  {
    0 <= lo <= hi <= |b| ==> (NoError(ItemSpans(item, b, f, lo, hi)) <==> ok(b[lo..hi]))
  }

  lemma ItemsUnfold(item: (Field, string, nat) -> seq<HighlightSpan>, b: string, f: Field, lo: int, c: int)
    requires 0 <= lo < c <= |b|
    ensures var p := After(b, ',', lo, c - 1);
            ItemsTo(item, b, f, lo, c) ==
            ItemsTo(item, b, f, lo, p) + ItemSpans(item, b, f, p, c - 1) + [HighlightSpan(HDelimiter, c - 1, 1)]
  {}

  /** The pieces of a list, known by how they grow. */
  ghost predicate Grows(pieces: int -> seq<string>, b: string, lo: int) {
    forall p, c :: GrowsAt(pieces, b, lo, p, c)
  }

  ghost predicate GrowsAt(pieces: int -> seq<string>, b: string, lo: int, p: int, c: int) {
    && (c == lo ==> pieces(c) == [])
    && (0 <= lo <= p < c <= |b| && p == After(b, ',', lo, c - 1) ==> pieces(c) == pieces(p) + [b[p..c - 1]])
  }

  lemma PiecesGrow(b: string, lo: int) returns (pieces: int -> seq<string>)
    requires 0 <= lo <= |b|
    ensures Grows(pieces, b, lo)
    ensures forall c :: lo <= c <= |b| ==> pieces(c) == PiecesTo(b, ',', lo, c)
  {
    pieces := (c: int) => if lo <= c <= |b| then PiecesTo(b, ',', lo, c) else [];
    forall p, c ensures GrowsAt(pieces, b, lo, p, c) {
      if 0 <= lo <= p < c <= |b| && p == After(b, ',', lo, c - 1) { PieceMore(b, lo, p, c); }
    }
  }

  lemma PieceMore(b: string, lo: int, p: int, c: int)
    requires 0 <= lo <= p < c <= |b| && Without(b, ',', p, c - 1) && (lo < p ==> b[p - 1] == ',')
    ensures PiecesTo(b, ',', lo, c) == PiecesTo(b, ',', lo, p) + [b[p..c - 1]]
  {
    PiecesAt(b, ',', lo, p, c - 1);
  }

  /** The spans and the pieces of a list in front of a comma grow together. */
  ghost predicate Together(items: int -> seq<HighlightSpan>, pieces: int -> seq<string>, ok: string -> bool, b: string, lo: int) {
    forall c :: TogetherAt(items, pieces, ok, b, lo, c)
  }

  ghost predicate TogetherAt(items: int -> seq<HighlightSpan>, pieces: int -> seq<string>, ok: string -> bool, b: string,
                             lo: int, c: int)
  {
    && (c == lo ==> items(c) == [] && pieces(c) == [])
    && (0 <= lo < c <= |b| ==> OneMore(items, pieces, ok, After(b, ',', lo, c - 1), c))
  }

  ghost predicate OneMore(items: int -> seq<HighlightSpan>, pieces: int -> seq<string>, ok: string -> bool, p: int, c: int) {
    exists one, part, comma: nat :: MoreBy(items(c), items(p), one, comma, pieces(c), pieces(p), part, ok)
  }

  ghost predicate MoreBy(all: seq<HighlightSpan>, items: seq<HighlightSpan>, one: seq<HighlightSpan>, comma: nat,
      pieces: seq<string>, parts: seq<string>, part: string, ok: string -> bool)
  {
    && (NoError(one) <==> ok(part))
    && all == items + one + [HighlightSpan(HDelimiter, comma, 1)] && pieces == parts + [part]
  }

  lemma ItemsGrow(item: (Field, string, nat) -> seq<HighlightSpan>, b: string, f: Field, ok: string -> bool, lo: int,
      pieces: int -> seq<string>) returns (items: int -> seq<HighlightSpan>)
    requires Tells(item, b, f, ok) && 0 <= lo <= |b| && Grows(pieces, b, lo)
    ensures Together(items, pieces, ok, b, lo) && forall c :: lo <= c <= |b| ==> items(c) == ItemsTo(item, b, f, lo, c)
  {
    items := (c: int) => if lo <= c <= |b| then ItemsTo(item, b, f, lo, c) else [];
    forall c ensures TogetherAt(items, pieces, ok, b, lo, c) {
      assert GrowsAt(pieces, b, lo, c, c);
      if lo < c <= |b| { ItemMore(item, b, f, ok, lo, After(b, ',', lo, c - 1), c, items, pieces); }
    }
  }

  lemma ItemMore(item: (Field, string, nat) -> seq<HighlightSpan>, b: string, f: Field, ok: string -> bool, lo: int, p: int, c: int,
      items: int -> seq<HighlightSpan>, pieces: int -> seq<string>)
    requires Tells(item, b, f, ok) && 0 <= lo < c <= |b| && p == After(b, ',', lo, c - 1) && Grows(pieces, b, lo)
    requires items(p) == ItemsTo(item, b, f, lo, p) && items(c) == ItemsTo(item, b, f, lo, c)
    ensures OneMore(items, pieces, ok, p, c)
  {
    assert TellsAt(item, b, f, ok, p, c - 1) && GrowsAt(pieces, b, lo, p, c);
    ItemsUnfold(item, b, f, lo, c);
    assert MoreBy(items(c), items(p), ItemSpans(item, b, f, p, c - 1), c - 1, pieces(c), pieces(p), b[p..c - 1], ok);
  }

  lemma {:induction false} ItemsTold(items: int -> seq<HighlightSpan>, pieces: int -> seq<string>, ok: string -> bool,
      b: string, lo: int, c: int)
    requires 0 <= lo <= c <= |b| && Together(items, pieces, ok, b, lo)
    ensures NoError(items(c)) <==> AllParts(pieces(c), ok)
    decreases c
  {
    assert TogetherAt(items, pieces, ok, b, lo, c);
    if c > lo {
      var p := After(b, ',', lo, c - 1);
      ItemsTold(items, pieces, ok, b, lo, p);
      var one, part, comma: nat :| MoreBy(items(c), items(p), one, comma, pieces(c), pieces(p), part, ok);
      MoreItems(items(c), items(p), one, comma, pieces(c), pieces(p), part, ok);
    }
  }

  lemma MoreItems(all: seq<HighlightSpan>, items: seq<HighlightSpan>, one: seq<HighlightSpan>, comma: nat,
      pieces: seq<string>, parts: seq<string>, part: string, ok: string -> bool)
    requires (NoError(items) <==> AllParts(parts, ok)) && (NoError(one) <==> ok(part))
    requires all == items + one + [HighlightSpan(HDelimiter, comma, 1)] && pieces == parts + [part]
    ensures NoError(all) <==> AllParts(pieces, ok)
  {
    NoErrorThree(items, one, HighlightSpan(HDelimiter, comma, 1));
    AllPartsMore(parts, part, ok);
  }

  lemma RetypedErrs(spans: seq<HighlightSpan>)
    requires spans != []
    ensures !NoError(Retyped(spans))
  {
    assert Retyped(spans)[|spans| - 1].t == HError;
  }

  lemma EndsInComma(item: (Field, string, nat) -> seq<HighlightSpan>, b: string, f: Field, lo: int, hi: int)
    requires 0 <= lo < hi <= |b| && After(b, ',', lo, hi) == hi
    ensures !NoError(ListSpans(item, b, f, lo, hi))
  {
    ItemsUnfold(item, b, f, lo, hi);
    RetypedErrs(ItemsTo(item, b, f, lo, hi));
  }

  lemma EndsInItem(item: (Field, string, nat) -> seq<HighlightSpan>, b: string, f: Field, ok: string -> bool, lo: int, c: int,
      hi: int)
    requires Tells(item, b, f, ok) && 0 <= lo <= hi <= |b| && c == After(b, ',', lo, hi) < hi
    ensures NoError(ListSpans(item, b, f, lo, hi)) <==> AllParts(PiecesTo(b, ',', lo, c) + [b[c..hi]], ok)
  {
    ItemsInFront(item, b, f, ok, lo, c);
    ItemBehind(item, b, f, ok, c, hi, ItemsTo(item, b, f, lo, c), PiecesTo(b, ',', lo, c));
  }

  lemma ItemBehind(item: (Field, string, nat) -> seq<HighlightSpan>, b: string, f: Field, ok: string -> bool, c: int, hi: int,
      items: seq<HighlightSpan>, pieces: seq<string>)
    requires Tells(item, b, f, ok) && 0 <= c <= hi <= |b| && (NoError(items) <==> AllParts(pieces, ok))
    ensures NoError(items + ItemSpans(item, b, f, c, hi)) <==> AllParts(pieces + [b[c..hi]], ok)
  {
    assert TellsAt(item, b, f, ok, c, hi);
    LastItemTold(items, ItemSpans(item, b, f, c, hi), pieces, b[c..hi], ok);
  }

  lemma ItemsInFront(item: (Field, string, nat) -> seq<HighlightSpan>, b: string, f: Field, ok: string -> bool, lo: int, c: int)
    requires Tells(item, b, f, ok) && 0 <= lo <= c <= |b|
    ensures NoError(ItemsTo(item, b, f, lo, c)) <==> AllParts(PiecesTo(b, ',', lo, c), ok)
  {
    var pieces := PiecesGrow(b, lo);
    var items := ItemsGrow(item, b, f, ok, lo, pieces);
    ItemsTold(items, pieces, ok, b, lo, c);
  }

  lemma LastItemTold(items: seq<HighlightSpan>, one: seq<HighlightSpan>, pieces: seq<string>, part: string, ok: string -> bool)
    requires (NoError(items) <==> AllParts(pieces, ok)) && (NoError(one) <==> ok(part))
    ensures NoError(items + one) <==> AllParts(pieces + [part], ok)
  {
    NoErrorConcat(items, one);
    AllPartsMore(pieces, part, ok);
  }

  /** A list that does not end with a blank. */
  lemma ListTold(item: (Field, string, nat) -> seq<HighlightSpan>, b: string, f: Field, ok: string -> bool, lo: int, hi: int)
    requires Tells(item, b, f, PartTexts(ok)) && 0 <= lo < hi <= |b| && !Blank(b[hi - 1])
    ensures NoError(ListSpans(item, b, f, lo, hi)) <==> ListText(b[lo..hi], ok)
  {
    var c := After(b, ',', lo, hi);
    LastPiece(b, lo, hi);
    PiecesAt(b, ',', lo, c, hi);
    if c == hi { EndsInComma(item, b, f, lo, hi); } else { EndsInItem(item, b, f, PartTexts(ok), lo, c, hi); }
  }

  lemma LastPiece(b: string, lo: int, hi: int)
    requires 0 <= lo < hi <= |b| && !Blank(b[hi - 1])
    ensures var parts := Split(b[lo..hi], ','); Trim(parts[|parts| - 1], Blank) == "" <==> After(b, ',', lo, hi) == hi
  {
    var c := After(b, ',', lo, hi);
    PiecesAt(b, ',', lo, c, hi);
    TrimStretch(b, c, hi);
    LastIs(b, First(b, c, hi), hi, hi);
  }

  // ---- Values --------------------------------------------------------------

  ghost predicate ItemText(f: Field, t: string) { if f == DNS then NameTexts()(t) else NetworkTexts()(t) }

  lemma ItemTold(b: string, f: Field, lo: int, hi: int)
    requires IsList(f) && 0 <= lo <= hi <= |b|
    ensures NoError(ItemSpans(ConfigItem(), b, f, lo, hi)) <==>
            PartText(b[lo..hi], if f == DNS then NameTexts() else NetworkTexts())
  {
    TrimStretch(b, lo, hi);
    var a := First(b, lo, hi);
    OneItemTold(f, b[a..Last(b, a, hi)], a);
  }

  lemma OneItemTold(f: Field, t: string, off: nat)
    requires IsList(f)
    ensures NoError(ItemOf(f, t, off)) <==> ItemText(f, t)
  {
    if f == DNS { SingleTold(HighlightSpan(NameHighlight(t), off, |t|)); } else { NetworkTold(t, off, NetworkText(t)); }
  }

  lemma NetworkTold(t: string, off: nat, ok: bool)
    ensures NoError(AroundSlash(ok, t, off)) <==> ok
  {
    var spans := AroundSlash(ok, t, off);
    if !ok { assert spans[0].t == HError; }
  }

  lemma EndpointTold(t: string, off: nat)
    ensures NoError(EndpointOf(t, off)) <==> EndpointText(t)
  {
    ColonTold(EndpointText(t), off, |t|, After(t, ':', 0, |t|) - 1);
  }

  lemma ColonTold(ok: bool, off: nat, len: nat, c: int)
    requires c < len
    ensures NoError(AroundColon(ok, off, len, c)) <==> ok
  {
    var spans := AroundColon(ok, off, len, c);
    if !ok { assert spans[0].t == HError; }
  }

  lemma ListValueTold(b: string, f: Field, lo: int, hi: int)
    requires IsList(f) && 0 <= lo < hi <= |b| && !Blank(b[hi - 1])
    ensures NoError(ListSpans(ConfigItem(), b, f, lo, hi)) <==>
            ListText(b[lo..hi], if f == DNS then NameTexts() else NetworkTexts())
  {
    var ok := if f == DNS then NameTexts() else NetworkTexts();
    forall x, y ensures TellsAt(ConfigItem(), b, f, PartTexts(ok), x, y) {
      if 0 <= x <= y <= |b| { ItemTold(b, f, x, y); }
    }
    ListTold(ConfigItem(), b, f, ok, lo, hi);
  }

  lemma SingleTold(x: HighlightSpan)
    ensures NoError([x]) <==> x.t != HError
  {
    assert [x][0] == x;
  }

  lemma ValueTold(b: string, f: Field, lo: int, hi: int)
    requires 0 <= lo < hi <= |b| && !Blank(b[hi - 1])
    ensures NoError(ValueSpans(b, f, lo, hi)) <==> FieldText(f, b[lo..hi])
  {
    if IsList(f) {
      ListValueTold(b, f, lo, hi);
    } else if SingleValued(f) {
      SingleTold(HighlightSpan(ValueHighlight(f, b[lo..hi]), lo, hi - lo));
    } else {
      EndpointTold(b[lo..hi], lo);
    }
  }

  // ---- The kinds of highlights of a value ----------------------------------

  function Kinds(row: Row): set<Highlight> {
    match row
    case Unknown => {}
    case Plain(_, shown) => {shown}
    case Names(_) => {HIP, HHost, HDelimiter}
    case Networks(_) => {HIP, HCidr, HDelimiter}
    case HostPort(_) => {HHost, HDelimiter, HPort}
  }

  predicate OfKinds(spans: seq<HighlightSpan>, kinds: set<Highlight>) {
    forall i :: 0 <= i < |spans| ==> spans[i].t in kinds || spans[i].t == HError
  }

  lemma OfKindsConcat(a: seq<HighlightSpan>, b: seq<HighlightSpan>, kinds: set<Highlight>)
    requires OfKinds(a, kinds) && OfKinds(b, kinds)
    ensures OfKinds(a + b, kinds)
  {}

  ghost predicate ItemKinds(item: (Field, string, nat) -> seq<HighlightSpan>, f: Field, kinds: set<Highlight>) {
    forall t, off :: OfKinds(item(f, t, off), kinds)
  }

  lemma OneItemKinds(item: (Field, string, nat) -> seq<HighlightSpan>, b: string, f: Field, lo: int, hi: int, kinds: set<Highlight>)
    requires ItemKinds(item, f, kinds) && 0 <= lo <= hi <= |b|
    ensures OfKinds(ItemSpans(item, b, f, lo, hi), kinds)
  {
    var a := First(b, lo, hi);
    assert OfKinds(item(f, b[a..Last(b, a, hi)], a), kinds);
  }

  lemma {:induction false} ItemsKinds(item: (Field, string, nat) -> seq<HighlightSpan>, b: string, f: Field, lo: int, c: int,
      kinds: set<Highlight>)
    requires ItemKinds(item, f, kinds) && 0 <= lo <= c <= |b| && HDelimiter in kinds
    ensures OfKinds(ItemsTo(item, b, f, lo, c), kinds)
    decreases c
  {
    if c > lo {
      var p := After(b, ',', lo, c - 1);
      ItemsUnfold(item, b, f, lo, c);
      ItemsKinds(item, b, f, lo, p, kinds);
      OneItemKinds(item, b, f, p, c - 1, kinds);
      OfKindsConcat(ItemsTo(item, b, f, lo, p), ItemSpans(item, b, f, p, c - 1), kinds);
    }
  }

  lemma ListKinds(item: (Field, string, nat) -> seq<HighlightSpan>, b: string, f: Field, lo: int, hi: int, kinds: set<Highlight>)
    requires ItemKinds(item, f, kinds) && 0 <= lo <= hi <= |b| && HDelimiter in kinds
    ensures OfKinds(ListSpans(item, b, f, lo, hi), kinds)
  {
    var c := After(b, ',', lo, hi);
    ItemsKinds(item, b, f, lo, c, kinds);
    OneItemKinds(item, b, f, c, hi, kinds);
    OfKindsConcat(ItemsTo(item, b, f, lo, c), ItemSpans(item, b, f, c, hi), kinds);
  }

  /** A name is an address when it can be one, and only then. */
  lemma ItemIsShown(f: Field, t: string, off: nat)
    ensures f == DNS ==> ItemOf(f, t, off) == [HighlightSpan(if DottedQuad(t) || IPv6Text(t) then HIP
                                                            else if HostnameText(t) then HHost else HError, off, |t|)]
    ensures f == DNS ==> OfKinds(ItemOf(f, t, off), {HIP, HHost, HDelimiter})
    ensures f == Address || f == AllowedIPs ==> OfKinds(ItemOf(f, t, off), {HIP, HCidr, HDelimiter})
  {}

  /** The spans of a value are of the kinds that its name has, or errors. */
  lemma ValueKinds(b: string, name: string, lo: int, hi: int)
    requires !RowOf(name).Unknown? && 0 <= lo < hi <= |b|
    ensures OfKinds(ValueSpans(b, FieldOf(name), lo, hi), Kinds(RowOf(name)))
  {
    FieldRow(name);
    var f, kinds := FieldOf(name), Kinds(RowOf(name));
    if IsList(f) {
      forall t, off ensures OfKinds(ConfigItem()(f, t, off), kinds) { ItemIsShown(f, t, off); }
      ListKinds(ConfigItem(), b, f, lo, hi, kinds);
    } else if SingleValued(f) {
      ValueIsShown(name, b[lo..hi]);
    }
  }

  // ---- Lines ---------------------------------------------------------------

  lemma TrimTail(s: string, tail: string)
    requires forall i :: 0 <= i < |tail| ==> Blank(tail[i])
    ensures Trim(s + tail, Blank) == Trim(s, Blank)
  {
    var x, y := TrimIsMiddle(s, Blank);
    var t := s + tail;
    assert t[x..y] == s[x..y];
    MiddleIsTrim(t, Blank, x, y);
  }

  // ---- The grammar and the reference ---------------------------------------

  /** A grammar and a reference that say the same, known by these laws only. */
  datatype Pair = Pair(g: Grammar, r: Reference, b: string) {
    ghost predicate KeyLaw(name: string, part: Part) {
      KeyHighlight(g.field(name), SectionOf(part)) == if r.listed(name, part) then HField else HError
    }

    ghost predicate ValueLaw(name: string, part: Part, lo: int, hi: int) {
      r.listed(name, part) && 0 <= lo < hi <= |b| && !Blank(b[hi - 1]) ==>
        (NoError(g.value(b, g.field(name), lo, hi)) <==> r.value(name, b[lo..hi]))
    }

    ghost predicate HeaderLaw(code: string) {
      g.section(code) == SectionOf(r.header(code)) && (r.header(code) != Nowhere ==> code != "" && code[0] == '[')
    }

    /** No name is empty or starts like this. */
    ghost predicate StartLaw(name: string, part: Part) {
      name == "" || name[0] == '[' || name[0] == '=' ==> !r.listed(name, part)
    }

    ghost predicate Laws() {
      && (forall name, part :: KeyLaw(name, part)) && (forall name, part, lo, hi :: ValueLaw(name, part, lo, hi))
      && (forall code :: HeaderLaw(code)) && (forall name, part :: StartLaw(name, part))
    }
  }

  type Agreeing = p: Pair | p.Laws()
    ghost witness Pair(Grammar(_ => Invalid, _ => Invalid, (_, _, _, _) => []), Reference((_, _) => false, (_, _) => false, _ => Nowhere), "")

  lemma ConfigLaws(b: string) returns (p: Agreeing)
    ensures p == Pair(WgQuick(), Settings(), b)
  {
    var p' := Pair(WgQuick(), Settings(), b);
    forall name, part ensures p'.KeyLaw(name, part) { KeyIsListed(name, part); }
    forall name, part, lo, hi ensures p'.ValueLaw(name, part, lo, hi) {
      if Listed(RowOf(name), part) && 0 <= lo < hi <= |b| && !Blank(b[hi - 1]) { NamedValueTold(b, name, lo, hi); }
    }
    forall code ensures p'.HeaderLaw(code) { HeadersStart(code); }
    forall name, part ensures p'.StartLaw(name, part) {
      if name == "" || name[0] == '[' || name[0] == '=' { NamesStart(name); }
    }
    p := p';
  }

  lemma NamedValueTold(b: string, name: string, lo: int, hi: int)
    requires !RowOf(name).Unknown? && 0 <= lo < hi <= |b| && !Blank(b[hi - 1])
    ensures NoError(ValueSpans(b, FieldOf(name), lo, hi)) <==> ValueText(RowOf(name), b[lo..hi])
  {
    ValueTold(b, FieldOf(name), lo, hi);
    FieldTextByName(name, b[lo..hi]);
  }

  /** Names start with a letter. */
  lemma NamesStart(name: string)
    requires name == "" || name[0] == '[' || name[0] == '='
    ensures RowOf(name).Unknown?
  {
    var k := Lowered(name);
    assert k == "" || k[0] == '[' || k[0] == '=';
    WireGuardStart(k);
    ObfuscationStart(k);
  }

  lemma WireGuardStart(k: string)
    requires k == "" || k[0] == '[' || k[0] == '='
    ensures WireGuardRow(k).Unknown?
  {}

  lemma ObfuscationStart(k: string)
    requires k == "" || k[0] == '[' || k[0] == '='
    ensures ObfuscationRow(k).Unknown?
  {}

  lemma HeadersStart(code: string)
    ensures HeaderOf(code) != Nowhere ==> code != "" && code[0] == '['
    ensures SectionType(code) == SectionOf(HeaderOf(code))
  {
    HeaderWords();
    CaselessKey(code, "[Peer]");
    CaselessKey(code, "[Interface]");
    if Lowered(code) == "[interface]" || Lowered(code) == "[peer]" {
      assert Lowered(code)[0] == '[' == AsciiLower(code[0]);
    }
  }

  lemma HeaderWords()
    ensures Lowered("[Peer]") == "[peer]" && Lowered("[Interface]") == "[interface]" && "[peer]" != "[interface]"
  {}

  // ---- The parts of a line -------------------------------------------------

  /** The equals sign and what follows it. */
  lemma AssignedTold(p: Agreeing, name: string, part: Part, eq: int, hi: int, v: int, e: int, spans: seq<HighlightSpan>)
    requires p.r.listed(name, part) && 0 <= eq < v <= e <= hi <= |p.b| && (v < hi ==> v < e && !Blank(p.b[e - 1]))
    requires spans == if v == hi then [HighlightSpan(HError, eq, 1)]
                      else [HighlightSpan(HDelimiter, eq, 1)] + p.g.value(p.b, p.g.field(name), v, e)
    ensures NoError(spans) <==> v < hi && p.r.value(name, p.b[v..e])
  {
    if v == hi {
      SingleTold(HighlightSpan(HError, eq, 1));
    } else {
      assert p.ValueLaw(name, part, v, e);
      SingleTold(HighlightSpan(HDelimiter, eq, 1));
      NoErrorConcat([HighlightSpan(HDelimiter, eq, 1)], p.g.value(p.b, p.g.field(name), v, e));
    }
  }

  /** The spans of a setting, by its parts. */
  lemma SettingCases(g: Grammar, b: string, a: int, k: int, eq: int, v: int, e: int, hi: int, section: Field)
    requires 0 <= a < eq < hi <= |b| && k == Last(b, a, eq) && v == First(b, eq + 1, hi) && e == Last(b, v, hi)
    ensures SettingSpans(g, b, a, eq, hi, section) ==
            [HighlightSpan(KeyHighlight(g.field(b[a..k]), section), a, k - a)] +
            if v == hi then [HighlightSpan(HError, eq, 1)]
            else [HighlightSpan(HDelimiter, eq, 1)] + g.value(b, g.field(b[a..k]), v, e)
  {}

  lemma SettingTold(p: Agreeing, a: int, eq: int, hi: int, part: Part, name: string, text: string)
    requires 0 <= a < eq < hi <= |p.b| && !Blank(p.b[a])
    requires name == Trim(p.b[a..eq], Blank) && text == Trim(p.b[eq + 1..hi], Blank)
    ensures NoError(SettingSpans(p.g, p.b, a, eq, hi, SectionOf(part))) <==>
            p.r.listed(name, part) && text != "" && p.r.value(name, text)
  {
    TrimStretch(p.b, a, eq);
    FirstIs(p.b, a, a, eq);
    TrimStretch(p.b, eq + 1, hi);
    var k, v := Last(p.b, a, eq), First(p.b, eq + 1, hi);
    var e := Last(p.b, v, hi);
    SettingCases(p.g, p.b, a, k, eq, v, e, hi, SectionOf(part));
    PartsTold(p, a, k, eq, v, e, hi, part, name, SettingSpans(p.g, p.b, a, eq, hi, SectionOf(part)));
  }

  lemma PartsTold(p: Agreeing, a: int, k: int, eq: int, v: int, e: int, hi: int, part: Part, name: string, spans: seq<HighlightSpan>)
    requires 0 <= a <= k <= eq < v <= e <= hi <= |p.b| && (v < hi ==> v < e && !Blank(p.b[e - 1])) && name == p.b[a..k]
    requires spans == [HighlightSpan(KeyHighlight(p.g.field(name), SectionOf(part)), a, k - a)] +
                      if v == hi then [HighlightSpan(HError, eq, 1)]
                      else [HighlightSpan(HDelimiter, eq, 1)] + p.g.value(p.b, p.g.field(name), v, e)
    ensures NoError(spans) <==> p.r.listed(name, part) && v < hi && p.r.value(name, p.b[v..e])
  {
    assert p.KeyLaw(name, part);
    var key := HighlightSpan(KeyHighlight(p.g.field(name), SectionOf(part)), a, k - a);
    var rest := if v == hi then [HighlightSpan(HError, eq, 1)]
                else [HighlightSpan(HDelimiter, eq, 1)] + p.g.value(p.b, p.g.field(name), v, e);
    SingleTold(key);
    NoErrorConcat([key], rest);
    if p.r.listed(name, part) { AssignedTold(p, name, part, eq, hi, v, e, rest); }
  }

  /** A setting in the code of a line, by positions and by strings. */
  lemma SettingIn(r: Reference, b: string, a: int, eq: int, e: int, hi: int, part: Part)
    requires 0 <= a < eq < e <= hi <= |b| && b[eq] == '=' && Without(b, '=', a, eq) && Gap(b, e, hi)
    ensures var name, v := Trim(b[a..eq], Blank), Trim(b[eq + 1..hi], Blank);
            IsSetting(r, b[a..e], part) <==> r.listed(name, part) && v != "" && r.value(name, v)
  {
    SettingParts(b, a, eq, e, hi);
    TrimTail(b[eq + 1..e], b[e..hi]);
    SettingOf(r, b[a..e], eq - a, part, Trim(b[a..eq], Blank), Trim(b[eq + 1..hi], Blank));
  }

  lemma SettingOf(r: Reference, code: string, eq: int, part: Part, name: string, v: string)
    requires 0 <= eq < |code| && eq == IndexOf(code, '=') && name == Trim(code[..eq], Blank) && v == Trim(code[eq + 1..], Blank)
    ensures IsSetting(r, code, part) <==> r.listed(name, part) && v != "" && r.value(name, v)
  {}

  lemma SettingParts(b: string, a: int, eq: int, e: int, hi: int)
    requires 0 <= a < eq < e <= hi <= |b| && b[eq] == '=' && Without(b, '=', a, eq)
    ensures var code := b[a..e];
            IndexOf(code, '=') == eq - a && code[..eq - a] == b[a..eq] && code[eq - a + 1..] == b[eq + 1..e]
    ensures b[eq + 1..hi] == b[eq + 1..e] + b[e..hi]
  {
    FindIs(b, '=', a, eq, e);
    IndexIsFind(b, '=', a, e);
  }

  lemma NoEquals(r: Reference, b: string, a: int, e: int, part: Part)
    requires 0 <= a <= e <= |b| && Without(b, '=', a, e)
    ensures !IsSetting(r, b[a..e], part)
  {
    FindIs(b, '=', a, e, e);
    IndexIsFind(b, '=', a, e);
  }

  lemma NoNameHere(p: Agreeing, code: string, part: Part)
    requires code != "" && (code[0] == '[' || code[0] == '=')
    ensures !IsSetting(p.r, code, part)
  {
    var eq := IndexOf(code, '=');
    if eq < |code| {
      TrimStart(code[..eq]);
      assert p.StartLaw(Trim(code[..eq], Blank), part);
    }
  }

  lemma TrimStart(s: string)
    ensures var t := Trim(s, Blank); t != "" && !Blank(s[0]) ==> t[0] == s[0]
  {
    var x, y := TrimIsMiddle(s, Blank);
  }

  lemma HeaderTold(p: Agreeing, a: int, e: int, part: Part)
    requires 0 <= a < e <= |p.b| && p.b[a] == '['
    ensures var code := p.b[a..e];
            NoError([HighlightSpan(SectionHighlight(p.g.section(code)), a, e - a)]) <==> CodeText(p.r, code, part)
  {
    var code := p.b[a..e];
    assert p.HeaderLaw(code);
    NoNameHere(p, code, part);
    SingleTold(HighlightSpan(SectionHighlight(p.g.section(code)), a, e - a));
  }

  lemma StartsAt(b: string, a: int, eq: int)
    requires 0 <= a < eq <= |b| && !Blank(b[a])
    ensures var t := Trim(b[a..eq], Blank); t != "" && t[0] == b[a]
  {
    TrimStretch(b, a, eq);
    FirstIs(b, a, a, eq);
  }

  /** The code of a line that is no header, with an equals sign behind its start. */
  lemma EqualsTold(p: Agreeing, a: int, eq: int, e: int, hi: int, part: Part)
    requires 0 <= a < eq < hi <= |p.b| && !Blank(p.b[a]) && p.b[a] != '['
    requires a < e <= hi && Gap(p.b, e, hi) && p.b[eq] == '=' && Without(p.b, '=', a + 1, eq)
    ensures NoError(SettingSpans(p.g, p.b, a, eq, hi, SectionOf(part))) <==> CodeText(p.r, p.b[a..e], part)
  {
    assert eq < e by { assert !Blank(p.b[eq]); }
    assert p.HeaderLaw(p.b[a..e]);
    SettingTold(p, a, eq, hi, part, Trim(p.b[a..eq], Blank), Trim(p.b[eq + 1..hi], Blank));
    if p.b[a] == '=' {
      NoNameHere(p, p.b[a..e], part);
      StartsAt(p.b, a, eq);
      assert p.StartLaw(Trim(p.b[a..eq], Blank), part);
    } else {
      SettingIn(p.r, p.b, a, eq, e, hi, part);
    }
  }

  /** And without one. */
  lemma NothingTold(p: Agreeing, a: int, e: int, part: Part)
    requires 0 <= a < e <= |p.b| && p.b[a] != '[' && Without(p.b, '=', a + 1, e)
    ensures !CodeText(p.r, p.b[a..e], part)
  {
    assert p.HeaderLaw(p.b[a..e]);
    if p.b[a] == '=' { NoNameHere(p, p.b[a..e], part); } else { NoEquals(p.r, p.b, a, e, part); }
  }

  /** The spans of the code, by its cases. */
  lemma CodeCases(g: Grammar, b: string, lo: int, a: int, e: int, eq: int, hi: int, section: Field)
    requires 0 <= lo <= hi <= |b| && a == First(b, lo, hi) && e == Last(b, a, hi) && (a < hi ==> eq == Find(b, '=', a + 1, hi))
    ensures CodeSpans(g, b, lo, hi, section) ==
            if a == hi then []
            else if b[a] == '[' then [HighlightSpan(SectionHighlight(g.section(b[a..e])), a, e - a)]
            else if eq == hi then [HighlightSpan(HError, a, e - a)]
            else SettingSpans(g, b, a, eq, hi, section)
  {}

  lemma CodeTold(p: Agreeing, lo: int, hi: int, part: Part, code: string)
    requires 0 <= lo <= hi <= |p.b| && code == Trim(p.b[lo..hi], Blank)
    ensures NoError(CodeSpans(p.g, p.b, lo, hi, SectionOf(part))) <==> CodeText(p.r, code, part)
  {
    TrimStretch(p.b, lo, hi);
    var a := First(p.b, lo, hi);
    var e, eq := Last(p.b, a, hi), if a < hi then Find(p.b, '=', a + 1, hi) else hi;
    CodeCases(p.g, p.b, lo, a, e, eq, hi, SectionOf(part));
    CodeToldFrom(p, a, e, eq, hi, part, code, CodeSpans(p.g, p.b, lo, hi, SectionOf(part)));
  }

  lemma CodeToldFrom(p: Agreeing, a: int, e: int, eq: int, hi: int, part: Part, code: string, spans: seq<HighlightSpan>)
    requires 0 <= a <= e <= hi <= |p.b| && a <= eq <= hi && Gap(p.b, e, hi) && code == p.b[a..e]
    requires a < hi ==> a < e && a < eq && !Blank(p.b[a]) && Without(p.b, '=', a + 1, eq) && (eq < hi ==> p.b[eq] == '=')
    requires spans == if a == hi then []
                      else if p.b[a] == '[' then [HighlightSpan(SectionHighlight(p.g.section(p.b[a..e])), a, e - a)]
                      else if eq == hi then [HighlightSpan(HError, a, e - a)]
                      else SettingSpans(p.g, p.b, a, eq, hi, SectionOf(part))
    ensures NoError(spans) <==> CodeText(p.r, code, part)
  {
    if a == hi {
      assert code == "" && NoError(spans);
    } else if p.b[a] == '[' {
      HeaderTold(p, a, e, part);
    } else if eq == hi {
      NothingTold(p, a, e, part);
      SingleTold(HighlightSpan(HError, a, e - a));
    } else {
      EqualsTold(p, a, eq, e, hi, part);
    }
  }

  lemma SectionTold(p: Agreeing, lo: int, hi: int, part: Part)
    requires 0 <= lo <= hi <= |p.b|
    ensures CodeSection(p.g, p.b, lo, hi, SectionOf(part)) == SectionOf(PartAfter(p.r, Trim(p.b[lo..hi], Blank), part))
  {
    TrimStretch(p.b, lo, hi);
    var a := First(p.b, lo, hi);
    assert p.HeaderLaw(p.b[a..Last(p.b, a, hi)]);
  }

  lemma CodeOf(b: string, lo: int, hi: int)
    requires 0 <= lo <= hi <= |b|
    ensures Code(b[lo..hi]) == Trim(b[lo..Find(b, '#', lo, hi)], Blank)
  {
    var h := Find(b, '#', lo, hi);
    IndexIsFind(b, '#', lo, hi);
    assert b[lo..hi][..h - lo] == b[lo..h];
  }

  lemma LineShows(p: Agreeing, lo: int, h: int, hi: int, part: Part, code: string)
    requires 0 <= lo <= hi <= |p.b| && h == Find(p.b, '#', lo, hi) && code == Code(p.b[lo..hi])
    ensures NoError(LineSpans(p.g, p.b, lo, hi, SectionOf(part))) <==> CodeText(p.r, code, part)
  {
    CodeOf(p.b, lo, hi);
    CodeTold(p, lo, h, part, code);
    LineCases(p.g, p.b, lo, h, hi, SectionOf(part));
  }

  lemma LineCases(g: Grammar, b: string, lo: int, h: int, hi: int, section: Field)
    requires 0 <= lo <= hi <= |b| && h == Find(b, '#', lo, hi)
    ensures NoError(LineSpans(g, b, lo, hi, section)) <==> NoError(CodeSpans(g, b, lo, h, section))
  {
    CommentToo(CodeSpans(g, b, lo, h, section), h, hi);
  }

  lemma LineLeaves(p: Agreeing, lo: int, hi: int, part: Part, code: string)
    requires 0 <= lo <= hi <= |p.b| && code == Code(p.b[lo..hi])
    ensures LineSection(p.g, p.b, lo, hi, SectionOf(part)) == SectionOf(PartAfter(p.r, code, part))
  {
    CodeOf(p.b, lo, hi);
    SectionTold(p, lo, Find(p.b, '#', lo, hi), part);
  }

  lemma LineTold(p: Agreeing, lo: int, hi: int, part: Part)
    requires 0 <= lo <= hi <= |p.b|
    ensures LineSays(LineSpans(p.g, p.b, lo, hi, SectionOf(part)), LineSection(p.g, p.b, lo, hi, SectionOf(part)),
                     LineTexts(p.r), LineParts(p.r), p.b[lo..hi], part)
  {
    var code := Code(p.b[lo..hi]);
    LineShows(p, lo, Find(p.b, '#', lo, hi), hi, part, code);
    LineLeaves(p, lo, hi, part, code);
  }

  lemma CommentToo(code: seq<HighlightSpan>, h: nat, hi: nat)
    requires h <= hi
    ensures NoError(code + if h < hi then [HighlightSpan(HComment, h, hi - h)] else []) <==> NoError(code)
  {
    NoErrorConcat(code, if h < hi then [HighlightSpan(HComment, h, hi - h)] else []);
  }

  /** What the spans and the section of a line tell. */
  ghost predicate LineSays(spans: seq<HighlightSpan>, section: Field, ok: (string, Part) -> bool, after: (string, Part) -> Part,
                           line: string, part: Part)
  {
    (NoError(spans) <==> ok(line, part)) && section == SectionOf(after(line, part))
  }

  // ---- Texts ---------------------------------------------------------------

  lemma LinesTextMore(ok: (string, Part) -> bool, after: (string, Part) -> Part, lines: seq<string>, line: string)
    ensures LinesText(ok, after, lines + [line]) <==> LinesText(ok, after, lines) && ok(line, PartBehind(after, lines))
  {
    var more := lines + [line];
    forall k | 0 <= k <= |lines| ensures more[..k] == lines[..k] {}
    assert lines[..|lines|] == lines && more[|lines|] == line;
    if LinesText(ok, after, more) {
      forall k | 0 <= k < |lines| ensures ok(lines[k], PartBehind(after, lines[..k])) { assert more[k] == lines[k]; }
    }
  }

  lemma PartBehindMore(after: (string, Part) -> Part, lines: seq<string>, line: string)
    ensures PartBehind(after, lines + [line]) == after(line, PartBehind(after, lines))
  {
    assert (lines + [line])[..|lines|] == lines;
  }

  /** The spans and the section behind some lines are those of the reference. */
  ghost predicate Says(spans: seq<HighlightSpan>, section: Field, ok: (string, Part) -> bool, after: (string, Part) -> Part,
                       lines: seq<string>)
  {
    (NoError(spans) <==> LinesText(ok, after, lines)) && section == SectionOf(PartBehind(after, lines))
  }

  /** One line more, with its own spans. */
  ghost predicate LineBy(all: seq<HighlightSpan>, spans: seq<HighlightSpan>, own: seq<HighlightSpan>,
      more: seq<string>, lines: seq<string>, line: string)
  {
    all == spans + own && more == lines + [line]
  }

  lemma OneMoreLine(all: seq<HighlightSpan>, spans: seq<HighlightSpan>, own: seq<HighlightSpan>, section: Field, next: Field,
      ok: (string, Part) -> bool, after: (string, Part) -> Part, more: seq<string>, lines: seq<string>, line: string)
    requires Says(spans, section, ok, after, lines) && LineBy(all, spans, own, more, lines, line)
    requires LineSays(own, next, ok, after, line, PartBehind(after, lines))
    ensures Says(all, next, ok, after, more)
  {
    NoErrorConcat(spans, own);
    LinesTextMore(ok, after, lines, line);
    PartBehindMore(after, lines, line);
  }

  /** The lines in front of each place where one starts, known by how they grow. */
  datatype Growth = Growth(spans: int -> seq<HighlightSpan>, section: int -> Field, lines: int -> seq<string>,
                           ok: (string, Part) -> bool, after: (string, Part) -> Part)
  {
    ghost predicate From(b: string) { forall lo :: At(b, lo) }

    ghost predicate At(b: string, lo: int) {
      && (lo == 0 ==> spans(lo) == [] && section(lo) == Invalid && lines(lo) == [])
      && (0 < lo <= |b| ==> ByAll(After(b, '\n', 0, lo - 1), lo))
    }

    ghost predicate ByAll(from: int, lo: int) { forall part :: By(from, lo, part) }

    ghost predicate By(from: int, lo: int, part: Part) {
      section(from) == SectionOf(part) ==>
        exists own, line :: ByLine(from, lo, part, own, line)
    }

    ghost predicate ByLine(from: int, lo: int, part: Part, own: seq<HighlightSpan>, line: string) {
      LineBy(spans(lo), spans(from), own, lines(lo), lines(from), line) && LineSays(own, section(lo), ok, after, line, part)
    }
  }

  lemma {:induction false} LinesTold(x: Growth, b: string, lo: int)
    requires 0 <= lo <= |b| && x.From(b)
    ensures Says(x.spans(lo), x.section(lo), x.ok, x.after, x.lines(lo))
    decreases lo
  {
    assert x.At(b, lo);
    if lo > 0 {
      var from := After(b, '\n', 0, lo - 1);
      LinesTold(x, b, from);
      var part := PartBehind(x.after, x.lines(from));
      assert x.By(from, lo, part);
      var own, line :| x.ByLine(from, lo, part, own, line);
      OneMoreLine(x.spans(lo), x.spans(from), own, x.section(from), x.section(lo), x.ok, x.after, x.lines(lo), x.lines(from), line);
    }
  }

  ghost function TextGrowth(p: Agreeing): Growth {
    Growth((lo: int) => if 0 <= lo <= |p.b| then SpansTo(p.g, p.b, lo) else [],
           (lo: int) => if 0 <= lo <= |p.b| then SectionAt(p.g, p.b, lo) else Invalid,
           (lo: int) => if 0 <= lo <= |p.b| then PiecesTo(p.b, '\n', 0, lo) else [], LineTexts(p.r), LineParts(p.r))
  }

  lemma SpansUnfold(g: Grammar, b: string, lo: int)
    requires 0 < lo <= |b|
    ensures var from := After(b, '\n', 0, lo - 1);
            SpansTo(g, b, lo) == SpansTo(g, b, from) + LineSpans(g, b, from, lo - 1, SectionAt(g, b, from))
            && SectionAt(g, b, lo) == LineSection(g, b, from, lo - 1, SectionAt(g, b, from))
  {}

  lemma GrowsByLine(p: Agreeing, x: Growth, from: int, lo: int, part: Part)
    requires 0 < lo <= |p.b| && from == After(p.b, '\n', 0, lo - 1) && x.ok == LineTexts(p.r) && x.after == LineParts(p.r)
    requires x.spans(from) == SpansTo(p.g, p.b, from) && x.spans(lo) == SpansTo(p.g, p.b, lo)
    requires x.section(from) == SectionAt(p.g, p.b, from) && x.section(lo) == SectionAt(p.g, p.b, lo)
    requires x.lines(lo) == x.lines(from) + [p.b[from..lo - 1]]
    ensures x.By(from, lo, part)
  {
    if x.section(from) == SectionOf(part) {
      SpansUnfold(p.g, p.b, lo);
      NextLine(p, x, from, lo, part, x.section(from));
    }
  }

  lemma NextLine(p: Agreeing, x: Growth, from: int, lo: int, part: Part, section: Field)
    requires 0 <= from < lo <= |p.b| && section == SectionOf(part) && x.ok == LineTexts(p.r) && x.after == LineParts(p.r)
    requires x.spans(lo) == x.spans(from) + LineSpans(p.g, p.b, from, lo - 1, section)
    requires x.section(lo) == LineSection(p.g, p.b, from, lo - 1, section)
    requires x.lines(lo) == x.lines(from) + [p.b[from..lo - 1]]
    ensures x.By(from, lo, part)
  {
    LineTold(p, from, lo - 1, part);
    ByOneLine(x, from, lo, part, LineSpans(p.g, p.b, from, lo - 1, section), p.b[from..lo - 1]);
  }

  lemma ByOneLine(x: Growth, from: int, lo: int, part: Part, own: seq<HighlightSpan>, line: string)
    requires LineBy(x.spans(lo), x.spans(from), own, x.lines(lo), x.lines(from), line)
    requires LineSays(own, x.section(lo), x.ok, x.after, line, part)
    ensures x.By(from, lo, part)
  {
    assert x.ByLine(from, lo, part, own, line);
  }

  lemma LinesInFront(p: Agreeing, from: int, lo: int)
    requires 0 < lo <= |p.b| && from == After(p.b, '\n', 0, lo - 1)
    ensures PiecesTo(p.b, '\n', 0, lo) == PiecesTo(p.b, '\n', 0, from) + [p.b[from..lo - 1]]
  {
    PiecesAt(p.b, '\n', 0, from, lo - 1);
  }

  lemma TextGrows(p: Agreeing, x: Growth, lo: int)
    requires x == TextGrowth(p)
    ensures x.At(p.b, lo)
  {
    if 0 < lo <= |p.b| {
      var from := After(p.b, '\n', 0, lo - 1);
      LinesInFront(p, from, lo);
      forall part ensures x.By(from, lo, part) { GrowsByLine(p, x, from, lo, part); }
    }
  }

  lemma LinesOfText(p: Agreeing, lo: int)
    requires 0 <= lo <= |p.b|
    ensures Says(SpansTo(p.g, p.b, lo), SectionAt(p.g, p.b, lo), LineTexts(p.r), LineParts(p.r), PiecesTo(p.b, '\n', 0, lo))
  {
    var x := TextGrowth(p);
    forall lo ensures x.At(p.b, lo) { TextGrows(p, x, lo); }
    LinesTold(x, p.b, lo);
  }

  lemma TextOfLines(p: Agreeing, n: nat)
    requires n <= |p.b|
    ensures NoError(TextSpans(p.g, p.b, n)) <==> LinesText(LineTexts(p.r), LineParts(p.r), Split(p.b[0..n], '\n'))
  {
    var from := After(p.b, '\n', 0, n);
    LinesOfText(p, from);
    PiecesAt(p.b, '\n', 0, from, n);
    var lines := PiecesTo(p.b, '\n', 0, from);
    var part := PartBehind(LineParts(p.r), lines);
    LineTold(p, from, n, part);
    OneMoreLine(TextSpans(p.g, p.b, n), SpansTo(p.g, p.b, from), LineSpans(p.g, p.b, from, n, SectionOf(part)), SectionOf(part),
                LineSection(p.g, p.b, from, n, SectionOf(part)), LineTexts(p.r), LineParts(p.r),
                Split(p.b[0..n], '\n'), lines, p.b[from..n]);
  }

  /** A text is shown without an error exactly when it is well-formed. */
  lemma ErrorsExactly(config: string)
    ensures NoError(TextSpans(WgQuick(), config + "\0", |config|)) <==> WellFormed(config)
  {
    var b := config + "\0";
    var p := ConfigLaws(b);
    TextOfLines(p, |config|);
    assert b[0..|config|] == config;
  }
}
