// What the highlighter should show, line by line: the grammar of the lines and
// of their values, without any walk over the text.
module HighlightGrammar {
  import opened Text
  import opened AddressGrammar
  import opened Base64
  import opened StringSpans

  datatype Highlight =
    | HSection | HField | HPrivateKey | HPublicKey | HPresharedKey | HIP | HCidr | HHost | HPort | HMTU
    | HKeepalive | HComment | HDelimiter | HTable | HCmd
    | HJunk(kind: JunkKind) | HPadding(n: nat) | HHeader(n: nat) | HInit(n: nat)
    | HWarning | HError

  /** Jc, Jmin and Jmax. */
  datatype JunkKind = JunkCount | JunkMin | JunkMax

  datatype HighlightSpan = HighlightSpan(t: Highlight, s: nat, len: nat)

  datatype Field =
    | InterfaceSection
    | PrivateKey | ListenPort | Address | DNS | MTU | Table | PreUp | PostUp | PreDown | PostDown
    | Junk(kind: JunkKind) | Padding(n: nat) | Header(n: nat) | Init(n: nat)
    | PeerSection
    | PublicKey | PresharedKey | AllowedIPs | Endpoint | PersistentKeepalive
    | Invalid

  function SectionForField(f: Field): Field {
    match f
    case PublicKey => PeerSection
    case PresharedKey => PeerSection
    case AllowedIPs => PeerSection
    case Endpoint => PeerSection
    case PersistentKeepalive => PeerSection
    case InterfaceSection => Invalid
    case PeerSection => Invalid
    case Invalid => Invalid
    case _ => InterfaceSection
  }

  /** The fields that WireGuard's own tools know. */
  function WireGuardField(name: string): Field {
    if Caseless(name, "PrivateKey") then PrivateKey
    else if Caseless(name, "ListenPort") then ListenPort
    else if Caseless(name, "Address") then Address
    else if Caseless(name, "DNS") then DNS
    else if Caseless(name, "MTU") then MTU
    else if Caseless(name, "Table") then Table
    else if Caseless(name, "PublicKey") then PublicKey
    else if Caseless(name, "PresharedKey") then PresharedKey
    else if Caseless(name, "AllowedIPs") then AllowedIPs
    else if Caseless(name, "Endpoint") then Endpoint
    else if Caseless(name, "PersistentKeepalive") then PersistentKeepalive
    else if Caseless(name, "PreUp") then PreUp
    else if Caseless(name, "PostUp") then PostUp
    else if Caseless(name, "PreDown") then PreDown
    else if Caseless(name, "PostDown") then PostDown
    else Invalid
  }

  /** The fields of the obfuscated protocol. */
  function ObfuscationField(name: string): Field {
    if Caseless(name, "Jc") then Junk(JunkCount)
    else if Caseless(name, "Jmin") then Junk(JunkMin)
    else if Caseless(name, "Jmax") then Junk(JunkMax)
    else if Caseless(name, "S1") then Padding(1)
    else if Caseless(name, "S2") then Padding(2)
    else if Caseless(name, "S3") then Padding(3)
    else if Caseless(name, "S4") then Padding(4)
    else if Caseless(name, "H1") then Header(1)
    else if Caseless(name, "H2") then Header(2)
    else if Caseless(name, "H3") then Header(3)
    else if Caseless(name, "H4") then Header(4)
    else if Caseless(name, "I1") then Init(1)
    else if Caseless(name, "I2") then Init(2)
    else if Caseless(name, "I3") then Init(3)
    else if Caseless(name, "I4") then Init(4)
    else if Caseless(name, "I5") then Init(5)
    else Invalid
  }

  function FieldOf(name: string): Field {
    if WireGuardField(name) != Invalid then WireGuardField(name) else ObfuscationField(name)
  }

  function SectionType(name: string): Field {
    if Caseless(name, "[Peer]") then PeerSection else if Caseless(name, "[Interface]") then InterfaceSection else Invalid
  }

  // ---- What a highlight promises about its text ----------------------------

  predicate TableText(s: string) {
    s == "off" || s == "auto" || s == "main" || Number(s, 0, 0xFFFF_FFFF)
  }

  predicate HeaderNumber(s: string) { Number(s, 0, 0x7FFF_FFFF) }

  /** A header value: one number or two around the first hyphen. */
  predicate HeaderText(s: string) {
    var k := IndexOf(s, '-');
    if k < |s| then HeaderNumber(s[..k]) && HeaderNumber(s[k + 1..]) else HeaderNumber(s)
  }

  /** The texts a highlight other than an error may cover. */
  ghost predicate Fits(t: Highlight, s: string) {
    match t
    case HSection => SectionType(s) != Invalid
    case HField => FieldOf(s) != Invalid
    case HPrivateKey => KeyEncoding(s)
    case HPublicKey => KeyEncoding(s)
    case HPresharedKey => KeyEncoding(s)
    case HIP => DottedQuad(s) || IPv6Text(s)
    case HCidr => Number(s, 0, 128)
    case HHost => HostText(s)
    case HPort => PortText(s)
    case HMTU => Number(s, 576, 65535)
    case HKeepalive => s == "off" || Number(s, 0, 65535)
    case HComment => s != "" && s[0] == '#'
    case HDelimiter => s == "=" || s == "," || s == "/" || s == ":"
    case HTable => TableText(s)
    case HCmd => true
    case HJunk(_) => Number(s, 0, 65535)
    case HPadding(_) => Number(s, 0, 65535)
    case HHeader(_) => HeaderText(s)
    case HInit(_) => true
    case HWarning => false
    case HError => true
  }

  // ---- Values --------------------------------------------------------------

  /** The fields whose value is one span. */
  predicate SingleValued(f: Field) {
    !f.Endpoint? && !f.Address? && !f.DNS? && !f.AllowedIPs?
  }

  function Validated(ok: bool, t: Highlight): Highlight { if ok then t else HError }

  /** The highlight of a single-valued field: its own when the text is in the
      grammar of the field, an error otherwise. */
  ghost function ValueHighlight(f: Field, s: string): Highlight
    requires SingleValued(f)
  {
    match f
    case PrivateKey => Validated(KeyEncoding(s), HPrivateKey)
    case PublicKey => Validated(KeyEncoding(s), HPublicKey)
    case PresharedKey => Validated(KeyEncoding(s), HPresharedKey)
    case MTU => Validated(Number(s, 576, 65535), HMTU)
    case Table => Validated(TableText(s), HTable)
    case PreUp => Validated(s != "", HCmd)
    case PostUp => Validated(s != "", HCmd)
    case PreDown => Validated(s != "", HCmd)
    case PostDown => Validated(s != "", HCmd)
    case ListenPort => Validated(PortText(s), HPort)
    case PersistentKeepalive => Validated(s == "off" || Number(s, 0, 65535), HKeepalive)
    case Junk(k) => Validated(Number(s, 0, 65535), HJunk(k))
    case Padding(n) => Validated(Number(s, 0, 65535), HPadding(n))
    case Header(n) => Validated(HeaderText(s), HHeader(n))
    case Init(n) => Validated(s != "", HInit(n))
    case _ => HError
  }

  lemma ValueHighlightFits(f: Field, s: string)
    requires SingleValued(f)
    ensures Fits(ValueHighlight(f, s), s)
  {
    if f.PrivateKey? || f.PublicKey? || f.PresharedKey? {
      assert Fits(Validated(KeyEncoding(s), HPrivateKey), s);
    } else {
      OtherHighlightFits(f, s);
    }
  }

  lemma OtherHighlightFits(f: Field, s: string)
    requires SingleValued(f) && !f.PrivateKey? && !f.PublicKey? && !f.PresharedKey?
    ensures Fits(ValueHighlight(f, s), s)
  {
    match f
    case MTU =>
    case Table =>
    case ListenPort =>
    case PersistentKeepalive =>
    case Junk(_) =>
    case Padding(_) =>
    case Header(_) =>
    case _ =>
  }

  /** A DNS server is an address, a search domain or an error. */
  ghost function NameHighlight(t: string): Highlight {
    if DottedQuad(t) || IPv6Text(t) then HIP else if HostnameText(t) then HHost else HError
  }

  /** A key is a field when it names one of the section it stands in. */
  function KeyHighlight(field: Field, section: Field): Highlight {
    if section != Invalid && SectionForField(field) == section then HField else HError
  }

  // ---- Edges ---------------------------------------------------------------

  predicate Blank(c: char) { c == ' ' || c == '\t' || c == '\n' }

  predicate Gap(b: string, lo: int, hi: int)
    requires 0 <= lo && hi <= |b|
  {
    forall k :: lo <= k < hi ==> Blank(b[k])
  }

  /** The first position from lo on that is not blank, or hi. */
  function First(b: string, lo: int, hi: int): (a: int)
    requires 0 <= lo <= hi <= |b|
    ensures lo <= a <= hi && Gap(b, lo, a) && (a < hi ==> !Blank(b[a]))
    decreases hi - lo
  {
    if lo < hi && Blank(b[lo]) then First(b, lo + 1, hi) else lo
  }

  lemma FirstIs(b: string, lo: int, a: int, hi: int)
    requires 0 <= lo <= a <= hi <= |b| && Gap(b, lo, a) && (a < hi ==> !Blank(b[a]))
    ensures First(b, lo, hi) == a
  {}

  /** The position behind the last one before hi that is not blank, or lo. */
  function Last(b: string, lo: int, hi: int): (e: int)
    requires 0 <= lo <= hi <= |b|
    ensures lo <= e <= hi && Gap(b, e, hi) && (lo < e ==> !Blank(b[e - 1]))
    decreases hi - lo
  {
    if lo < hi && Blank(b[hi - 1]) then Last(b, lo, hi - 1) else hi
  }

  lemma LastIs(b: string, lo: int, e: int, hi: int)
    requires 0 <= lo <= e <= hi <= |b| && Gap(b, e, hi) && (lo < e ==> !Blank(b[e - 1]))
    ensures Last(b, lo, hi) == e
  {}

  /** c is nowhere in the stretch. */
  predicate Without(b: string, c: char, lo: int, hi: int)
    requires 0 <= lo && hi <= |b|
  {
    forall k :: lo <= k < hi ==> b[k] != c
  }

  /** The first position from lo on that holds c, or hi. */
  function Find(b: string, c: char, lo: int, hi: int): (k: int)
    requires 0 <= lo <= hi <= |b|
    ensures lo <= k <= hi && Without(b, c, lo, k) && (k < hi ==> b[k] == c)
    decreases hi - lo
  {
    if lo < hi && b[lo] != c then Find(b, c, lo + 1, hi) else lo
  }

  lemma FindIs(b: string, c: char, lo: int, k: int, hi: int)
    requires 0 <= lo <= k <= hi <= |b| && Without(b, c, lo, k) && (k < hi ==> b[k] == c)
    ensures Find(b, c, lo, hi) == k
  {}

  /** The position behind the last c in the stretch, or lo. */
  function After(b: string, c: char, lo: int, hi: int): (k: int)
    requires 0 <= lo <= hi <= |b|
    ensures lo <= k <= hi && Without(b, c, k, hi) && (lo < k ==> b[k - 1] == c)
    decreases hi - lo
  {
    if lo < hi && b[hi - 1] != c then After(b, c, lo, hi - 1) else hi
  }

  lemma AfterIs(b: string, c: char, lo: int, k: int, hi: int)
    requires 0 <= lo <= k <= hi <= |b| && Without(b, c, k, hi) && (lo < k ==> b[k - 1] == c)
    ensures After(b, c, lo, hi) == k
  {}

  // ---- The spans of a value ------------------------------------------------

  function Retyped(spans: seq<HighlightSpan>): seq<HighlightSpan>
    requires spans != []
  {
    spans[|spans| - 1 := spans[|spans| - 1].(t := HError)]
  }

  /** An address, or an address, a slash and a prefix length. */
  ghost function NetworkOf(t: string, off: nat): seq<HighlightSpan> { AroundSlash(NetworkText(t), t, off) }

  function AroundSlash(ok: bool, t: string, off: nat): seq<HighlightSpan> {
    var k := IndexOf(t, '/');
    if !ok then [HighlightSpan(HError, off, |t|)]
    else if k == |t| then [HighlightSpan(HIP, off, |t|)]
    else [HighlightSpan(HIP, off, k), HighlightSpan(HDelimiter, off + k, 1), HighlightSpan(HCidr, off + k + 1, |t| - k - 1)]
  }

  /** A host, the last colon and a port. */
  ghost function EndpointOf(t: string, off: nat): seq<HighlightSpan> {
    AroundColon(EndpointText(t), off, |t|, After(t, ':', 0, |t|) - 1)
  }

  function AroundColon(ok: bool, off: nat, len: nat, c: int): seq<HighlightSpan>
    requires c < len
  {
    if !ok then [HighlightSpan(HError, off, len)]
    else if c < 0 then []
    else [HighlightSpan(HHost, off, c), HighlightSpan(HDelimiter, off + c, 1), HighlightSpan(HPort, off + c + 1, len - c - 1)]
  }

  ghost function ItemOf(f: Field, t: string, off: nat): seq<HighlightSpan> {
    match f
    case DNS => [HighlightSpan(NameHighlight(t), off, |t|)]
    case Address => NetworkOf(t, off)
    case AllowedIPs => NetworkOf(t, off)
    case _ => [HighlightSpan(HError, off, |t|)]
  }

  /** The spans of a value that is not a list. */
  ghost function ValueOf(f: Field, t: string, off: nat): seq<HighlightSpan> {
    if SingleValued(f) then [HighlightSpan(ValueHighlight(f, t), off, |t|)] else EndpointOf(t, off)
  }

  predicate IsList(f: Field) { f.Address? || f.DNS? || f.AllowedIPs? }

  // ---- Lists, for any spans of their items ---------------------------------

  /** The item between lo and hi, without the blanks around it. */
  function ItemSpans(item: (Field, string, nat) -> seq<HighlightSpan>, b: string, f: Field, lo: int, hi: int): seq<HighlightSpan>
    requires 0 <= lo <= hi <= |b|
  {
    var a := First(b, lo, hi);
    var e := Last(b, a, hi);
    if a == e then [] else item(f, b[a..e], a)
  }

  /** The items from lo on up to the comma in front of c, and their commas. */
  function ItemsTo(item: (Field, string, nat) -> seq<HighlightSpan>, b: string, f: Field, lo: int, c: int): seq<HighlightSpan>
    requires 0 <= lo <= c <= |b|
    decreases c
  {
    if c == lo then []
    else
      var p := After(b, ',', lo, c - 1);
      ItemsTo(item, b, f, lo, p) + ItemSpans(item, b, f, p, c - 1) + [HighlightSpan(HDelimiter, c - 1, 1)]
  }

  /** A list of items; a comma at its end is an error. */
  function ListSpans(item: (Field, string, nat) -> seq<HighlightSpan>, b: string, f: Field, lo: int, hi: int): seq<HighlightSpan>
    requires 0 <= lo <= hi <= |b|
  {
    var c := After(b, ',', lo, hi);
    if c == hi && lo < c then Retyped(ItemsTo(item, b, f, lo, c))
    else ItemsTo(item, b, f, lo, c) + ItemSpans(item, b, f, c, hi)
  }

  ghost function ConfigItem(): (Field, string, nat) -> seq<HighlightSpan> {
    (f: Field, t: string, off: nat) => ItemOf(f, t, off)
  }

  /** The spans of any value, from lo up to hi. */
  ghost function ValueSpans(b: string, f: Field, lo: int, hi: int): seq<HighlightSpan> {
    if !(0 <= lo <= hi <= |b|) then []
    else if IsList(f) then ListSpans(ConfigItem(), b, f, lo, hi)
    else ValueOf(f, b[lo..hi], lo)
  }

  // ---- Lines, for any grammar of their parts -------------------------------

  /** What the parts of a line are: keys, section headers and values. */
  datatype Grammar = Grammar(field: string -> Field, section: string -> Field,
                             value: (string, Field, int, int) -> seq<HighlightSpan>)

  /** The grammar of the configurations. */
  ghost function WgQuick(): Grammar {
    Grammar((name: string) => FieldOf(name), (name: string) => SectionType(name),
            (b: string, f: Field, lo: int, hi: int) => ValueSpans(b, f, lo, hi))
  }

  function SectionHighlight(section: Field): Highlight { Validated(section != Invalid, HSection) }

  /** A setting: the key, the equals sign and the value. */
  function SettingSpans(g: Grammar, b: string, a: int, eq: int, hi: int, section: Field): seq<HighlightSpan>
    requires 0 <= a < eq < hi <= |b|
  {
    var k := Last(b, a, eq);
    var f := g.field(b[a..k]);
    [HighlightSpan(KeyHighlight(f, section), a, k - a)] + AssignedSpans(g, b, f, eq, hi)
  }

  /** The equals sign, an error when nothing follows it, and the value. */
  function AssignedSpans(g: Grammar, b: string, f: Field, eq: int, hi: int): seq<HighlightSpan>
    requires 0 <= eq < hi <= |b|
  {
    var v := First(b, eq + 1, hi);
    if v == hi then [HighlightSpan(HError, eq, 1)]
    else [HighlightSpan(HDelimiter, eq, 1)] + g.value(b, f, v, Last(b, v, hi))
  }

  /** The code of a line: nothing, a section header, a setting, or neither. */
  function CodeSpans(g: Grammar, b: string, lo: int, hi: int, section: Field): seq<HighlightSpan>
    requires 0 <= lo <= hi <= |b|
  {
    var a := First(b, lo, hi);
    if a == hi then []
    else
      var e := Last(b, a, hi);
      if b[a] == '[' then [HighlightSpan(SectionHighlight(g.section(b[a..e])), a, e - a)]
      else
        var eq := Find(b, '=', a + 1, hi);
        if eq == hi then [HighlightSpan(HError, a, e - a)] else SettingSpans(g, b, a, eq, hi, section)
  }

  /** The section that the code leaves the next line in. */
  function CodeSection(g: Grammar, b: string, lo: int, hi: int, section: Field): Field
    requires 0 <= lo <= hi <= |b|
  {
    var a := First(b, lo, hi);
    if a < hi && b[a] == '[' then g.section(b[a..Last(b, a, hi)]) else section
  }

  /** The code and the comment behind it. */
  function LineSpans(g: Grammar, b: string, lo: int, hi: int, section: Field): seq<HighlightSpan>
    requires 0 <= lo <= hi <= |b|
  {
    var h := Find(b, '#', lo, hi);
    CodeSpans(g, b, lo, h, section) + if h < hi then [HighlightSpan(HComment, h, hi - h)] else []
  }

  function LineSection(g: Grammar, b: string, lo: int, hi: int, section: Field): Field
    requires 0 <= lo <= hi <= |b|
  {
    CodeSection(g, b, lo, Find(b, '#', lo, hi), section)
  }

  /** The section that the lines in front of lo end in. */
  function SectionAt(g: Grammar, b: string, lo: int): Field
    requires 0 <= lo <= |b|
    decreases lo
  {
    if lo == 0 then Invalid
    else
      var p := After(b, '\n', 0, lo - 1);
      LineSection(g, b, p, lo - 1, SectionAt(g, b, p))
  }

  /** The spans of the lines in front of lo, which starts a line. */
  function SpansTo(g: Grammar, b: string, lo: int): seq<HighlightSpan>
    requires 0 <= lo <= |b|
    decreases lo
  {
    if lo == 0 then []
    else
      var p := After(b, '\n', 0, lo - 1);
      SpansTo(g, b, p) + LineSpans(g, b, p, lo - 1, SectionAt(g, b, p))
  }

  /** The spans of the first n bytes, line by line. */
  function TextSpans(g: Grammar, b: string, n: int): seq<HighlightSpan>
    requires 0 <= n <= |b|
  {
    var p := After(b, '\n', 0, n);
    SpansTo(g, b, p) + LineSpans(g, b, p, n, SectionAt(g, b, p))
  }
}
