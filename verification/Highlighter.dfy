// The config highlighter: it walks the text once and appends coloured spans.
//
// The methods are proved against predicates and functions that they get as ghost
// values: Judge for the array of spans, Oracle and ItemWalker for the walk over a
// list, TextOracle and Walker for the walk over the text. What is known of such a
// value are its laws, each with a name, and a proof asserts the ones it needs. So
// the definitions behind them, grammars and invariants with many quantifiers,
// stay out of the methods; the function that makes each value shows its laws.
module Highlighter {
  import opened Text
  import opened AddressGrammar
  import opened Base64
  import opened StringSpans
  import opened HighlightGrammar
  import opened HighlightLaws

  ghost predicate SpanFits(b: string, x: HighlightSpan) {
    x.s + x.len < |b| && Fits(x.t, b[x.s..x.s + x.len])
  }

  ghost predicate Sound(b: string, spans: seq<HighlightSpan>) {
    forall i :: 0 <= i < |spans| ==> SpanFits(b, spans[i])
  }

  // ---- Tiling --------------------------------------------------------------

  /** The first n spans and the gaps between them cover the first hi bytes. */
  predicate TiledTo(b: string, spans: seq<HighlightSpan>, n: nat, hi: int)
    requires n <= |spans|
  {
    && 0 <= hi <= |b|
    && if n == 0 then Gap(b, 0, hi)
       else
         var x := spans[n - 1];
         x.len > 0 && x.s + x.len <= hi && Gap(b, x.s + x.len, hi) && TiledTo(b, spans, n - 1, x.s)
  }

  predicate Tiled(b: string, spans: seq<HighlightSpan>, hi: int) {
    TiledTo(b, spans, |spans|, hi)
  }

  /** Only the places of the first n spans matter. */
  lemma {:induction false} TiledToSame(b: string, spans: seq<HighlightSpan>, other: seq<HighlightSpan>, n: nat, hi: int)
    requires n <= |spans| && n <= |other|
    requires forall i :: 0 <= i < n ==> spans[i].s == other[i].s && spans[i].len == other[i].len
    ensures TiledTo(b, spans, n, hi) == TiledTo(b, other, n, hi)
    decreases n
  {
    if n > 0 { TiledToSame(b, spans, other, n - 1, spans[n - 1].s); }
  }

  predicate InSpan(x: HighlightSpan, k: int) { x.s <= k < x.s + x.len }

  predicate Covered(spans: seq<HighlightSpan>, k: int) {
    exists i :: 0 <= i < |spans| && InSpan(spans[i], k)
  }

  /** Non-empty spans in bounds, in strict order and disjoint, with nothing but
      blanks and line ends outside of them. */
  predicate Ordered(spans: seq<HighlightSpan>, hi: int) {
    && (forall i :: 0 <= i < |spans| ==> spans[i].len > 0 && spans[i].s + spans[i].len <= hi)
    && (forall i, j :: 0 <= i < j < |spans| ==> spans[i].s + spans[i].len <= spans[j].s)
  }

  predicate OutsideBlank(b: string, spans: seq<HighlightSpan>, hi: int)
    requires 0 <= hi <= |b|
  {
    forall k :: 0 <= k < hi && !Covered(spans, k) ==> Blank(b[k])
  }

  /** What a tiling says about every span and every byte. */
  lemma TiledMeans(b: string, spans: seq<HighlightSpan>, hi: int)
    requires 0 <= hi <= |b|
    ensures Tiled(b, spans, hi) <==> Ordered(spans, hi) && OutsideBlank(b, spans, hi)
  {
    if Tiled(b, spans, hi) { TiledIsOrdered(b, spans, hi); }
    if Ordered(spans, hi) && OutsideBlank(b, spans, hi) { OrderedIsTiled(b, spans, hi); }
  }

  lemma CoveredSnoc(spans: seq<HighlightSpan>, k: int)
    requires spans != []
    ensures Covered(spans, k) <==> Covered(spans[..|spans| - 1], k) || InSpan(spans[|spans| - 1], k)
  {
    var front := spans[..|spans| - 1];
    if i :| 0 <= i < |front| && InSpan(front[i], k) { assert InSpan(spans[i], k); }
    if i :| 0 <= i < |spans| && InSpan(spans[i], k) { assert i < |front| ==> InSpan(front[i], k); }
  }

  lemma {:induction false} TiledIsOrdered(b: string, spans: seq<HighlightSpan>, hi: int)
    requires Tiled(b, spans, hi)
    ensures Ordered(spans, hi) && OutsideBlank(b, spans, hi)
    decreases |spans|
  {
    if spans != [] {
      var front, x := spans[..|spans| - 1], spans[|spans| - 1];
      TiledToSame(b, spans, front, |front|, x.s);
      TiledIsOrdered(b, front, x.s);
      forall k | 0 <= k < hi && !Covered(spans, k) ensures Blank(b[k]) {
        CoveredSnoc(spans, k);
      }
      assert forall i :: 0 <= i < |front| ==> spans[i] == front[i];
    }
  }

  lemma {:induction false} OrderedIsTiled(b: string, spans: seq<HighlightSpan>, hi: int)
    requires 0 <= hi <= |b| && Ordered(spans, hi) && OutsideBlank(b, spans, hi)
    ensures Tiled(b, spans, hi)
    decreases |spans|
  {
    if spans != [] {
      var front, x := spans[..|spans| - 1], spans[|spans| - 1];
      forall k | 0 <= k < hi ensures Covered(spans, k) <==> Covered(front, k) || InSpan(x, k) {
        CoveredSnoc(spans, k);
      }
      assert forall i :: 0 <= i < |front| ==> front[i] == spans[i];
      NotCoveredBeyond(front, x.s);
      OrderedIsTiled(b, front, x.s);
      TiledToSame(b, spans, front, |front|, x.s);
    }
  }

  lemma NotCoveredBeyond(spans: seq<HighlightSpan>, hi: int)
    requires Ordered(spans, hi)
    ensures forall k :: k >= hi ==> !Covered(spans, k)
  {}

  /** Spans that cover the first hi bytes and fit their texts. */
  ghost predicate Good(b: string, spans: seq<HighlightSpan>, hi: int) {
    Tiled(b, spans, hi) && Sound(b, spans)
  }

  lemma GoodSnoc(b: string, spans: seq<HighlightSpan>, x: HighlightSpan)
    requires Good(b, spans, x.s) && x.len > 0 && SpanFits(b, x)
    ensures Good(b, spans + [x], x.s + x.len)
  {
    TiledToSame(b, spans, spans + [x], |spans|, x.s);
  }

  lemma GoodOn(b: string, spans: seq<HighlightSpan>, lo: int, hi: int)
    requires Good(b, spans, lo) && lo <= hi <= |b| && Gap(b, lo, hi)
    ensures Good(b, spans, hi)
  {}

  /** Turning the last span into an error keeps the tiling. */
  lemma GoodRetype(b: string, spans: seq<HighlightSpan>, hi: int)
    requires Good(b, spans, hi) && spans != []
    ensures Good(b, Retyped(spans), hi)
  {
    TiledToSame(b, spans, Retyped(spans), |spans|, hi);
  }

  /** The grammar of the values, by their kinds. */
  datatype Parts = Parts(name: string -> Highlight, network: (string, nat) -> seq<HighlightSpan>,
                         single: (Field, string) -> Highlight, endpoint: (string, nat) -> seq<HighlightSpan>)

  ghost function ConfigParts(): Parts {
    Parts((t: string) => NameHighlight(t), (t: string, off: nat) => NetworkOf(t, off),
          (f: Field, t: string) => if SingleValued(f) then ValueHighlight(f, t) else HError,
          (t: string, off: nat) => EndpointOf(t, off))
  }

  /** What the array is built under: which highlight fits which text, which spans
      are good up to which offset, and the grammar the spans come from. The
      methods use only the laws below; TilingJudge picks Fits, Good and WgQuick. */
  datatype Judge = Judge(b: string, fits: (Highlight, string) -> bool, good: (seq<HighlightSpan>, int) -> bool,
                         item: (Field, string, nat) -> seq<HighlightSpan>, parts: Parts, g: Grammar) {
    ghost predicate FitLaw(t: Highlight, s: string) { Fits(t, s) ==> fits(t, s) }

    ghost predicate SnocLaw(spans: seq<HighlightSpan>, x: HighlightSpan) {
      good(spans, x.s) && x.len > 0 && x.s + x.len < |b| && fits(x.t, b[x.s..x.s + x.len]) ==>
        good(spans + [x], x.s + x.len)
    }

    ghost predicate SkipLaw(spans: seq<HighlightSpan>, lo: int, hi: int) {
      good(spans, lo) && 0 <= lo <= hi <= |b| && Gap(b, lo, hi) ==> good(spans, hi)
    }

    ghost predicate RetypeLaw(spans: seq<HighlightSpan>, hi: int) {
      good(spans, hi) && spans != [] ==> good(Retyped(spans), hi)
    }

    ghost predicate ItemLaw(f: Field, t: string, off: nat) {
      item(f, t, off) ==
      if f == DNS then [HighlightSpan(parts.name(t), off, |t|)]
      else if f == Address || f == AllowedIPs then parts.network(t, off)
      else [HighlightSpan(HError, off, |t|)]
    }

    ghost predicate ValueLaw(f: Field, lo: int, hi: int) {
      0 <= lo <= hi <= |b| ==>
        g.value(b, f, lo, hi) ==
        if IsList(f) then ListSpans(item, b, f, lo, hi)
        else if SingleValued(f) then [HighlightSpan(parts.single(f, b[lo..hi]), lo, hi - lo)]
        else parts.endpoint(b[lo..hi], lo)
    }

    ghost predicate NameLaw(t: string) { parts.name(t) == NameHighlight(t) }

    ghost predicate NetworkLaw(t: string, off: nat) { parts.network(t, off) == NetworkOf(t, off) }

    ghost predicate SingleLaw(f: Field, t: string) { SingleValued(f) ==> parts.single(f, t) == ValueHighlight(f, t) }

    ghost predicate EndpointLaw(t: string, off: nat) { parts.endpoint(t, off) == EndpointOf(t, off) }

    /** Two parts around the delimiter at k. */
    ghost predicate Cut(result: seq<HighlightSpan>, t: string, off: nat, k: nat, before: Highlight, after: Highlight) {
      && 0 < k < |t| - 1 && fits(before, t[..k]) && fits(HDelimiter, [t[k]]) && fits(after, t[k + 1..])
      && result == [HighlightSpan(before, off, k), HighlightSpan(HDelimiter, off + k, 1),
                    HighlightSpan(after, off + k + 1, |t| - k - 1)]
    }

    ghost predicate FieldLaw(name: string) { g.field(name) == FieldOf(name) }

    ghost predicate SectionLaw(name: string) { g.section(name) == SectionType(name) }

    ghost predicate Laws() { AllOf()(this) }

    static ghost function AllOf(): Judge -> bool { (j: Judge) => j.AllLaws() }

    ghost predicate AllLaws() {
      && (forall f, t, off :: ItemLaw(f, t, off)) && (forall f, lo, hi :: ValueLaw(f, lo, hi))
      && (forall t :: NameLaw(t)) && (forall t, off :: NetworkLaw(t, off))
      && (forall f, t :: SingleLaw(f, t)) && (forall t, off :: EndpointLaw(t, off))
      && (forall name :: FieldLaw(name)) && (forall name :: SectionLaw(name))
      && (forall t, s :: FitLaw(t, s))
      && (forall spans, x :: SnocLaw(spans, x))
      && (forall spans, lo, hi :: SkipLaw(spans, lo, hi))
      && (forall spans, hi :: RetypeLaw(spans, hi))
    }
  }

  ghost function TilingJudge(b: string): Judge {
    Judge(b, (t, s) => Fits(t, s), (spans, hi) => Good(b, spans, hi),
          ConfigItem(), ConfigParts(), WgQuick())
  }

  lemma TilingLaws(b: string)
    ensures TilingJudge(b).Laws()
  {
    var j := TilingJudge(b);
    forall spans, x ensures j.SnocLaw(spans, x) {
      if Good(b, spans, x.s) && x.len > 0 && x.s + x.len < |b| && Fits(x.t, b[x.s..x.s + x.len]) { GoodSnoc(b, spans, x); }
    }
    forall spans, lo, hi ensures j.SkipLaw(spans, lo, hi) {
      if Good(b, spans, lo) && 0 <= lo <= hi <= |b| && Gap(b, lo, hi) { GoodOn(b, spans, lo, hi); }
    }
    forall spans, hi ensures j.RetypeLaw(spans, hi) {
      if Good(b, spans, hi) && spans != [] { GoodRetype(b, spans, hi); }
    }
  }

  method LookUpWireGuardField(s: StringSpan) returns (f: Field)
    requires s.Valid()
    ensures f == WireGuardField(s.Str())
  {
    var same: bool;
    same := s.IsCaselessSame("PrivateKey");
    if same { return PrivateKey; }
    same := s.IsCaselessSame("ListenPort");
    if same { return ListenPort; }
    same := s.IsCaselessSame("Address");
    if same { return Address; }
    same := s.IsCaselessSame("DNS");
    if same { return DNS; }
    same := s.IsCaselessSame("MTU");
    if same { return MTU; }
    same := s.IsCaselessSame("Table");
    if same { return Table; }
    same := s.IsCaselessSame("PublicKey");
    if same { return PublicKey; }
    same := s.IsCaselessSame("PresharedKey");
    if same { return PresharedKey; }
    same := s.IsCaselessSame("AllowedIPs");
    if same { return AllowedIPs; }
    same := s.IsCaselessSame("Endpoint");
    if same { return Endpoint; }
    same := s.IsCaselessSame("PersistentKeepalive");
    if same { return PersistentKeepalive; }
    same := s.IsCaselessSame("PreUp");
    if same { return PreUp; }
    same := s.IsCaselessSame("PostUp");
    if same { return PostUp; }
    same := s.IsCaselessSame("PreDown");
    if same { return PreDown; }
    same := s.IsCaselessSame("PostDown");
    if same { return PostDown; }
    return Invalid;
  }

  method LookUpObfuscationField(s: StringSpan) returns (f: Field)
    requires s.Valid()
    ensures f == ObfuscationField(s.Str())
  {
    var same: bool;
    same := s.IsCaselessSame("Jc");
    if same { return Junk(JunkCount); }
    same := s.IsCaselessSame("Jmin");
    if same { return Junk(JunkMin); }
    same := s.IsCaselessSame("Jmax");
    if same { return Junk(JunkMax); }
    same := s.IsCaselessSame("S1");
    if same { return Padding(1); }
    same := s.IsCaselessSame("S2");
    if same { return Padding(2); }
    same := s.IsCaselessSame("S3");
    if same { return Padding(3); }
    same := s.IsCaselessSame("S4");
    if same { return Padding(4); }
    same := s.IsCaselessSame("H1");
    if same { return Header(1); }
    same := s.IsCaselessSame("H2");
    if same { return Header(2); }
    same := s.IsCaselessSame("H3");
    if same { return Header(3); }
    same := s.IsCaselessSame("H4");
    if same { return Header(4); }
    same := s.IsCaselessSame("I1");
    if same { return Init(1); }
    same := s.IsCaselessSame("I2");
    if same { return Init(2); }
    same := s.IsCaselessSame("I3");
    if same { return Init(3); }
    same := s.IsCaselessSame("I4");
    if same { return Init(4); }
    same := s.IsCaselessSame("I5");
    if same { return Init(5); }
    return Invalid;
  }

  /** The cases of the source's switch, in its order. */
  method LookUpField(s: StringSpan) returns (f: Field)
    requires s.Valid()
    ensures f == FieldOf(s.Str())
  {
    f := LookUpWireGuardField(s);
    if f == Invalid { f := LookUpObfuscationField(s); }
  }

  method LookUpSection(s: StringSpan) returns (f: Field)
    requires s.Valid()
    ensures f == SectionType(s.Str())
  {
    var same := s.IsCaselessSame("[Peer]");
    if same { return PeerSection; }
    same := s.IsCaselessSame("[Interface]");
    return if same then InterfaceSection else Invalid;
  }

  method IsValidHeader(s: StringSpan) returns (ok: bool)
    requires s.Valid()
    ensures ok <==> HeaderText(s.Str())
  {
    ghost var t := s.Str();
    for i := 0 to s.len
      invariant '-' !in t[..i]
    {
      if s.At(i) == '-' {
        IndexOfUnique(t, '-', i);
        assert t[0..i] == t[..i] && t[i + 1..s.len] == t[i + 1..];
        var first := s.IsValidUintIn(0, i, 0, 0x7FFF_FFFF);
        var second := s.IsValidUintIn(i + 1, s.len, 0, 0x7FFF_FFFF);
        return first && second;
      }
    }
    assert t[..s.len] == t;
    IndexOfUnique(t, '-', s.len);
    ok := s.IsValidUint(0, 0x7FFF_FFFF);
  }

  method IsValidTable(s: StringSpan) returns (ok: bool)
    requires s.Valid()
    ensures ok <==> TableText(s.Str())
  {
    var off := s.IsSame("off");
    var auto := s.IsSame("auto");
    var main := s.IsSame("main");
    var number := s.IsValidUint(0, 0xFFFF_FFFF);
    return off || auto || main || number;
  }

  /** The validity check of a single-valued field. */
  method Validate(f: Field, s: StringSpan) returns (t: Highlight)
    requires s.Valid() && SingleValued(f)
    ensures t == ValueHighlight(f, s.Str())
  {
    var ok: bool;
    match f {
      case PrivateKey => ok := s.IsValidKey(); t := Validated(ok, HPrivateKey);
      case PublicKey => ok := s.IsValidKey(); t := Validated(ok, HPublicKey);
      case PresharedKey => ok := s.IsValidKey(); t := Validated(ok, HPresharedKey);
      case MTU => ok := s.IsValidUint(576, 65535); t := Validated(ok, HMTU);
      case Table => ok := IsValidTable(s); t := Validated(ok, HTable);
      case PreUp => t := Validated(s.len != 0, HCmd);
      case PostUp => t := Validated(s.len != 0, HCmd);
      case PreDown => t := Validated(s.len != 0, HCmd);
      case PostDown => t := Validated(s.len != 0, HCmd);
      case ListenPort => ok := s.IsValidPort(); t := Validated(ok, HPort);
      case PersistentKeepalive =>
        var off := s.IsSame("off");
        ok := s.IsValidUint(0, 65535);
        t := Validated(off || ok, HKeepalive);
      case Junk(k) => ok := s.IsValidUint(0, 65535); t := Validated(ok, HJunk(k));
      case Padding(n) => ok := s.IsValidUint(0, 65535); t := Validated(ok, HPadding(n));
      case Header(n) => ok := IsValidHeader(s); t := Validated(ok, HHeader(n));
      case Init(n) => t := Validated(s.len != 0, HInit(n));
      case _ => t := HError;
    }
  }

  lemma ThreeParts(t: string, k: nat)
    requires k < |t|
    ensures t[0..k] == t[..k] && t[k..k + 1] == [t[k]] && t[k + 1..|t|] == t[k + 1..]
  {}

  lemma AppendedThree<T>(s: seq<T>, x: T, y: T, z: T)
    ensures ((s + [x]) + [y]) + [z] == s + [x, y, z]
  {}

  class HighlightSpanArray {
    var spans: seq<HighlightSpan>
    ghost const j: Judge

    constructor (ghost j: Judge)
      ensures spans == [] && this.j == j
    {
      spans := [];
      this.j := j;
    }

    /** A span of the judged buffer, where the spans so far end. */
    ghost predicate Ready(s: StringSpan)
      reads this
    {
      j.Laws() && s.Valid() && s.b == j.b && j.good(spans, s.off)
    }

    method Append(s: StringSpan, t: Highlight)
      requires Ready(s) && j.fits(t, s.Str())
      modifies this
      ensures spans == old(spans) + if s.len == 0 then [] else [HighlightSpan(t, s.off, s.len)]
      ensures j.good(spans, s.off + s.len)
    {
      if s.len == 0 { return; }
      assert j.SnocLaw(spans, HighlightSpan(t, s.off, s.len));
      spans := spans + [HighlightSpan(t, s.off, s.len)];
    }

    method AppendError(s: StringSpan)
      requires Ready(s)
      modifies this
      ensures spans == old(spans) + if s.len == 0 then [] else [HighlightSpan(HError, s.off, s.len)]
      ensures j.good(spans, s.off + s.len)
    {
      assert j.FitLaw(HError, s.Str());
      Append(s, HError);
    }

    method HighlightMultivalueValue(s: StringSpan, f: Field)
      requires Ready(s) && s.Next() != ':'
      modifies this
      ensures j.good(spans, s.off + s.len)
      ensures spans == old(spans) + if s.len == 0 then [] else j.item(f, s.Str(), s.off)
    {
      assert j.ItemLaw(f, s.Str(), s.off);
      if f == DNS {
        HighlightName(s);
      } else if f == Address || f == AllowedIPs {
        HighlightNetwork(s);
      } else {
        AppendError(s);
      }
    }

    method HighlightName(s: StringSpan)
      requires Ready(s) && s.Next() != ':'
      modifies this
      ensures j.good(spans, s.off + s.len)
      ensures spans == old(spans) + if s.len == 0 then [] else [HighlightSpan(j.parts.name(s.Str()), s.off, s.len)]
    {
      var t := FindName(s);
      Append(s, t);
    }

    method FindName(s: StringSpan) returns (t: Highlight)
      requires Ready(s) && s.Next() != ':'
      ensures t == j.parts.name(s.Str()) && j.fits(t, s.Str())
    {
      var v4 := s.IsValidIPv4();
      var v6 := s.IsValidIPv6();
      var host := s.IsValidHostname();
      t := if v4 || v6 then HIP else if host then HHost else HError;
      NameIsFound(j, s.Str(), t);
    }

    /** The part before position k, the delimiter at k and the part after it. */
    method AppendThree(s: StringSpan, k: nat, before: Highlight, after: Highlight, ghost result: seq<HighlightSpan>)
      requires Ready(s) && j.Cut(result, s.Str(), s.off, k, before, after)
      modifies this
      ensures j.good(spans, s.off + s.len) && spans == old(spans) + result
    {
      var left, mid, right := s.Sub(0, k), s.Sub(k, 1), s.Sub(k + 1, s.len - k - 1);
      ThreeParts(s.Str(), k);
      Append(left, before);
      Append(mid, HDelimiter);
      Append(right, after);
      AppendedThree(old(spans), HighlightSpan(before, s.off, k), HighlightSpan(HDelimiter, s.off + k, 1),
                    HighlightSpan(after, s.off + k + 1, s.len - k - 1));
    }

    static method FindSlash(s: StringSpan) returns (slash: nat)
      requires s.Valid()
      ensures slash <= s.len && '/' !in s.Str()[..slash] && (slash < s.len ==> s.Str()[slash] == '/')
    {
      slash := 0;
      while slash < s.len
        invariant slash <= s.len && '/' !in s.Str()[..slash]
      {
        if s.At(slash) == '/' { break; }
        slash := slash + 1;
      }
    }

    static method FindColon(s: StringSpan, ghost c: nat) returns (colon: nat)
      requires s.Valid() && c < s.len && s.Str()[c] == ':' && ':' !in s.Str()[c + 1..]
      ensures colon == c
    {
      colon := s.len;
      while colon > 0
        invariant c < colon <= s.len
      {
        colon := colon - 1;
        assert colon > c ==> s.Str()[c + 1..][colon - c - 1] == s.Str()[colon];
        if s.At(colon) == ':' { break; }
      }
    }

    method HighlightNetwork(s: StringSpan)
      requires Ready(s) && s.Next() != ':'
      modifies this
      ensures j.good(spans, s.off + s.len)
      ensures spans == old(spans) + if s.len == 0 then [] else j.parts.network(s.Str(), s.off)
    {
      var ok, slash := FindNetwork(s);
      if !ok {
        AppendError(s);
      } else if slash == s.len {
        Append(s, HIP);
      } else {
        AppendThree(s, slash, HIP, HCidr, j.parts.network(s.Str(), s.off));
      }
    }

    method FindNetwork(s: StringSpan) returns (ok: bool, slash: nat)
      requires Ready(s) && s.Next() != ':'
      ensures NetworkFound(j, s.Str(), s.off, ok, slash)
    {
      slash := 0;
      ok := s.IsValidNetwork();
      if ok { slash := FindSlash(s); }
      NetworkIsFound(j, s.Str(), s.off, ok, slash);
    }

    /** One item and the comma after it, with blanks between the two. */
    method EndItem(item: StringSpan, comma: StringSpan, f: Field)
      requires Ready(item)
      requires comma.Valid() && item.b == comma.b && comma.len == 1 && comma.Str()[0] == ','
      requires item.off + item.len <= comma.off && Gap(item.b, item.off + item.len, comma.off)
      modifies this
      ensures j.good(spans, comma.off + 1)
      ensures spans == old(spans) + ItemPart(j.item, f, item, item.len) + [HighlightSpan(HDelimiter, comma.off, 1)]
    {
      assert item.Next() == ',' || Blank(item.Next());
      HighlightMultivalueValue(item, f);
      assert j.SkipLaw(spans, item.off + item.len, comma.off);
      assert j.FitLaw(HDelimiter, ",") && comma.Str() == ",";
      Append(comma, HDelimiter);
    }

    /** The item that ends the list, with blanks up to end. */
    method LastItem(item: StringSpan, f: Field, ghost end: int)
      requires Ready(item) && item.Next() != ':' && spans != []
      requires item.off + item.len <= end <= |item.b| && Gap(item.b, item.off + item.len, end)
      modifies this
      ensures j.good(spans, end)
      ensures item.len > 0 ==> spans == old(spans) + j.item(f, item.Str(), item.off)
      ensures item.len == 0 ==>
                spans == if old(spans)[|old(spans)| - 1].t == HDelimiter then Retyped(old(spans)) else old(spans)
    {
      if item.len != 0 {
        HighlightMultivalueValue(item, f);
      } else if spans[|spans| - 1].t == HDelimiter {
        assert j.RetypeLaw(spans, item.off);
        spans := Retyped(spans);
      }
      assert j.SkipLaw(spans, item.off + item.len, end);
    }

    /** A list: a value that starts and ends with no blank. */
    method HighlightMultivalue(s: StringSpan, f: Field)
      requires Ready(s) && s.Next() != ':' && spans != [] && Trimmed(s)
      modifies this
      ensures j.good(spans, s.off + s.len)
      ensures spans == old(spans) + ListSpans(j.item, s.b, f, s.off, s.off + s.len)
    {
      ghost var o := ListOracle(j.item, spans, s, f);
      ghost var w := ItemWalkerFor(j, o, s, f);
      FirstItem(w, spans);
      WalkItems(s, f, w);
    }

    /** The walk over the items. */
    method WalkItems(s: StringSpan, f: Field, ghost w: ItemWalker)
      requires s.Valid() && w.Laws() && w.For(j, s, f)
      requires w.stands(spans, ItemPlace(0, s.off, StringSpan(s.b, s.off, 0), 0))
      modifies this
      ensures j.good(spans, s.off + s.len) && spans == w.o.result
    {
      var current := StringSpan(s.b, s.off, 0);
      var lenAtLastSpace: nat := 0;
      ghost var c := s.off;
      for i := 0 to s.len
        invariant w.stands(spans, ItemPlace(i, c, current, lenAtLastSpace))
      {
        ItemGoesOn(w, spans, ItemPlace(i, c, current, lenAtLastSpace));
        if s.At(i) == ',' {
          CommaItem(s, f, i, c, current, lenAtLastSpace, w);
          lenAtLastSpace := 0;
          current := StringSpan(s.b, s.off + i + 1, 0);
          c := s.off + i + 1;
        } else if s.At(i) == ' ' || s.At(i) == '\t' {
          if current.len == 0 {
            current := current.(off := current.off + 1);
          } else {
            current := current.(len := current.len + 1);
          }
        } else {
          current := current.(len := current.len + 1);
          lenAtLastSpace := current.len;
        }
      }
      EndOfList(s, f, c, current, lenAtLastSpace, w);
    }

    method CommaItem(s: StringSpan, f: Field, i: nat, ghost c: int, current: StringSpan, n: nat, ghost w: ItemWalker)
      requires s.Valid() && w.Laws() && w.For(j, s, f) && w.stands(spans, ItemPlace(i, c, current, n))
      requires i < s.len && s.b[s.off + i] == ','
      modifies this
      ensures w.stands(spans, ItemPlace(i + 1, s.off + i + 1, StringSpan(s.b, s.off + i + 1, 0), 0))
    {
      CommaDone(w, spans, i, c, current, n);
      EndItem(current.(len := n), s.Sub(i, 1), f);
      NextItem(w, spans, i);
    }

    method EndOfList(s: StringSpan, f: Field, ghost c: int, current: StringSpan, lenAtLastSpace: nat, ghost w: ItemWalker)
      requires s.Valid() && w.Laws() && w.For(j, s, f) && w.stands(spans, ItemPlace(s.len, c, current, lenAtLastSpace))
      modifies this
      ensures j.good(spans, s.off + s.len) && spans == w.o.result
    {
      ListDone(w, spans, c, current, lenAtLastSpace);
      LastItem(current.(len := lenAtLastSpace), f, s.off + s.len);
    }

    method HighlightValue(s: StringSpan, f: Field)
      requires Ready(s) && s.Next() != ':' && spans != [] && Trimmed(s)
      modifies this
      ensures j.good(spans, s.off + s.len)
      ensures spans == old(spans) + j.g.value(s.b, f, s.off, s.off + s.len)
    {
      assert j.ValueLaw(f, s.off, s.off + s.len);
      match f {
        case Endpoint => HighlightEndpoint(s);
        case Address => HighlightMultivalue(s, f);
        case DNS => HighlightMultivalue(s, f);
        case AllowedIPs => HighlightMultivalue(s, f);
        case _ => HighlightSingle(s, f);
      }
    }

    method HighlightSingle(s: StringSpan, f: Field)
      requires Ready(s) && s.len > 0 && SingleValued(f)
      modifies this
      ensures j.good(spans, s.off + s.len)
      ensures spans == old(spans) + [HighlightSpan(j.parts.single(f, s.Str()), s.off, s.len)]
    {
      var t := FindSingle(s, f);
      Append(s, t);
    }

    method FindSingle(s: StringSpan, f: Field) returns (t: Highlight)
      requires Ready(s) && SingleValued(f)
      ensures t == j.parts.single(f, s.Str()) && j.fits(t, s.Str())
    {
      t := Validate(f, s);
      ValueHighlightFits(f, s.Str());
      assert j.SingleLaw(f, s.Str()) && j.FitLaw(t, s.Str());
    }

    method HighlightEndpoint(s: StringSpan)
      requires Ready(s) && s.len > 0
      modifies this
      ensures j.good(spans, s.off + s.len) && spans == old(spans) + j.parts.endpoint(s.Str(), s.off)
    {
      var ok, colon := FindEndpoint(s);
      if !ok {
        AppendError(s);
      } else {
        AppendThree(s, colon, HHost, HPort, j.parts.endpoint(s.Str(), s.off));
      }
    }

    method FindEndpoint(s: StringSpan) returns (ok: bool, colon: nat)
      requires Ready(s)
      ensures EndpointFound(j, s.Str(), s.off, ok, colon)
    {
      colon := 0;
      ok := s.IsValidEndpoint();
      ghost var c := EndpointIsFound(j, s.Str(), s.off, ok);
      if ok { colon := FindColon(s, c); }
    }

    /** The end of a line, or of the code before a comment, at index i. */
    method EndOfLine(i: nat, state: State, current: StringSpan, lenAtLastSpace: nat, equals: nat, f: Field, section: Field)
      returns (section': Field)
      requires j.Laws() && Walk(j, spans, i, state, current, lenAtLastSpace, equals)
      requires current.b[i] != ':' && current.b[|current.b| - 1] == '\0'
      modifies this
      ensures j.good(spans, i)
      ensures section' == EndSection(j.g, state, current, lenAtLastSpace, section)
      ensures spans == old(spans) + EndSpans(j.g, state, current, lenAtLastSpace, equals, f)
    {
      section' := section;
      var text := current.(len := lenAtLastSpace);
      match state {
        case OnNone =>
        case OnKey =>
          AppendError(text);
          assert j.SkipLaw(spans, text.off + text.len, i);
        case OnValue =>
          EndOfValue(i, current, lenAtLastSpace, equals, f);
        case OnSection =>
          section' := EndOfSection(text);
          assert j.SkipLaw(spans, text.off + text.len, i);
        case OnComment =>
          assert j.FitLaw(HComment, current.Str());
          Append(current, HComment);
      }
    }

    method EndOfSection(text: StringSpan) returns (section: Field)
      requires Ready(text) && text.len > 0
      modifies this
      ensures j.good(spans, text.off + text.len) && section == j.g.section(text.Str())
      ensures spans == old(spans) + [HighlightSpan(SectionHighlight(section), text.off, text.len)]
    {
      assert j.SectionLaw(text.Str());
      section := LookUpSection(text);
      var t := Validated(section != Invalid, HSection);
      assert j.FitLaw(t, text.Str());
      Append(text, t);
    }

    /** The equals sign and the value after it. */
    method EndOfValue(i: nat, current: StringSpan, lenAtLastSpace: nat, equals: nat, f: Field)
      requires j.Laws() && Walk(j, spans, i, OnValue, current, lenAtLastSpace, equals)
      requires current.b[i] != ':' && current.b[|current.b| - 1] == '\0'
      modifies this
      ensures j.good(spans, i)
      ensures spans == old(spans) + EndSpans(j.g, OnValue, current, lenAtLastSpace, equals, f)
    {
      var sign := StringSpan(current.b, equals, 1);
      assert sign.Str() == "=";
      if current.len != 0 {
        EndOfText(i, sign, current, lenAtLastSpace, f);
      } else {
        AppendError(sign);
        assert j.SkipLaw(spans, equals + 1, i);
      }
    }

    method EndOfText(i: nat, sign: StringSpan, current: StringSpan, lenAtLastSpace: nat, f: Field)
      requires Ready(sign) && sign.Str() == "=" && current.b == j.b && sign.off + 1 <= current.off
      requires current.len > 0 && current.off + current.len == i < |j.b| && Inked(j.b, current, lenAtLastSpace)
      requires Gap(j.b, sign.off + 1, current.off) && j.b[i] != ':'
      modifies this
      ensures j.good(spans, i)
      ensures spans == old(spans) + ([HighlightSpan(HDelimiter, sign.off, 1)]
                                     + j.g.value(j.b, f, current.off, current.off + lenAtLastSpace))
    {
      var text := current.(len := lenAtLastSpace);
      assert j.FitLaw(HDelimiter, "=");
      Append(sign, HDelimiter);
      assert j.SkipLaw(spans, sign.off + 1, current.off);
      assert lenAtLastSpace < current.len ==> Blank(text.Next());
      HighlightValue(text, f);
      assert j.SkipLaw(spans, text.off + text.len, i);
    }

    /** The key in front of an equals sign at index i. */
    method EndOfKey(i: nat, current: StringSpan, lenAtLastSpace: nat, section: Field) returns (f: Field)
      requires j.Laws() && Walk(j, spans, i, OnKey, current, lenAtLastSpace, 0)
      requires i < |current.b| - 1 && current.b[|current.b| - 1] == '\0'
      modifies this
      ensures j.good(spans, i)
      ensures f == j.g.field(current.b[current.off..current.off + lenAtLastSpace])
      ensures spans == old(spans) + [HighlightSpan(KeyHighlight(f, section), current.off, lenAtLastSpace)]
    {
      var text := current.(len := lenAtLastSpace);
      f := HighlightKey(text, section);
      assert j.SkipLaw(spans, text.off + text.len, i);
    }

    method HighlightKey(text: StringSpan, section: Field) returns (f: Field)
      requires Ready(text) && text.len > 0
      modifies this
      ensures j.good(spans, text.off + text.len) && f == j.g.field(text.Str())
      ensures spans == old(spans) + [HighlightSpan(KeyHighlight(f, section), text.off, text.len)]
    {
      f := FindField(text);
      var fieldSection := SectionForField(f);
      var t := if fieldSection == Invalid || f == Invalid || fieldSection != section then HError else HField;
      assert j.FitLaw(HError, text.Str());
      Append(text, t);
    }

    method FindField(text: StringSpan) returns (f: Field)
      requires Ready(text)
      ensures f == j.g.field(text.Str()) && (f != Invalid ==> j.fits(HField, text.Str()))
    {
      ghost var name := text.Str();
      assert j.FieldLaw(name) && j.FitLaw(HField, name);
      f := LookUpField(text);
    }

    /** The end of the code of a line, when the spans in front of it are right. */
    method FinishCode(i: nat, state: State, current: StringSpan, lenAtLastSpace: nat, equals: nat, f: Field, section: Field,
        ghost o: TextOracle, ghost l: Line) returns (section': Field)
      requires Stands(j, o, spans, i, state, current, lenAtLastSpace, equals, f, section, l)
      requires state != OnComment && j.b[i] != ':'
      modifies this
      ensures j.good(spans, i) && o.code(spans, section', l.lo, i)
    {
      assert o.EndCodeLaw(j.g, j.b, l, i, state, current, lenAtLastSpace, equals, f);
      section' := EndOfLine(i, state, current, lenAtLastSpace, equals, f, section);
    }

    /** The end of a line, or of its code: the walk goes on behind the line end,
        in the comment, or not at all. */
    method FinishLine(i: nat, state: State, current: StringSpan, lenAtLastSpace: nat, equals: nat, f: Field,
        section: Field, ghost w: Walker, ghost l: Line) returns (section': Field)
      requires w.Laws() && w.j == j && w.stands(spans, Place(i, state, current, lenAtLastSpace, equals, f, section, l))
      requires i < |j.b| && (j.b[i] == '\n' || (state != OnComment && j.b[i] == '#') || i == |j.b| - 1)
      modifies this
      ensures i == |j.b| - 1 ==> j.good(spans, i) && spans == w.o.result
      ensures i < |j.b| - 1 && j.b[i] == '\n' ==>
                w.stands(spans, Place(i + 1, OnNone, StringSpan(j.b, i + 1, 0), 0, equals, Invalid, section',
                                      Line(i + 1, 0, 0, spans, section')))
      ensures i < |j.b| - 1 && j.b[i] == '#' ==>
                w.stands(spans, Place(i + 1, OnComment, StringSpan(j.b, i, 1), 0, equals, Invalid, section', l))
    {
      assert w.Law(spans, Place(i, state, current, lenAtLastSpace, equals, f, section, l));
      LineBounds(j, w.o, spans, i, state, current, lenAtLastSpace, equals, f, section, l);
      section' := CloseLine(i, state, current, lenAtLastSpace, equals, f, section, w.o, l);
      if i < |j.b| - 1 {
        if j.b[i] == '\n' {
          NewLine(j, w.o, spans, i, equals, section');
          assert w.Law(spans, Place(i + 1, OnNone, StringSpan(j.b, i + 1, 0), 0, equals, Invalid, section',
                                    Line(i + 1, 0, 0, spans, section')));
        } else {
          NewComment(j, w.o, spans, i, equals, section', l);
          assert w.Law(spans, Place(i + 1, OnComment, StringSpan(j.b, i, 1), 0, equals, Invalid, section', l));
        }
      }
    }

    method CloseLine(i: nat, state: State, current: StringSpan, lenAtLastSpace: nat, equals: nat, f: Field, section: Field,
        ghost o: TextOracle, ghost l: Line) returns (section': Field)
      requires Stands(j, o, spans, i, state, current, lenAtLastSpace, equals, f, section, l)
      requires j.b[i] == '\n' || (state != OnComment && j.b[i] == '#') || i == |j.b| - 1
      modifies this
      ensures j.good(spans, i)
      ensures j.b[i] == '\n' ==> o.line(spans, section', i + 1)
      ensures i == |j.b| - 1 ==> spans == o.result
      ensures state != OnComment ==> o.code(spans, section', l.lo, i)
    {
      LineBounds(j, o, spans, i, state, current, lenAtLastSpace, equals, f, section, l);
      if state == OnComment {
        assert o.LineEndLaw(j.b, spans, section, l.lo, current.off, i);
        section' := EndOfLine(i, state, current, lenAtLastSpace, equals, f, section);
      } else {
        section' := FinishCode(i, state, current, lenAtLastSpace, equals, f, section, o, l);
        assert o.LineEndLaw(j.b, spans, section', l.lo, i, i);
        assert spans + [] == spans;
      }
    }

    /** The key of a setting, and the walk behind the equals sign at index i. */
    method FinishKey(i: nat, current: StringSpan, lenAtLastSpace: nat, ghost equals: nat, ghost was: Field, section: Field,
        ghost w: Walker, ghost l: Line) returns (f: Field, ghost l': Line)
      requires w.Laws() && w.j == j && w.stands(spans, Place(i, OnKey, current, lenAtLastSpace, equals, was, section, l))
      requires i < |j.b| - 1 && j.b[i] == '='
      modifies this
      ensures w.stands(spans, Place(i + 1, OnValue, StringSpan(j.b, i + 1, 0), lenAtLastSpace, i, f, section, l'))
    {
      assert w.Law(spans, Place(i, OnKey, current, lenAtLastSpace, equals, was, section, l));
      EqualsChar(j, w.o, spans, i, current, lenAtLastSpace, equals, was, section, l);
      l' := l.(a := current.off, k := current.off + lenAtLastSpace);
      f := EndOfKey(i, current, lenAtLastSpace, section);
      KeyDone(j, w.o, spans, i, f, section, l');
      assert w.Law(spans, Place(i + 1, OnValue, StringSpan(j.b, i + 1, 0), lenAtLastSpace, i, f, section, l'));
    }
  }

  /** A stretch of one line, with no blank at either end. */
  predicate Trimmed(s: StringSpan)
    requires s.Valid()
  {
    s.len > 0 && !Blank(s.b[s.off]) && !Blank(s.b[s.off + s.len - 1]) && Without(s.b, '\n', s.off, s.off + s.len)
  }

  /** Where the walk over the items stands before index i of the value: the
      current item starts at c, behind the last comma, and its first and its last
      non-blank are known. */
  ghost predicate ItemAt(s: StringSpan, i: int, c: int, current: StringSpan, lenAtLastSpace: nat) {
    ItemsOf(s)(i, c, current, lenAtLastSpace)
  }

  ghost function ItemsOf(s: StringSpan): (int, int, StringSpan, nat) -> bool {
    (i: int, c: int, current: StringSpan, lenAtLastSpace: nat) => AtItem(s, i, c, current, lenAtLastSpace)
  }

  ghost predicate AtItem(s: StringSpan, i: int, c: int, current: StringSpan, lenAtLastSpace: nat) {
    && s.Valid() && 0 <= i <= s.len && s.off <= c <= current.off
    && current.b == s.b && current.off + current.len == s.off + i
    && (s.off < c ==> s.b[c - 1] == ',') && Without(s.b, ',', c, s.off + i)
    && lenAtLastSpace <= current.len && (current.len > 0 ==> lenAtLastSpace > 0)
    && Gap(s.b, c, current.off) && Gap(s.b, current.off + lenAtLastSpace, s.off + i)
    && (lenAtLastSpace > 0 ==> !Blank(s.b[current.off]) && !Blank(s.b[current.off + lenAtLastSpace - 1]))
  }

  /** A comma at hi, and the last one in front of it right before c. */
  predicate CommaAt(s: StringSpan, c: int, hi: int) {
    s.Valid() && s.off <= c <= hi < s.off + s.len && (s.off < c ==> s.b[c - 1] == ',') && Without(s.b, ',', c, hi)
    && s.b[hi] == ','
  }

  lemma CommaHere(s: StringSpan, i: int, c: int, current: StringSpan, lenAtLastSpace: nat)
    requires ItemAt(s, i, c, current, lenAtLastSpace) && i < s.len && s.b[s.off + i] == ','
    ensures CommaAt(s, c, s.off + i)
  {}

  /** The walk over the items, its invariant to be looked into only where Law is
      asserted. */
  datatype ItemPlace = ItemPlace(i: int, c: int, current: StringSpan, lenAtLastSpace: nat)

  datatype ItemWalker = ItemWalker(j: Judge, o: Oracle, s: StringSpan, f: Field,
                                   stands: (seq<HighlightSpan>, ItemPlace) -> bool) {
    ghost predicate Law(spans: seq<HighlightSpan>, p: ItemPlace) {
      stands(spans, p) <==> ItemStands(j, o, s, f, spans, p)
    }

    ghost predicate Laws() { forall spans, p :: Law(spans, p) }

    ghost predicate For(j: Judge, s: StringSpan, f: Field) { this.j == j && this.s == s && this.f == f }
  }

  ghost predicate ItemStands(j: Judge, o: Oracle, s: StringSpan, f: Field, spans: seq<HighlightSpan>, p: ItemPlace) {
    && j.Laws() && s.Valid() && s.b == j.b && s.Next() != ':' && Trimmed(s) && o.Laws(j.item, s, f)
    && ItemAt(s, p.i, p.c, p.current, p.lenAtLastSpace)
    && j.good(spans, p.current.off) && o.done(spans, p.c) && spans != []
  }

  ghost function ItemWalkerFor(j: Judge, o: Oracle, s: StringSpan, f: Field): (w: ItemWalker)
    ensures w.Laws() && w.For(j, s, f) && w.o == o
  {
    ItemWalker(j, o, s, f, (spans: seq<HighlightSpan>, p: ItemPlace) => ItemStands(j, o, s, f, spans, p))
  }

  lemma FirstItem(w: ItemWalker, spans: seq<HighlightSpan>)
    requires w.Laws() && w.j.Laws() && w.s.Valid() && w.s.b == w.j.b && w.s.Next() != ':' && Trimmed(w.s)
    requires w.o.Laws(w.j.item, w.s, w.f) && w.j.good(spans, w.s.off) && w.o.done(spans, w.s.off) && spans != []
    ensures w.stands(spans, ItemPlace(0, w.s.off, StringSpan(w.s.b, w.s.off, 0), 0))
  {
    assert w.Law(spans, ItemPlace(0, w.s.off, StringSpan(w.s.b, w.s.off, 0), 0));
  }

  function ItemBehindBlank(p: ItemPlace): ItemPlace {
    p.(i := p.i + 1,
       current := if p.current.len == 0 then p.current.(off := p.current.off + 1) else p.current.(len := p.current.len + 1))
  }

  function ItemBehindChar(p: ItemPlace): ItemPlace {
    p.(i := p.i + 1, current := p.current.(len := p.current.len + 1), lenAtLastSpace := p.current.len + 1)
  }

  /** A byte that is no comma. */
  lemma ItemGoesOn(w: ItemWalker, spans: seq<HighlightSpan>, p: ItemPlace)
    requires w.Laws() && w.s.Valid() && w.stands(spans, p) && 0 <= p.i < w.s.len
    ensures var ch := w.s.b[w.s.off + p.i];
            ch != ',' ==> w.stands(spans, if ch == ' ' || ch == '\t' then ItemBehindBlank(p) else ItemBehindChar(p))
  {
    var ch := w.s.b[w.s.off + p.i];
    if ch == ' ' || ch == '\t' {
      ItemBlank(w, spans, p);
    } else if ch != ',' {
      ItemChar(w, spans, p);
    }
  }

  lemma ItemBlank(w: ItemWalker, spans: seq<HighlightSpan>, p: ItemPlace)
    requires w.Laws() && w.s.Valid() && w.stands(spans, p) && 0 <= p.i < w.s.len
    requires w.s.b[w.s.off + p.i] == ' ' || w.s.b[w.s.off + p.i] == '\t'
    ensures w.stands(spans, ItemBehindBlank(p))
  {
    assert w.Law(spans, p) && w.Law(spans, ItemBehindBlank(p));
    BlankItem(w.s, p.i, p.c, p.current, p.lenAtLastSpace);
    assert w.j.SkipLaw(spans, p.current.off, p.current.off + 1);
  }

  lemma ItemChar(w: ItemWalker, spans: seq<HighlightSpan>, p: ItemPlace)
    requires w.Laws() && w.s.Valid() && w.stands(spans, p) && 0 <= p.i < w.s.len
    requires w.s.b[w.s.off + p.i] != ' ' && w.s.b[w.s.off + p.i] != '\t' && w.s.b[w.s.off + p.i] != ','
    ensures w.stands(spans, ItemBehindChar(p))
  {
    assert w.Law(spans, p) && w.Law(spans, ItemBehindChar(p));
    CharItem(w.s, p.i, p.c, p.current, p.lenAtLastSpace);
  }

  /** The item in front of a comma, and what the spans will be behind it. */
  lemma CommaDone(w: ItemWalker, was: seq<HighlightSpan>, i: nat, c: int, current: StringSpan, n: nat)
    requires w.Laws() && w.s.Valid() && w.stands(was, ItemPlace(i, c, current, n)) && i < w.s.len && w.s.b[w.s.off + i] == ','
    ensures w.j.Laws() && w.s.b == w.j.b && w.j.good(was, current.off)
    ensures current.b == w.s.b && n <= current.len && current.off + current.len == w.s.off + i
    ensures Gap(w.s.b, current.off + n, w.s.off + i)
    ensures var now := was + ItemPart(w.j.item, w.f, current.(len := n), n) + [HighlightSpan(HDelimiter, w.s.off + i, 1)];
            BehindComma(w, now, i)
  {
    assert w.Law(was, ItemPlace(i, c, current, n));
    CommaHere(w.s, i, c, current, n);
    assert w.o.PartLaw(w.j.item, w.s, w.f, i, c, current, n) && w.o.CommaLaw(w.s, was, c, w.s.off + i);
    assert ItemPart(w.j.item, w.f, current.(len := n), n) == ItemPart(w.j.item, w.f, current, n);
  }

  /** All but the tiling of the place behind a comma at i. */
  ghost predicate BehindComma(w: ItemWalker, spans: seq<HighlightSpan>, i: nat) {
    && w.j.Laws() && w.s.Valid() && w.s.b == w.j.b && w.s.Next() != ':' && Trimmed(w.s) && w.o.Laws(w.j.item, w.s, w.f)
    && i < w.s.len && w.s.b[w.s.off + i] == ',' && w.o.done(spans, w.s.off + i + 1) && spans != []
  }

  lemma NextItem(w: ItemWalker, spans: seq<HighlightSpan>, i: nat)
    requires w.Laws() && BehindComma(w, spans, i) && w.j.good(spans, w.s.off + i + 1)
    ensures w.stands(spans, ItemPlace(i + 1, w.s.off + i + 1, StringSpan(w.s.b, w.s.off + i + 1, 0), 0))
  {
    assert w.Law(spans, ItemPlace(i + 1, w.s.off + i + 1, StringSpan(w.s.b, w.s.off + i + 1, 0), 0));
  }

  /** The item at the end of the list, and what the spans will be then. */
  lemma ListDone(w: ItemWalker, was: seq<HighlightSpan>, c: int, current: StringSpan, n: nat)
    requires w.Laws() && w.s.Valid() && w.stands(was, ItemPlace(w.s.len, c, current, n))
    ensures w.j.Laws() && w.s.b == w.j.b && w.j.good(was, current.off) && was != []
    ensures current.b == w.s.b && n <= current.len && current.off + current.len == w.s.off + w.s.len
    ensures Gap(w.s.b, current.off + n, w.s.off + w.s.len) && w.s.b[current.off + n] != ':'
    ensures if n > 0 then was + w.j.item(w.f, Slice(w.s.b, current.off, n), current.off) == w.o.result
            else was[|was| - 1].t == HDelimiter && Retyped(was) == w.o.result
  {
    assert w.Law(was, ItemPlace(w.s.len, c, current, n));
    assert w.o.EndLaw(w.j.item, w.s, w.f, was, c, current, n);
  }

  lemma BlankItem(s: StringSpan, i: nat, c: int, current: StringSpan, lenAtLastSpace: nat)
    requires ItemAt(s, i, c, current, lenAtLastSpace) && i < s.len && Blank(s.b[s.off + i])
    ensures ItemAt(s, i + 1, c, if current.len == 0 then current.(off := current.off + 1) else current.(len := current.len + 1),
                   lenAtLastSpace)
  {}

  lemma CharItem(s: StringSpan, i: nat, c: int, current: StringSpan, lenAtLastSpace: nat)
    requires ItemAt(s, i, c, current, lenAtLastSpace) && i < s.len && Without(s.b, '\n', s.off, s.off + s.len)
    requires s.b[s.off + i] != ' ' && s.b[s.off + i] != '\t' && s.b[s.off + i] != ','
    ensures ItemAt(s, i + 1, c, current.(len := current.len + 1), current.len + 1)
  {}

  function Slice(b: string, off: nat, len: nat): string {
    if off + len <= |b| then b[off..off + len] else ""
  }

  function ItemPart(item: (Field, string, nat) -> seq<HighlightSpan>, f: Field, current: StringSpan, len: nat): seq<HighlightSpan> {
    if len == 0 then [] else item(f, Slice(current.b, current.off, len), current.off)
  }

  /** What the spans should be behind each comma, of each item and at the end of
      the list. */
  datatype Oracle = Oracle(done: (seq<HighlightSpan>, int) -> bool, part: (int, int) -> seq<HighlightSpan>,
                           result: seq<HighlightSpan>) {
    ghost predicate PartLaw(item: (Field, string, nat) -> seq<HighlightSpan>, s: StringSpan, f: Field,
        i: nat, c: int, current: StringSpan, lenAtLastSpace: nat)
    {
      ItemAt(s, i, c, current, lenAtLastSpace) ==> part(c, s.off + i) == ItemPart(item, f, current, lenAtLastSpace)
    }

    ghost predicate CommaLaw(s: StringSpan, was: seq<HighlightSpan>, c: int, hi: int) {
      CommaAt(s, c, hi) && done(was, c) ==> done(was + part(c, hi) + [HighlightSpan(HDelimiter, hi, 1)], hi + 1)
    }

    ghost predicate EndLaw(item: (Field, string, nat) -> seq<HighlightSpan>, s: StringSpan, f: Field,
        was: seq<HighlightSpan>, c: int, current: StringSpan, lenAtLastSpace: nat)
    {
      ItemAt(s, s.len, c, current, lenAtLastSpace) && done(was, c) ==>
        if lenAtLastSpace > 0 then was + ItemPart(item, f, current, lenAtLastSpace) == result
        else was != [] && was[|was| - 1].t == HDelimiter && Retyped(was) == result
    }

    ghost predicate Laws(item: (Field, string, nat) -> seq<HighlightSpan>, s: StringSpan, f: Field) { AllOf(item, s, f)(this) }

    static ghost function AllOf(item: (Field, string, nat) -> seq<HighlightSpan>, s: StringSpan, f: Field): Oracle -> bool {
      (o: Oracle) => o.AllLaws(item, s, f)
    }

    ghost predicate AllLaws(item: (Field, string, nat) -> seq<HighlightSpan>, s: StringSpan, f: Field) {
      && (forall i: nat, c, current, n: nat :: PartLaw(item, s, f, i, c, current, n))
      && (forall was, c, hi :: CommaLaw(s, was, c, hi))
      && (forall was, c, current, n: nat :: EndLaw(item, s, f, was, c, current, n))
    }
  }

  ghost function MakeOracle(item: (Field, string, nat) -> seq<HighlightSpan>, before: seq<HighlightSpan>, b: string, f: Field,
      lo: int, result: seq<HighlightSpan>): Oracle
    requires 0 <= lo <= |b|
  {
    Oracle((was: seq<HighlightSpan>, c: int) => DoneUpTo(item, before, b, f, lo, was, c),
           (c: int, hi: int) => PartOf(item, b, f, c, hi), result)
  }

  function PartOf(item: (Field, string, nat) -> seq<HighlightSpan>, b: string, f: Field, c: int, hi: int): seq<HighlightSpan> {
    if 0 <= c <= hi <= |b| then ItemSpans(item, b, f, c, hi) else []
  }

  /** The spans are those of the items in front of c. */
  predicate DoneUpTo(item: (Field, string, nat) -> seq<HighlightSpan>, before: seq<HighlightSpan>, b: string, f: Field,
      lo: int, was: seq<HighlightSpan>, c: int)
  {
    0 <= lo <= c <= |b| && was == before + ItemsTo(item, b, f, lo, c)
  }

  lemma ListOracle(item: (Field, string, nat) -> seq<HighlightSpan>, before: seq<HighlightSpan>, s: StringSpan, f: Field)
    returns (o: Oracle)
    requires s.Valid() && Trimmed(s)
    ensures o.Laws(item, s, f) && o.done(before, s.off)
    ensures o.result == before + ListSpans(item, s.b, f, s.off, s.off + s.len)
  {
    var result := before + ListSpans(item, s.b, f, s.off, s.off + s.len);
    o := MakeOracle(item, before, s.b, f, s.off, result);
    assert before + [] == before;
    PartLaws(item, before, s, f, result);
    CommaLaws(item, before, s, f, result);
    EndLaws(item, before, s, f, result);
  }

  lemma PartLaws(item: (Field, string, nat) -> seq<HighlightSpan>, before: seq<HighlightSpan>, s: StringSpan, f: Field,
      result: seq<HighlightSpan>)
    requires s.Valid()
    ensures var o := MakeOracle(item, before, s.b, f, s.off, result);
            forall i: nat, c, current, n: nat :: o.PartLaw(item, s, f, i, c, current, n)
  {
    var o := MakeOracle(item, before, s.b, f, s.off, result);
    forall i: nat, c, current, n: nat ensures o.PartLaw(item, s, f, i, c, current, n) {
      if ItemAt(s, i, c, current, n) { PartIs(item, s, f, i, c, current, n); }
    }
  }

  lemma PartIs(item: (Field, string, nat) -> seq<HighlightSpan>, s: StringSpan, f: Field, i: nat, c: int,
      current: StringSpan, n: nat)
    requires ItemAt(s, i, c, current, n)
    ensures PartOf(item, s.b, f, c, s.off + i) == ItemPart(item, f, current, n)
  {
    TrimmedItem(item, s, f, i, c, current, n);
  }

  lemma CommaLaws(item: (Field, string, nat) -> seq<HighlightSpan>, before: seq<HighlightSpan>, s: StringSpan, f: Field,
      result: seq<HighlightSpan>)
    requires s.Valid()
    ensures var o := MakeOracle(item, before, s.b, f, s.off, result);
            forall was, c, hi :: o.CommaLaw(s, was, c, hi)
  {
    var o := MakeOracle(item, before, s.b, f, s.off, result);
    forall was, c, hi ensures o.CommaLaw(s, was, c, hi) {
      if CommaAt(s, c, hi) && o.done(was, c) {
        CommaEdge(s, c, hi);
        CommaExact(item, before, was, s.b, f, s.off, c, hi);
      }
    }
  }

  lemma CommaEdge(s: StringSpan, c: int, hi: int)
    requires CommaAt(s, c, hi)
    ensures s.off <= c <= hi < |s.b| && After(s.b, ',', s.off, hi) == c
  {
    AfterIs(s.b, ',', s.off, c, hi);
  }

  lemma EndLaws(item: (Field, string, nat) -> seq<HighlightSpan>, before: seq<HighlightSpan>, s: StringSpan, f: Field,
      result: seq<HighlightSpan>)
    requires s.Valid() && Trimmed(s) && result == before + ListSpans(item, s.b, f, s.off, s.off + s.len)
    ensures var o := MakeOracle(item, before, s.b, f, s.off, result);
            forall was, c, current, n: nat :: o.EndLaw(item, s, f, was, c, current, n)
  {
    var o := MakeOracle(item, before, s.b, f, s.off, result);
    forall was, c, current, n: nat ensures o.EndLaw(item, s, f, was, c, current, n) {
      if ItemAt(s, s.len, c, current, n) && o.done(was, c) {
        ListExact(item, before, was, s, f, c, current, n, result);
      }
    }
  }

  lemma TrimmedItem(item: (Field, string, nat) -> seq<HighlightSpan>, s: StringSpan, f: Field, i: int, c: int,
      current: StringSpan, lenAtLastSpace: nat)
    requires ItemAt(s, i, c, current, lenAtLastSpace)
    ensures ItemSpans(item, s.b, f, c, s.off + i) == ItemPart(item, f, current, lenAtLastSpace)
  {
    var hi := s.off + i;
    if lenAtLastSpace == 0 {
      FirstIs(s.b, c, hi, hi);
    } else {
      FirstIs(s.b, c, current.off, hi);
      LastIs(s.b, current.off, current.off + lenAtLastSpace, hi);
    }
  }

  lemma CommaExact(item: (Field, string, nat) -> seq<HighlightSpan>, before: seq<HighlightSpan>, was: seq<HighlightSpan>,
      b: string, f: Field, lo: int, c: int, hi: int)
    requires 0 <= lo <= c <= hi < |b| && After(b, ',', lo, hi) == c && DoneUpTo(item, before, b, f, lo, was, c)
    ensures DoneUpTo(item, before, b, f, lo, was + PartOf(item, b, f, c, hi) + [HighlightSpan(HDelimiter, hi, 1)], hi + 1)
  {
    ItemsStep(item, b, f, lo, c, hi);
    JoinFour(before, ItemsTo(item, b, f, lo, c), ItemSpans(item, b, f, c, hi), [HighlightSpan(HDelimiter, hi, 1)]);
  }

  lemma LastCommaAt(s: StringSpan, i: nat, c: int, current: StringSpan, lenAtLastSpace: nat)
    requires ItemAt(s, i, c, current, lenAtLastSpace)
    ensures After(s.b, ',', s.off, s.off + i) == c
  {
    AfterIs(s.b, ',', s.off, c, s.off + i);
  }

  lemma ItemsStep(item: (Field, string, nat) -> seq<HighlightSpan>, b: string, f: Field, lo: int, c: int, hi: int)
    requires 0 <= lo <= hi < |b| && After(b, ',', lo, hi) == c
    ensures ItemsTo(item, b, f, lo, hi + 1) ==
            ItemsTo(item, b, f, lo, c) + ItemSpans(item, b, f, c, hi) + [HighlightSpan(HDelimiter, hi, 1)]
  {}

  lemma JoinFour<T>(p: seq<T>, q: seq<T>, r: seq<T>, t: seq<T>)
    ensures p + q + r + t == p + (q + r + t)
  {}

  lemma ListExact(item: (Field, string, nat) -> seq<HighlightSpan>, before: seq<HighlightSpan>, was: seq<HighlightSpan>,
      s: StringSpan, f: Field, c: int, current: StringSpan, lenAtLastSpace: nat, result: seq<HighlightSpan>)
    requires ItemAt(s, s.len, c, current, lenAtLastSpace) && Trimmed(s) && DoneUpTo(item, before, s.b, f, s.off, was, c)
    requires result == before + ListSpans(item, s.b, f, s.off, s.off + s.len)
    ensures if lenAtLastSpace > 0 then was + ItemPart(item, f, current, lenAtLastSpace) == result
            else was != [] && was[|was| - 1].t == HDelimiter && Retyped(was) == result
  {
    var items := ItemsTo(item, s.b, f, s.off, c);
    if lenAtLastSpace > 0 {
      ListToItem(item, s, f, c, current, lenAtLastSpace);
      Associates(before, items, ItemPart(item, f, current, lenAtLastSpace));
    } else {
      ListToComma(item, s, f, c, current);
      RetypedConcat(before, items);
    }
  }

  lemma ItemFacts(item: (Field, string, nat) -> seq<HighlightSpan>, s: StringSpan, f: Field, c: int, current: StringSpan,
      lenAtLastSpace: nat)
    requires ItemAt(s, s.len, c, current, lenAtLastSpace) && lenAtLastSpace > 0
    ensures s.off <= c < s.off + s.len <= |s.b| && After(s.b, ',', s.off, s.off + s.len) == c
    ensures ItemSpans(item, s.b, f, c, s.off + s.len) == ItemPart(item, f, current, lenAtLastSpace)
  {
    LastCommaAt(s, s.len, c, current, lenAtLastSpace);
    TrimmedItem(item, s, f, s.len, c, current, lenAtLastSpace);
    SomethingBehind(s, c, current, lenAtLastSpace);
  }

  lemma ListToItem(item: (Field, string, nat) -> seq<HighlightSpan>, s: StringSpan, f: Field, c: int, current: StringSpan,
      lenAtLastSpace: nat)
    requires ItemAt(s, s.len, c, current, lenAtLastSpace) && lenAtLastSpace > 0
    ensures ListSpans(item, s.b, f, s.off, s.off + s.len) ==
            ItemsTo(item, s.b, f, s.off, c) + ItemPart(item, f, current, lenAtLastSpace)
  {
    ItemFacts(item, s, f, c, current, lenAtLastSpace);
    EndsInItem(item, s.b, f, s.off, c, s.off + s.len);
  }

  lemma ListToComma(item: (Field, string, nat) -> seq<HighlightSpan>, s: StringSpan, f: Field, c: int, current: StringSpan)
    requires ItemAt(s, s.len, c, current, 0) && Trimmed(s)
    ensures var items := ItemsTo(item, s.b, f, s.off, c);
            items != [] && items[|items| - 1].t == HDelimiter
            && ListSpans(item, s.b, f, s.off, s.off + s.len) == Retyped(items)
  {
    LastCommaAt(s, s.len, c, current, 0);
    NothingBehind(s, c, current);
    EndsInComma(item, s.b, f, s.off, c);
  }

  lemma EndsInItem(item: (Field, string, nat) -> seq<HighlightSpan>, b: string, f: Field, lo: int, c: int, hi: int)
    requires 0 <= lo <= c < hi <= |b| && c == After(b, ',', lo, hi)
    ensures ListSpans(item, b, f, lo, hi) == ItemsTo(item, b, f, lo, c) + ItemSpans(item, b, f, c, hi)
  {}

  lemma EndsInComma(item: (Field, string, nat) -> seq<HighlightSpan>, b: string, f: Field, lo: int, c: int)
    requires 0 <= lo < c <= |b| && c == After(b, ',', lo, c)
    ensures var items := ItemsTo(item, b, f, lo, c);
            items != [] && items[|items| - 1].t == HDelimiter && ListSpans(item, b, f, lo, c) == Retyped(items)
  {
    LastComma(item, b, f, lo, c);
  }

  lemma SomethingBehind(s: StringSpan, c: int, current: StringSpan, lenAtLastSpace: nat)
    requires ItemAt(s, s.len, c, current, lenAtLastSpace) && lenAtLastSpace > 0
    ensures c < s.off + s.len
  {}

  lemma NothingBehind(s: StringSpan, c: int, current: StringSpan)
    requires ItemAt(s, s.len, c, current, 0) && Trimmed(s)
    ensures s.off < c == s.off + s.len
  {}

  lemma LastComma(item: (Field, string, nat) -> seq<HighlightSpan>, b: string, f: Field, lo: int, c: int)
    requires 0 <= lo < c <= |b|
    ensures var items := ItemsTo(item, b, f, lo, c); items != [] && items[|items| - 1] == HighlightSpan(HDelimiter, c - 1, 1)
  {}

  lemma RetypedConcat(p: seq<HighlightSpan>, q: seq<HighlightSpan>)
    requires q != []
    ensures Retyped(p + q) == p + Retyped(q)
  {}

  /** A host and a port around the last colon. */
  ghost predicate HostAndPort(t: string, c: int) {
    0 < c < |t| - 1 && ':' !in t[c + 1..] && t[c] == ':' && HostText(t[..c]) && PortText(t[c + 1..])
  }

  lemma EndpointParts(t: string, c: int)
    requires EndpointAt(t, c)
    ensures HostAndPort(t, c) && After(t, ':', 0, |t|) == c + 1
  {
    DigitsFree(t[c + 1..], ':');
    NoMoreParts();
    assert t[..0] == "";
    LastColon(t, c);
  }

  ghost predicate EndpointFound(j: Judge, t: string, off: nat, ok: bool, colon: nat) {
    if ok then j.Cut(j.parts.endpoint(t, off), t, off, colon, HHost, HPort)
    else j.parts.endpoint(t, off) == [HighlightSpan(HError, off, |t|)]
  }

  lemma EndpointIsFound(j: Judge, t: string, off: nat, ok: bool) returns (c: nat)
    requires j.Laws() && (ok <==> EndpointText(t))
    ensures EndpointFound(j, t, off, ok, c) && (ok ==> c < |t| && t[c] == ':' && ':' !in t[c + 1..])
  {
    assert j.EndpointLaw(t, off);
    c := 0;
    if ok {
      c := HostBefore(t);
      EndpointAround(t, off, c);
      HostAndPortFit(j, t, c);
    }
  }

  lemma EndpointAround(t: string, off: nat, c: nat)
    requires EndpointText(t) && After(t, ':', 0, |t|) == c + 1
    ensures EndpointOf(t, off) == AroundColon(true, off, |t|, c)
  {}

  lemma HostBefore(t: string) returns (c: nat)
    requires EndpointText(t)
    ensures HostAndPort(t, c) && After(t, ':', 0, |t|) == c + 1
  {
    var at :| EndpointAt(t, at);
    EndpointParts(t, at);
    c := at;
  }

  lemma HostAndPortFit(j: Judge, t: string, c: nat)
    requires j.Laws() && HostAndPort(t, c)
    ensures j.fits(HHost, t[..c]) && j.fits(HDelimiter, [t[c]]) && j.fits(HPort, t[c + 1..])
  {
    assert j.FitLaw(HHost, t[..c]) && j.FitLaw(HDelimiter, [t[c]]) && j.FitLaw(HPort, t[c + 1..]);
  }

  lemma LastColon(t: string, c: int)
    requires 0 <= c < |t| && t[c] == ':' && ':' !in t[c + 1..]
    ensures After(t, ':', 0, |t|) == c + 1
  {
    assert forall k :: c + 1 <= k < |t| ==> t[k] == t[c + 1..][k - c - 1];
    AfterIs(t, ':', 0, c + 1, |t|);
  }

  lemma SlashOrNot(t: string, slash: nat)
    requires NetworkText(t) && slash <= |t| && '/' !in t[..slash] && (slash < |t| ==> t[slash] == '/')
    ensures slash == |t| ==> '/' !in t && (DottedQuad(t) || IPv6Text(t))
    ensures slash < |t| ==> PrefixAt(t, slash) && '/' in t
  {
    if slash == |t| {
      assert t[..slash] == t;
    } else {
      FirstSlash(t, slash);
    }
  }

  lemma NameIsFound(j: Judge, s: string, t: Highlight)
    requires j.Laws() && t == NameHighlight(s)
    ensures t == j.parts.name(s) && j.fits(t, s)
  {
    NameFits(s);
    assert j.NameLaw(s) && j.FitLaw(t, s);
  }

  lemma NameFits(s: string)
    ensures Fits(NameHighlight(s), s)
  {}

  ghost predicate NetworkFound(j: Judge, t: string, off: nat, ok: bool, slash: nat) {
    if !ok then j.parts.network(t, off) == [HighlightSpan(HError, off, |t|)]
    else if slash == |t| then t != "" && j.fits(HIP, t) && j.parts.network(t, off) == [HighlightSpan(HIP, off, |t|)]
    else j.Cut(j.parts.network(t, off), t, off, slash, HIP, HCidr)
  }

  lemma NetworkIsFound(j: Judge, t: string, off: nat, ok: bool, slash: nat)
    requires j.Laws() && (ok <==> NetworkText(t))
    requires ok ==> slash <= |t| && '/' !in t[..slash] && (slash < |t| ==> t[slash] == '/')
    ensures NetworkFound(j, t, off, ok, slash)
  {
    assert j.NetworkLaw(t, off);
    if ok {
      NetworkParts(t, off, slash);
      if slash == |t| { assert j.FitLaw(HIP, t); } else { PrefixFits(j, t, slash); }
    }
  }

  lemma PrefixFits(j: Judge, t: string, slash: nat)
    requires j.Laws() && PrefixAt(t, slash)
    ensures 0 < slash < |t| - 1
    ensures j.fits(HIP, t[..slash]) && j.fits(HDelimiter, [t[slash]]) && j.fits(HCidr, t[slash + 1..])
  {
    PrefixParts(t, slash);
    assert j.FitLaw(HIP, t[..slash]) && j.FitLaw(HDelimiter, [t[slash]]) && j.FitLaw(HCidr, t[slash + 1..]);
  }

  /** The spans of an address, and of one with a prefix length. */
  lemma NetworkParts(t: string, off: nat, slash: nat)
    requires NetworkText(t) && slash <= |t| && '/' !in t[..slash] && (slash < |t| ==> t[slash] == '/')
    ensures t != "" && (slash == |t| ==> DottedQuad(t) || IPv6Text(t)) && (slash < |t| ==> PrefixAt(t, slash))
    ensures NetworkOf(t, off) ==
            if slash == |t| then [HighlightSpan(HIP, off, |t|)]
            else [HighlightSpan(HIP, off, slash), HighlightSpan(HDelimiter, off + slash, 1),
                  HighlightSpan(HCidr, off + slash + 1, |t| - slash - 1)]
  {
    NetworkNonEmpty(t);
    SlashOrNot(t, slash);
    IndexOfUnique(t, '/', slash);
  }

  lemma NetworkNonEmpty(t: string)
    requires NetworkText(t)
    ensures t != ""
  {
    if t == "" {
      NoMoreParts();
      TooShort(t);
    }
  }

  lemma TooShort(t: string)
    requires t == ""
    ensures !IPv6Text(t)
  {
    Opening(t, 'x');
  }

  lemma PrefixParts(t: string, i: int)
    requires PrefixAt(t, i)
    ensures i > 0 && i + 1 < |t| && (DottedQuad(t[..i]) || IPv6Text(t[..i])) && Number(t[i + 1..], 0, 128)
    ensures forall k :: PrefixAt(t, k) ==> k == i
  {
    NoMoreParts();
    TooShort("");
    assert t[..0] == "";
    forall k | PrefixAt(t, k) ensures k == i {
      IndexOfUnique(t, '/', k);
      IndexOfUnique(t, '/', i);
    }
  }

  // ---- The walk over the text ----------------------------------------------

  datatype State = OnNone | OnKey | OnValue | OnComment | OnSection

  /** Where the walk stands before index i: the current span, the length up to
      its last non-blank and the place of the equals sign. */
  ghost predicate Walk(j: Judge, spans: seq<HighlightSpan>, i: int, state: State,
                       current: StringSpan, lenAtLastSpace: nat, equals: nat)
  {
    WalkAt(j.b, i, state, current, lenAtLastSpace, equals) && j.good(spans, GoodUpTo(i, state, current, equals))
  }

  /** The end of the text that the spans so far cover. */
  function GoodUpTo(i: int, state: State, current: StringSpan, equals: nat): int {
    match state
    case OnNone => i
    case OnValue => equals
    case _ => current.off
  }

  ghost predicate WalkAt(b: string, i: int, state: State, current: StringSpan, lenAtLastSpace: nat, equals: nat) {
    && current.b == b && current.off + current.len == i < |b|
    && match state
       case OnNone => current.len == 0
       case OnComment => current.len > 0 && b[current.off] == '#'
       case OnValue =>
         && equals < current.off && b[equals] == '=' && Gap(b, equals + 1, current.off)
         && (current.len > 0 ==> Inked(b, current, lenAtLastSpace))
       case _ => Inked(b, current, lenAtLastSpace)
  }

  /** The current span starts with its first non-blank and has its last one at
      the given length. */
  predicate Inked(b: string, current: StringSpan, lenAtLastSpace: nat)
    requires current.off + current.len <= |b|
  {
    && Without(b, '\n', current.off, current.off + current.len)
    && 0 < lenAtLastSpace <= current.len && Gap(b, current.off + lenAtLastSpace, current.off + current.len)
    && !Blank(b[current.off]) && !Blank(b[current.off + lenAtLastSpace - 1])
  }

  /** The spans that the end of a line adds in each state. */
  function EndSpans(g: Grammar, state: State, current: StringSpan, lenAtLastSpace: nat, equals: nat, f: Field): seq<HighlightSpan>
  {
    var off := current.off;
    match state
    case OnNone => []
    case OnKey => [HighlightSpan(HError, off, lenAtLastSpace)]
    case OnSection =>
      [HighlightSpan(SectionHighlight(g.section(Slice(current.b, off, lenAtLastSpace))), off, lenAtLastSpace)]
    case OnComment => [HighlightSpan(HComment, off, current.len)]
    case OnValue =>
      if current.len == 0 || off + lenAtLastSpace > |current.b| then [HighlightSpan(HError, equals, 1)]
      else [HighlightSpan(HDelimiter, equals, 1)] + g.value(current.b, f, off, off + lenAtLastSpace)
  }

  function EndSection(g: Grammar, state: State, current: StringSpan, lenAtLastSpace: nat, section: Field): Field {
    if state == OnSection then g.section(Slice(current.b, current.off, lenAtLastSpace)) else section
  }

  // ---- The line of the walk ------------------------------------------------

  /** The line that the walk is on: its start, the stretch of its key, and the
      spans and the section in front of it. */
  datatype Line = Line(lo: nat, a: nat, k: nat, before: seq<HighlightSpan>, section: Field)

  /** The code starts at a and goes on to i. */
  predicate CodeFrom(b: string, lo: nat, a: nat, i: int)
    requires i <= |b|
  {
    lo <= a < i && Gap(b, lo, a) && !Blank(b[a]) && Without(b, '#', lo, i)
  }

  ghost predicate LineAt(b: string, i: int, state: State, current: StringSpan, equals: nat, l: Line) {
    && l.lo <= current.off <= i < |b| && (l.lo > 0 ==> b[l.lo - 1] == '\n') && Without(b, '\n', l.lo, i)
    && match state
       case OnNone => Without(b, '#', l.lo, i) && Gap(b, l.lo, i)
       case OnComment => current.off < i && b[current.off] == '#' && Without(b, '#', l.lo, current.off)
       case OnKey => CodeFrom(b, l.lo, current.off, i) && b[current.off] != '[' && Without(b, '=', current.off + 1, i)
       case OnSection => CodeFrom(b, l.lo, current.off, i) && b[current.off] == '['
       case OnValue =>
         && CodeFrom(b, l.lo, l.a, i) && b[l.a] != '[' && l.a < l.k <= equals < current.off
         && Without(b, '=', l.a + 1, equals) && Gap(b, l.k, equals) && !Blank(b[l.k - 1])
  }

  function KeyPart(state: State, f: Field, l: Line): seq<HighlightSpan> {
    if state == OnValue && l.a <= l.k then [HighlightSpan(KeyHighlight(f, l.section), l.a, l.k - l.a)] else []
  }

  predicate KeyKnown(g: Grammar, b: string, state: State, f: Field, l: Line) {
    state == OnValue ==> l.a <= l.k && f == g.field(Slice(b, l.a, l.k - l.a))
  }

  /** The spans are right as far as the walk has come. */
  ghost predicate LineInv(o: TextOracle, g: Grammar, b: string, spans: seq<HighlightSpan>, i: int, state: State,
                          current: StringSpan, equals: nat, f: Field, section: Field, l: Line)
  {
    LineAt(b, i, state, current, equals, l) && SpansKnown(o, g, b, spans, state, current, f, section, l)
  }

  ghost predicate SpansKnown(o: TextOracle, g: Grammar, b: string, spans: seq<HighlightSpan>, state: State,
                             current: StringSpan, f: Field, section: Field, l: Line)
  {
    if state == OnComment then o.code(spans, section, l.lo, current.off)
    else o.line(l.before, l.section, l.lo) && section == l.section && KeyKnown(g, b, state, f, l)
         && spans == l.before + KeyPart(state, f, l)
  }

  lemma LineBounds(j: Judge, o: TextOracle, spans: seq<HighlightSpan>, i: int, state: State, current: StringSpan,
      lenAtLastSpace: nat, equals: nat, f: Field, section: Field, l: Line)
    requires Stands(j, o, spans, i, state, current, lenAtLastSpace, equals, f, section, l)
    ensures l.lo <= current.off <= i < |j.b| && (l.lo > 0 ==> j.b[l.lo - 1] == '\n') && Without(j.b, '\n', l.lo, i)
    ensures if state == OnComment then current.off < i && j.b[current.off] == '#' && Without(j.b, '#', l.lo, current.off)
            else Without(j.b, '#', l.lo, i)
    ensures SpansKnown(o, j.g, j.b, spans, state, current, f, section, l) && Lawful(j, o)
  {}

  /** The line from lo to i has its comment at h, or none when h is i. */
  predicate LineEndAt(b: string, lo: nat, h: nat, i: nat) {
    lo <= h <= i < |b| && (lo > 0 ==> b[lo - 1] == '\n') && Without(b, '\n', lo, i) && Without(b, '#', lo, h)
    && (h < i ==> b[h] == '#')
  }

  /** What the spans should be in front of a line, behind its code, and at the
      end of the text. */
  datatype TextOracle = TextOracle(line: (seq<HighlightSpan>, Field, int) -> bool,
                                   code: (seq<HighlightSpan>, Field, int, int) -> bool, result: seq<HighlightSpan>) {
    ghost predicate EndCodeLaw(g: Grammar, b: string, l: Line, i: int, state: State, current: StringSpan,
        lenAtLastSpace: nat, equals: nat, f: Field)
    {
      state != OnComment && LineAt(b, i, state, current, equals, l) && WalkAt(b, i, state, current, lenAtLastSpace, equals)
      && line(l.before, l.section, l.lo) && KeyKnown(g, b, state, f, l) ==>
        code(l.before + KeyPart(state, f, l) + EndSpans(g, state, current, lenAtLastSpace, equals, f),
             EndSection(g, state, current, lenAtLastSpace, l.section), l.lo, i)
    }

    ghost predicate LineEndLaw(b: string, was: seq<HighlightSpan>, section: Field, lo: nat, h: nat, i: nat) {
      LineEndAt(b, lo, h, i) && code(was, section, lo, h) ==>
        var now := was + if h < i then [HighlightSpan(HComment, h, i - h)] else [];
        (b[i] == '\n' ==> line(now, section, i + 1)) && (i == |b| - 1 ==> now == result)
    }

    ghost predicate Laws(g: Grammar, b: string) {
      && (forall l, i, state, current, n: nat, equals: nat, f :: EndCodeLaw(g, b, l, i, state, current, n, equals, f))
      && (forall was, section, lo: nat, h: nat, i: nat :: LineEndLaw(b, was, section, lo, h, i))
    }
  }

  method HighlightConfig(config: string) returns (spans: seq<HighlightSpan>)
    ensures Good(config + "\0", spans, |config|)
    ensures spans == TextSpans(WgQuick(), config + "\0", |config|)
    ensures NoError(spans) <==> WellFormed(config)
  {
    ErrorsExactly(config);
    var b := config + "\0";
    var s := StringSpan(b, 0, |config|);
    TilingLaws(b);
    ghost var j := TilingJudge(b);
    ghost var o := TextOracleFor(WgQuick(), b);
    assert Good(b, [], 0);
    Start(j, o);
    spans := WalkConfig(s, WalkerFor(j, o));
  }

  method WalkConfig(s: StringSpan, ghost w: Walker) returns (spans: seq<HighlightSpan>)
    requires s.off == 0 && s.len == |s.b| - 1 && w.j.b == s.b && w.Laws() && s.Valid()
    requires w.stands([], Place(0, OnNone, StringSpan(s.b, 0, 0), 0, 0, Invalid, Invalid, Line(0, 0, 0, [], Invalid)))
    ensures w.j.good(spans, s.len) && spans == w.o.result
  {
    var ret := new HighlightSpanArray(w.j);
    var current := StringSpan(s.b, 0, 0);
    var currentSection, currentField := Invalid, Invalid;
    var state := OnNone;
    var lenAtLastSpace: nat := 0;
    var equals: nat := 0;
    var i := 0;
    ghost var l := Line(0, 0, 0, [], Invalid);
    while i <= s.len
      invariant 0 <= i <= s.len && ret.j == w.j
      invariant w.stands(ret.spans, Place(i, state, current, lenAtLastSpace, equals, currentField, currentSection, l))
      decreases s.len - i
    {
      if i == s.len || s.At(i) == '\n' || (state != OnComment && s.At(i) == '#') {
        currentSection :=
          ret.FinishLine(i, state, current, lenAtLastSpace, equals, currentField, currentSection, w, l);
        if i == s.len { break; }
        lenAtLastSpace := 0;
        currentField := Invalid;
        if s.At(i) == '#' {
          current := StringSpan(s.b, i, 1);
          state := OnComment;
        } else {
          current := StringSpan(s.b, i + 1, 0);
          state := OnNone;
          l := Line(i + 1, 0, 0, ret.spans, currentSection);
        }
      } else if s.At(i) == '=' && state == OnKey {
        currentField, l := ret.FinishKey(i, current, lenAtLastSpace, equals, currentField, currentSection, w, l);
        equals := i;
        current := StringSpan(s.b, i + 1, 0);
        state := OnValue;
      } else {
        state, current, lenAtLastSpace :=
          Advance(s, i, state, current, lenAtLastSpace, w, ret.spans, equals, currentField, currentSection, l);
      }
      i := i + 1;
    }
    spans := ret.spans;
  }

  /** A byte that ends nothing: it goes to the comment, to the blanks or to the
      current span. */
  method Advance(s: StringSpan, i: nat, state: State, current: StringSpan, lenAtLastSpace: nat, ghost w: Walker,
      ghost spans: seq<HighlightSpan>, ghost equals: nat, ghost f: Field, ghost section: Field, ghost l: Line)
    returns (state': State, current': StringSpan, lenAtLastSpace': nat)
    requires w.Laws() && w.stands(spans, Place(i, state, current, lenAtLastSpace, equals, f, section, l))
    requires s.Valid() && s.b == w.j.b && s.off == 0 && i < s.len == |s.b| - 1
    requires s.b[i] != '\n' && !(state != OnComment && s.b[i] == '#') && !(state == OnKey && s.b[i] == '=')
    ensures w.stands(spans, Place(i + 1, state', current', lenAtLastSpace', equals, f, section, l))
  {
    GoesOn(w, spans, Place(i, state, current, lenAtLastSpace, equals, f, section, l));
    state', current', lenAtLastSpace' := state, current, lenAtLastSpace;
    if state == OnComment {
      current' := current.(len := current.len + 1);
    } else if s.At(i) == ' ' || s.At(i) == '\t' {
      if current.off == i && current.len == 0 {
        current' := current.(off := current.off + 1);
      } else {
        current' := current.(len := current.len + 1);
      }
    } else {
      if state == OnNone { state' := if s.At(i) == '[' then OnSection else OnKey; }
      current' := current.(len := current.len + 1);
      lenAtLastSpace' := current.len + 1;
    }
  }

  function Longer(p: Place): StringSpan { p.current.(len := p.current.len + 1) }

  function BehindComment(p: Place): Place { p.(i := p.i + 1, current := Longer(p)) }

  function BehindBlank(p: Place): Place {
    p.(i := p.i + 1,
       current := if p.current.off == p.i && p.current.len == 0 then p.current.(off := p.current.off + 1) else Longer(p))
  }

  function BehindPlain(p: Place, c: char): Place {
    p.(i := p.i + 1, state := if p.state != OnNone then p.state else if c == '[' then OnSection else OnKey,
       current := Longer(p), lenAtLastSpace := p.current.len + 1)
  }

  /** The place behind a byte that ends nothing. */
  function Behind(p: Place, c: char): Place {
    if p.state == OnComment then BehindComment(p) else if c == ' ' || c == '\t' then BehindBlank(p) else BehindPlain(p, c)
  }

  lemma GoesOn(w: Walker, spans: seq<HighlightSpan>, p: Place)
    requires w.Laws() && w.stands(spans, p) && 0 <= p.i < |w.j.b| - 1
    requires var c := w.j.b[p.i]; c != '\n' && !(p.state != OnComment && c == '#') && !(p.state == OnKey && c == '=')
    ensures w.stands(spans, Behind(p, w.j.b[p.i]))
  {
    if p.state == OnComment {
      CommentGoesOn(w, spans, p);
    } else if w.j.b[p.i] == ' ' || w.j.b[p.i] == '\t' {
      BlankGoesOn(w, spans, p);
    } else {
      PlainGoesOn(w, spans, p);
    }
  }

  lemma CommentGoesOn(w: Walker, spans: seq<HighlightSpan>, p: Place)
    requires w.Laws() && w.stands(spans, p) && 0 <= p.i < |w.j.b| - 1 && p.state == OnComment && w.j.b[p.i] != '\n'
    ensures w.stands(spans, BehindComment(p))
  {
    assert w.Law(spans, p) && w.Law(spans, BehindComment(p));
    CommentChar(w.j, w.o, spans, p.i, p.current, p.lenAtLastSpace, p.equals, p.field, p.section, p.line);
  }

  lemma BlankGoesOn(w: Walker, spans: seq<HighlightSpan>, p: Place)
    requires w.Laws() && w.stands(spans, p) && 0 <= p.i < |w.j.b| - 1 && p.state != OnComment
    requires w.j.b[p.i] == ' ' || w.j.b[p.i] == '\t'
    ensures w.stands(spans, BehindBlank(p))
  {
    assert w.Law(spans, p) && w.Law(spans, BehindBlank(p));
    BlankChar(w.j, w.o, spans, p.i, p.state, p.current, p.lenAtLastSpace, p.equals, p.field, p.section, p.line);
  }

  lemma PlainGoesOn(w: Walker, spans: seq<HighlightSpan>, p: Place)
    requires w.Laws() && w.stands(spans, p) && 0 <= p.i < |w.j.b| - 1 && p.state != OnComment
    requires var c := w.j.b[p.i]; !Blank(c) && c != '#' && !(p.state == OnKey && c == '=')
    ensures w.stands(spans, BehindPlain(p, w.j.b[p.i]))
  {
    assert w.Law(spans, p) && w.Law(spans, BehindPlain(p, w.j.b[p.i]));
    PlainChar(w.j, w.o, spans, p.i, p.state, p.current, p.lenAtLastSpace, p.equals, p.field, p.section, p.line);
  }

  // ---- One byte further ----------------------------------------------------

  /** The walk at index i, with the spans right so far. */
  ghost predicate Stands(j: Judge, o: TextOracle, spans: seq<HighlightSpan>, i: int, state: State, current: StringSpan,
                         lenAtLastSpace: nat, equals: nat, f: Field, section: Field, l: Line)
  {
    Lawful(j, o) && OnCourse(j, o, spans, i, state, current, lenAtLastSpace, equals, f, section, l)
  }

  ghost predicate Lawful(j: Judge, o: TextOracle) {
    j.Laws() && o.Laws(j.g, j.b) && j.b != "" && j.b[|j.b| - 1] == '\0'
  }

  /** Everything the walk keeps between two bytes. */
  datatype Place = Place(i: int, state: State, current: StringSpan, lenAtLastSpace: nat, equals: nat, field: Field,
                         section: Field, line: Line)

  /** The invariant of the walk, to be looked into only where Law is asserted. */
  datatype Walker = Walker(j: Judge, o: TextOracle, stands: (seq<HighlightSpan>, Place) -> bool) {
    ghost predicate Law(spans: seq<HighlightSpan>, p: Place) {
      stands(spans, p) <==>
      Stands(j, o, spans, p.i, p.state, p.current, p.lenAtLastSpace, p.equals, p.field, p.section, p.line)
    }

    ghost predicate Laws() { forall spans, p :: Law(spans, p) }
  }

  ghost function WalkerFor(j: Judge, o: TextOracle): (w: Walker)
    ensures w.Laws()
  {
    Walker(j, o, (spans: seq<HighlightSpan>, p: Place) =>
      Stands(j, o, spans, p.i, p.state, p.current, p.lenAtLastSpace, p.equals, p.field, p.section, p.line))
  }

  ghost predicate OnCourse(j: Judge, o: TextOracle, spans: seq<HighlightSpan>, i: int, state: State, current: StringSpan,
                           lenAtLastSpace: nat, equals: nat, f: Field, section: Field, l: Line)
  {
    Walk(j, spans, i, state, current, lenAtLastSpace, equals)
    && LineInv(o, j.g, j.b, spans, i, state, current, equals, f, section, l)
  }

  lemma Start(j: Judge, o: TextOracle)
    requires Lawful(j, o) && j.good([], 0) && o.line([], Invalid, 0)
    ensures Stands(j, o, [], 0, OnNone, StringSpan(j.b, 0, 0), 0, 0, Invalid, Invalid, Line(0, 0, 0, [], Invalid))
  {}

  lemma NewLine(j: Judge, o: TextOracle, spans: seq<HighlightSpan>, i: nat, equals: nat, section: Field)
    requires Lawful(j, o) && i < |j.b| - 1 && j.b[i] == '\n' && j.good(spans, i) && o.line(spans, section, i + 1)
    ensures Stands(j, o, spans, i + 1, OnNone, StringSpan(j.b, i + 1, 0), 0, equals, Invalid, section,
                   Line(i + 1, 0, 0, spans, section))
  {
    assert j.SkipLaw(spans, i, i + 1);
    assert spans + [] == spans;
  }

  lemma NewComment(j: Judge, o: TextOracle, spans: seq<HighlightSpan>, i: nat, equals: nat, section: Field, l: Line)
    requires Lawful(j, o) && i < |j.b| - 1 && j.b[i] == '#' && j.good(spans, i) && o.code(spans, section, l.lo, i)
    requires l.lo <= i && (l.lo > 0 ==> j.b[l.lo - 1] == '\n') && Without(j.b, '\n', l.lo, i) && Without(j.b, '#', l.lo, i)
    ensures Stands(j, o, spans, i + 1, OnComment, StringSpan(j.b, i, 1), 0, equals, Invalid, section, l)
  {}

  lemma CommentChar(j: Judge, o: TextOracle, spans: seq<HighlightSpan>, i: int, current: StringSpan, lenAtLastSpace: nat,
      equals: nat, f: Field, section: Field, l: Line)
    requires Stands(j, o, spans, i, OnComment, current, lenAtLastSpace, equals, f, section, l)
    requires i < |j.b| - 1 && j.b[i] != '\n'
    ensures Stands(j, o, spans, i + 1, OnComment, current.(len := current.len + 1), lenAtLastSpace, equals, f, section, l)
  {}

  lemma BlankChar(j: Judge, o: TextOracle, spans: seq<HighlightSpan>, i: int, state: State, current: StringSpan,
      lenAtLastSpace: nat, equals: nat, f: Field, section: Field, l: Line)
    requires Stands(j, o, spans, i, state, current, lenAtLastSpace, equals, f, section, l)
    requires state != OnComment && i < |j.b| - 1 && (j.b[i] == ' ' || j.b[i] == '\t')
    ensures Stands(j, o, spans, i + 1, state,
                   if current.off == i && current.len == 0 then current.(off := current.off + 1) else current.(len := current.len + 1),
                   lenAtLastSpace, equals, f, section, l)
  {
    assert j.SkipLaw(spans, i, i + 1);
    BlankWalk(j.b, i, state, current, lenAtLastSpace, equals);
    BlankLine(j.b, i, state, current, lenAtLastSpace, equals, l);
  }

  lemma BlankWalk(b: string, i: int, state: State, current: StringSpan, lenAtLastSpace: nat, equals: nat)
    requires WalkAt(b, i, state, current, lenAtLastSpace, equals) && state != OnComment
    requires i < |b| - 1 && (b[i] == ' ' || b[i] == '\t')
    ensures WalkAt(b, i + 1, state,
                   if current.off == i && current.len == 0 then current.(off := current.off + 1) else current.(len := current.len + 1),
                   lenAtLastSpace, equals)
  {}

  lemma BlankLine(b: string, i: int, state: State, current: StringSpan, lenAtLastSpace: nat, equals: nat, l: Line)
    requires LineAt(b, i, state, current, equals, l) && WalkAt(b, i, state, current, lenAtLastSpace, equals)
    requires state != OnComment && i < |b| - 1 && (b[i] == ' ' || b[i] == '\t')
    ensures LineAt(b, i + 1, state,
                   if current.off == i && current.len == 0 then current.(off := current.off + 1) else current.(len := current.len + 1),
                   equals, l)
  {}

  lemma EqualsChar(j: Judge, o: TextOracle, spans: seq<HighlightSpan>, i: int, current: StringSpan, lenAtLastSpace: nat,
      equals: nat, f: Field, section: Field, l: Line)
    requires Stands(j, o, spans, i, OnKey, current, lenAtLastSpace, equals, f, section, l)
    requires i < |j.b| - 1 && j.b[i] == '='
    ensures Walk(j, spans, i, OnKey, current, lenAtLastSpace, 0) && current.b == j.b
    ensures LineAt(j.b, i + 1, OnValue, StringSpan(j.b, i + 1, 0), i, l.(a := current.off, k := current.off + lenAtLastSpace))
    ensures WalkAt(j.b, i + 1, OnValue, StringSpan(j.b, i + 1, 0), lenAtLastSpace, i)
    ensures o.line(l.before, l.section, l.lo) && section == l.section && spans == l.before
    ensures current.off + lenAtLastSpace <= |j.b|
  {}

  lemma KeyDone(j: Judge, o: TextOracle, spans: seq<HighlightSpan>, i: nat, f: Field, section: Field, l: Line)
    requires l.a <= l.k <= |j.b| && o.line(l.before, l.section, l.lo) && section == l.section
    requires f == j.g.field(j.b[l.a..l.k]) && spans == l.before + [HighlightSpan(KeyHighlight(f, section), l.a, l.k - l.a)]
    ensures SpansKnown(o, j.g, j.b, spans, OnValue, StringSpan(j.b, i + 1, 0), f, section, l)
  {}

  lemma PlainChar(j: Judge, o: TextOracle, spans: seq<HighlightSpan>, i: int, state: State, current: StringSpan,
      lenAtLastSpace: nat, equals: nat, f: Field, section: Field, l: Line)
    requires Stands(j, o, spans, i, state, current, lenAtLastSpace, equals, f, section, l)
    requires state != OnComment && i < |j.b| - 1 && !Blank(j.b[i]) && j.b[i] != '#' && !(state == OnKey && j.b[i] == '=')
    ensures Stands(j, o, spans, i + 1, if state != OnNone then state else if j.b[i] == '[' then OnSection else OnKey,
                   current.(len := current.len + 1), current.len + 1, equals, f, section, l)
  {
    PlainWalk(j.b, i, state, current, lenAtLastSpace, equals);
    PlainLine(j.b, i, state, current, lenAtLastSpace, equals, l);
  }

  lemma PlainWalk(b: string, i: int, state: State, current: StringSpan, lenAtLastSpace: nat, equals: nat)
    requires WalkAt(b, i, state, current, lenAtLastSpace, equals) && state != OnComment && i < |b| - 1 && !Blank(b[i])
    ensures WalkAt(b, i + 1, if state != OnNone then state else if b[i] == '[' then OnSection else OnKey,
                   current.(len := current.len + 1), current.len + 1, equals)
  {}

  lemma PlainLine(b: string, i: int, state: State, current: StringSpan, lenAtLastSpace: nat, equals: nat, l: Line)
    requires LineAt(b, i, state, current, equals, l) && WalkAt(b, i, state, current, lenAtLastSpace, equals)
    requires state != OnComment && i < |b| - 1 && !Blank(b[i]) && b[i] != '#' && !(state == OnKey && b[i] == '=')
    ensures LineAt(b, i + 1, if state != OnNone then state else if b[i] == '[' then OnSection else OnKey,
                   current.(len := current.len + 1), equals, l)
  {}

  // ---- The right spans of a text -------------------------------------------

  /** The spans and the section are those in front of the line at lo. */
  predicate LineDone(g: Grammar, b: string, spans: seq<HighlightSpan>, section: Field, lo: int) {
    0 <= lo <= |b| && spans == SpansTo(g, b, lo) && section == SectionAt(g, b, lo)
  }

  /** And behind the code of that line, which ends at h. */
  predicate CodeDone(g: Grammar, b: string, spans: seq<HighlightSpan>, section: Field, lo: int, h: int) {
    0 <= lo <= h <= |b| && spans == SpansTo(g, b, lo) + CodeSpans(g, b, lo, h, SectionAt(g, b, lo))
    && section == CodeSection(g, b, lo, h, SectionAt(g, b, lo))
  }

  ghost function MakeText(g: Grammar, b: string, result: seq<HighlightSpan>): TextOracle {
    TextOracle((spans: seq<HighlightSpan>, section: Field, lo: int) => LineDone(g, b, spans, section, lo),
               (spans: seq<HighlightSpan>, section: Field, lo: int, h: int) => CodeDone(g, b, spans, section, lo, h), result)
  }

  lemma TextOracleFor(g: Grammar, b: string) returns (o: TextOracle)
    requires b != ""
    ensures o.Laws(g, b) && o.line([], Invalid, 0) && o.result == TextSpans(g, b, |b| - 1)
  {
    var result := TextSpans(g, b, |b| - 1);
    o := MakeText(g, b, result);
    assert LineDone(g, b, [], Invalid, 0);
    forall l, i, state, current, n: nat, equals: nat, f ensures o.EndCodeLaw(g, b, l, i, state, current, n, equals, f) {
      EndCodeLawAt(g, b, result, l, i, state, current, n, equals, f);
    }
    forall was, section, lo: nat, h: nat, i: nat ensures o.LineEndLaw(b, was, section, lo, h, i) {
      LineEndLawAt(g, b, result, was, section, lo, h, i);
    }
  }

  lemma LineEndLawAt(g: Grammar, b: string, result: seq<HighlightSpan>, was: seq<HighlightSpan>, section: Field,
      lo: nat, h: nat, i: nat)
    requires b != "" && result == TextSpans(g, b, |b| - 1)
    ensures MakeText(g, b, result).LineEndLaw(b, was, section, lo, h, i)
  {
    if LineEndAt(b, lo, h, i) && CodeDone(g, b, was, section, lo, h) {
      LineEdges(b, lo, h, i);
      LineEnds(g, b, was, section, lo, h, i);
    }
  }

  lemma LineEdges(b: string, lo: nat, h: nat, i: nat)
    requires LineEndAt(b, lo, h, i)
    ensures lo <= h <= i < |b| && Find(b, '#', lo, i) == h && After(b, '\n', 0, i) == lo
  {
    FindIs(b, '#', lo, h, i);
    AfterIs(b, '\n', 0, lo, i);
  }

  lemma LineEnds(g: Grammar, b: string, was: seq<HighlightSpan>, section: Field, lo: nat, h: nat, i: nat)
    requires lo <= h <= i < |b| && Find(b, '#', lo, i) == h && After(b, '\n', 0, i) == lo && CodeDone(g, b, was, section, lo, h)
    ensures var now := was + if h < i then [HighlightSpan(HComment, h, i - h)] else [];
            LineDone(g, b, now, section, i + 1) && now == TextSpans(g, b, i)
  {
    var sec := SectionAt(g, b, lo);
    LineOf(g, b, lo, h, i, sec);
    NextLine(g, b, lo, i);
    Associates(SpansTo(g, b, lo), CodeSpans(g, b, lo, h, sec), if h < i then [HighlightSpan(HComment, h, i - h)] else []);
  }

  lemma LineOf(g: Grammar, b: string, lo: int, h: int, i: int, section: Field)
    requires 0 <= lo <= i <= |b| && Find(b, '#', lo, i) == h
    ensures LineSpans(g, b, lo, i, section) ==
            CodeSpans(g, b, lo, h, section) + if h < i then [HighlightSpan(HComment, h, i - h)] else []
    ensures LineSection(g, b, lo, i, section) == CodeSection(g, b, lo, h, section)
  {}

  lemma NextLine(g: Grammar, b: string, lo: int, i: int)
    requires 0 <= i < |b| && After(b, '\n', 0, i) == lo
    ensures SpansTo(g, b, i + 1) == SpansTo(g, b, lo) + LineSpans(g, b, lo, i, SectionAt(g, b, lo))
    ensures SectionAt(g, b, i + 1) == LineSection(g, b, lo, i, SectionAt(g, b, lo))
    ensures TextSpans(g, b, i) == SpansTo(g, b, i + 1)
  {}

  lemma EndCodeLawAt(g: Grammar, b: string, result: seq<HighlightSpan>, l: Line, i: int, state: State, current: StringSpan,
      n: nat, equals: nat, f: Field)
    ensures MakeText(g, b, result).EndCodeLaw(g, b, l, i, state, current, n, equals, f)
  {
    if state != OnComment && LineAt(b, i, state, current, equals, l) && WalkAt(b, i, state, current, n, equals)
       && LineDone(g, b, l.before, l.section, l.lo) && KeyKnown(g, b, state, f, l) {
      CodeExact(g, b, l, i, state, current, n, equals, f);
      Associates(l.before, KeyPart(state, f, l), EndSpans(g, state, current, n, equals, f));
    }
  }

  /** The parts of the code as the walk found them are the parts of the line. */
  lemma CodeExact(g: Grammar, b: string, l: Line, i: int, state: State, current: StringSpan, n: nat, equals: nat, f: Field)
    requires state != OnComment && LineAt(b, i, state, current, equals, l) && WalkAt(b, i, state, current, n, equals)
    requires KeyKnown(g, b, state, f, l)
    ensures CodeSpans(g, b, l.lo, i, l.section) == KeyPart(state, f, l) + EndSpans(g, state, current, n, equals, f)
    ensures CodeSection(g, b, l.lo, i, l.section) == EndSection(g, state, current, n, l.section)
  {
    match state {
      case OnNone => FirstIs(b, l.lo, i, i);
      case OnKey => KeyExact(g, b, l, i, current, n, equals);
      case OnSection => SectionExact(g, b, l, i, current, n, equals);
      case OnValue => SettingExact(g, b, l, i, current, n, equals, f);
    }
  }

  lemma KeyExact(g: Grammar, b: string, l: Line, i: int, current: StringSpan, n: nat, equals: nat)
    requires LineAt(b, i, OnKey, current, equals, l) && WalkAt(b, i, OnKey, current, n, equals)
    ensures CodeSpans(g, b, l.lo, i, l.section) == [HighlightSpan(HError, current.off, n)]
    ensures CodeSection(g, b, l.lo, i, l.section) == l.section
  {
    FirstIs(b, l.lo, current.off, i);
    LastIs(b, current.off, current.off + n, i);
    FindIs(b, '=', current.off + 1, i, i);
  }

  lemma SectionExact(g: Grammar, b: string, l: Line, i: int, current: StringSpan, n: nat, equals: nat)
    requires LineAt(b, i, OnSection, current, equals, l) && WalkAt(b, i, OnSection, current, n, equals)
    ensures CodeSpans(g, b, l.lo, i, l.section) == EndSpans(g, OnSection, current, n, equals, Invalid)
    ensures CodeSection(g, b, l.lo, i, l.section) == EndSection(g, OnSection, current, n, l.section)
  {
    FirstIs(b, l.lo, current.off, i);
    LastIs(b, current.off, current.off + n, i);
  }

  lemma SettingEdges(b: string, l: Line, i: int, current: StringSpan, n: nat, equals: nat)
    requires LineAt(b, i, OnValue, current, equals, l) && WalkAt(b, i, OnValue, current, n, equals)
    ensures l.lo <= l.a < l.k <= equals < current.off <= i < |b| && b[l.a] != '[' && current.b == b
    ensures First(b, l.lo, i) == l.a && Find(b, '=', l.a + 1, i) == equals && Last(b, l.a, equals) == l.k
    ensures First(b, equals + 1, i) == current.off
    ensures current.off < i ==> current.off + n <= i && Last(b, current.off, i) == current.off + n
    ensures current.len == i - current.off
  {
    FirstIs(b, l.lo, l.a, i);
    FindIs(b, '=', l.a + 1, equals, i);
    LastIs(b, l.a, l.k, equals);
    FirstIs(b, equals + 1, current.off, i);
    if current.len > 0 { LastIs(b, current.off, current.off + n, i); }
  }

  lemma SettingAt(g: Grammar, b: string, lo: int, a: int, eq: int, hi: int, section: Field)
    requires 0 <= lo <= a < eq < hi <= |b| && First(b, lo, hi) == a && b[a] != '[' && Find(b, '=', a + 1, hi) == eq
    ensures CodeSpans(g, b, lo, hi, section) == SettingSpans(g, b, a, eq, hi, section)
    ensures CodeSection(g, b, lo, hi, section) == section
  {}

  lemma SettingExact(g: Grammar, b: string, l: Line, i: int, current: StringSpan, n: nat, equals: nat, f: Field)
    requires LineAt(b, i, OnValue, current, equals, l) && WalkAt(b, i, OnValue, current, n, equals)
    requires KeyKnown(g, b, OnValue, f, l)
    ensures CodeSpans(g, b, l.lo, i, l.section) == KeyPart(OnValue, f, l) + EndSpans(g, OnValue, current, n, equals, f)
    ensures CodeSection(g, b, l.lo, i, l.section) == l.section
  {
    SettingEdges(b, l, i, current, n, equals);
    SettingWhole(g, b, l, i, current, n, equals, f);
  }

  lemma SettingWhole(g: Grammar, b: string, l: Line, i: int, current: StringSpan, n: nat, equals: nat, f: Field)
    requires l.lo <= l.a < l.k <= equals < current.off <= i < |b| && b[l.a] != '[' && current.b == b
    requires First(b, l.lo, i) == l.a && Find(b, '=', l.a + 1, i) == equals && Last(b, l.a, equals) == l.k
    requires First(b, equals + 1, i) == current.off && current.len == i - current.off
    requires current.off < i ==> current.off + n <= i && Last(b, current.off, i) == current.off + n
    requires f == g.field(b[l.a..l.k])
    ensures CodeSpans(g, b, l.lo, i, l.section) == KeyPart(OnValue, f, l) + EndSpans(g, OnValue, current, n, equals, f)
    ensures CodeSection(g, b, l.lo, i, l.section) == l.section
  {
    SettingAt(g, b, l.lo, l.a, equals, i, l.section);
    SettingParts(g, b, l, i, current, n, equals, f);
  }

  lemma SettingParts(g: Grammar, b: string, l: Line, i: int, current: StringSpan, n: nat, equals: nat, f: Field)
    requires l.a < l.k <= equals < current.off <= i < |b| && current.b == b && Last(b, l.a, equals) == l.k
    requires First(b, equals + 1, i) == current.off && current.len == i - current.off
    requires current.off < i ==> current.off + n <= i && Last(b, current.off, i) == current.off + n
    requires f == g.field(b[l.a..l.k])
    ensures SettingSpans(g, b, l.a, equals, i, l.section) == KeyPart(OnValue, f, l) + EndSpans(g, OnValue, current, n, equals, f)
  {}

  /** What the highlighter promises for every text: non-empty spans in bounds, in
      strict order and disjoint, only blanks and line ends outside of them, and
      every span fitting the grammar of its highlight. */
  lemma GoodMeans(config: string, spans: seq<HighlightSpan>)
    requires Good(config + "\0", spans, |config|)
    ensures Ordered(spans, |config|)
    ensures forall k :: 0 <= k < |config| && !Covered(spans, k) ==> Blank(config[k])
    ensures forall i :: 0 <= i < |spans| ==> Fits(spans[i].t, config[spans[i].s..spans[i].s + spans[i].len])
  {
    var b := config + "\0";
    TiledMeans(b, spans, |config|);
    forall k | 0 <= k < |config| && !Covered(spans, k) ensures Blank(config[k]) {
      assert b[k] == config[k];
    }
    forall i | 0 <= i < |spans| ensures Fits(spans[i].t, config[spans[i].s..spans[i].s + spans[i].len]) {
      assert SpanFits(b, spans[i]);
      assert b[spans[i].s..spans[i].s + spans[i].len] == config[spans[i].s..spans[i].s + spans[i].len];
    }
  }
}
