// The port firewall manager: what is blocked on the adapter of the active tunnel.
module PortFirewall {
  import opened Text
  import opened PortRanges

  // ---- Rules ---------------------------------------------------------------

  datatype PortRule = PortRule(protocol: string, from: nat, to: nat)

  predicate IsUint16(n: int) { 0 <= n <= MAX_PORT }

  predicate Names(r: PortRule, p: int) { r.from <= p <= r.to }

  /** What a rule received over the pipe or read from the file can be. */
  predicate Wellformed(rules: seq<PortRule>) {
    forall i :: 0 <= i < |rules| ==> IsUint16(rules[i].from) && IsUint16(rules[i].to)
  }

  predicate IsNormal(r: PortRule) {
    r.protocol in {"tcp", "udp", "both"} && 1 <= r.from <= r.to <= MAX_PORT
  }

  predicate AllNormal(rules: seq<PortRule>) {
    forall i :: 0 <= i < |rules| ==> IsNormal(rules[i])
  }

  function NormalProtocol(protocol: string): string {
    var p := Lower(TrimSpace(protocol));
    if p != "tcp" && p != "udp" then "both" else p
  }

  function Normalized(r: PortRule): PortRule {
    var from := if r.from == 0 then 1 else r.from;
    var to := if r.to == 0 then from else r.to;
    if to < from then PortRule(NormalProtocol(r.protocol), to, from)
    else PortRule(NormalProtocol(r.protocol), from, to)
  }

  function NormalizedRules(rules: seq<PortRule>): (out: seq<PortRule>)
    ensures |out| == |rules| && forall i :: 0 <= i < |rules| ==> out[i] == Normalized(rules[i])
  {
    seq(|rules|, i requires 0 <= i < |rules| => Normalized(rules[i]))
  }

  method NormalizePortRules(rules: seq<PortRule>) returns (out: seq<PortRule>)
    ensures out == NormalizedRules(rules)
  {
    out := [];
    for k := 0 to |rules|
      invariant |out| == k && forall i :: 0 <= i < k ==> out[i] == Normalized(rules[i])
    {
      var r := rules[k];
      var proto := Lower(TrimSpace(r.protocol));
      if proto != "tcp" && proto != "udp" { proto := "both"; }
      assert proto == NormalProtocol(r.protocol);
      var from, to := r.from, r.to;
      if from == 0 { from := 1; }
      if to == 0 { to := from; }
      if to < from { from, to := to, from; }
      out := out + [PortRule(proto, from, to)];
    }
  }

  /** A rule keeps the ports between its ends, in either order; without the second
      end it is one port, and without the first all up to the second. */
  lemma NormalizedIsNormal(r: PortRule)
    requires IsUint16(r.from) && IsUint16(r.to)
    ensures IsNormal(Normalized(r))
    ensures forall p :: Names(Normalized(r), p) <==>
              if r.from != 0 && r.to != 0 then Names(r, p) || r.to <= p <= r.from
              else if r.from != 0 then p == r.from
              else if r.to != 0 then 1 <= p <= r.to
              else p == 1
  {}

  /** A protocol is known by its name, in capitals or not and with blanks around
      it; any other text means both. */
  lemma ProtocolForms(protocol: string, left: string, text: string, right: string)
    requires AllBlank(left) && AllBlank(right) && Lower(text) == protocol && (protocol == "tcp" || protocol == "udp")
    ensures NormalProtocol(left + text + right) == protocol
  {
    LowerTight(text);
    TrimSpacePadded(left, text, right);
  }

  lemma OtherProtocol(s: string)
    ensures NormalProtocol(s) == "both" || exists left, text, right :: Written(s, left, text, right) && Lower(text) == NormalProtocol(s)
  {
    var left, right := TrimSpaceParts(s);
    assert Written(s, left, TrimSpace(s), right);
  }

  lemma ProtocolFixed(protocol: string)
    requires protocol in {"tcp", "udp", "both"}
    ensures NormalProtocol(protocol) == protocol
  {
    TrimSpaceFixed(protocol);
    assert Lower(protocol) == protocol;
  }

  /** The normal rules are exactly the fixed points. */
  lemma NormalIsFixed(r: PortRule)
    requires IsUint16(r.from) && IsUint16(r.to)
    ensures IsNormal(r) <==> Normalized(r) == r
  {
    if IsNormal(r) { ProtocolFixed(r.protocol); }
    NormalizedIsNormal(r);
  }

  lemma NormalizedTwice(rules: seq<PortRule>)
    requires Wellformed(rules)
    ensures AllNormal(NormalizedRules(rules))
    ensures NormalizedRules(NormalizedRules(rules)) == NormalizedRules(rules)
  {
    forall i | 0 <= i < |rules| ensures IsNormal(NormalizedRules(rules)[i]) {
      NormalizedIsNormal(rules[i]);
    }
    NormalRulesFixed(NormalizedRules(rules));
  }

  lemma NormalRulesFixed(rules: seq<PortRule>)
    requires AllNormal(rules)
    ensures NormalizedRules(rules) == rules
  {
    forall i | 0 <= i < |rules| ensures NormalizedRules(rules)[i] == rules[i] {
      NormalIsFixed(rules[i]);
    }
  }

  // ---- Modes ---------------------------------------------------------------

  datatype Mode = Off | Whitelist | Blacklist

  function ModeName(m: Mode): string {
    match m
    case Whitelist => "whitelist"
    case Blacklist => "blacklist"
    case Off => "off"
  }

  function ParseMode(s: string): Mode {
    var t := Lower(TrimSpace(s));
    if t == "whitelist" then Whitelist else if t == "blacklist" then Blacklist else Off
  }

  /** A mode is known by its name, in capitals or not and with blanks around it;
      any other text means off. */
  lemma ParseModeName(m: Mode, left: string, text: string, right: string)
    requires AllBlank(left) && AllBlank(right) && Lower(text) == ModeName(m)
    ensures ParseMode(left + text + right) == m
  {
    LowerTight(text);
    TrimSpacePadded(left, text, right);
  }

  lemma OtherMode(s: string)
    ensures var m := ParseMode(s); m.Off? || exists left, text, right :: Written(s, left, text, right) && Lower(text) == ModeName(m)
  {
    var left, right := TrimSpaceParts(s);
    assert Written(s, left, TrimSpace(s), right);
  }

  // ---- What is to be blocked -----------------------------------------------

  datatype Protocol = Tcp | Udp

  predicate Concerns(r: PortRule, proto: Protocol) {
    r.protocol == "both" || r.protocol == if proto.Tcp? then "tcp" else "udp"
  }

  /** A rule of the user names the port. */
  predicate Listed(rules: seq<PortRule>, proto: Protocol, p: int) {
    exists i :: 0 <= i < |rules| && Concerns(rules[i], proto) && Names(rules[i], p)
  }

  predicate ShouldBlock(mode: Mode, rules: seq<PortRule>, proto: Protocol, p: int) {
    match mode
    case Off => false
    case Blacklist => Listed(rules, proto, p)
    case Whitelist => 1 <= p <= MAX_PORT && !Listed(rules, proto, p)
  }

  /** A rule for one protocol leaves the other one alone, one for both does not,
      and the two lists share the ports among them. */
  lemma OneRuleBlocks(r: PortRule, proto: Protocol, p: int)
    requires IsNormal(r)
    ensures ShouldBlock(Blacklist, [r], proto, p) <==>
            r.from <= p <= r.to && (if proto.Tcp? then r.protocol != "udp" else r.protocol != "tcp")
  {
    assert [r][0] == r;
  }

  lemma ListsShare(rules: seq<PortRule>, more: seq<PortRule>, proto: Protocol, p: int)
    requires AllNormal(rules) && AllNormal(more)
    ensures ShouldBlock(Blacklist, rules, proto, p) && ShouldBlock(Whitelist, rules, proto, p) <==> false
    ensures ShouldBlock(Blacklist, rules, proto, p) || ShouldBlock(Whitelist, rules, proto, p) <==> 0 < p < 65536
    ensures ShouldBlock(Blacklist, rules + more, proto, p) <==>
            ShouldBlock(Blacklist, rules, proto, p) || ShouldBlock(Blacklist, more, proto, p)
    ensures !ShouldBlock(Off, rules, proto, p)
  {
    var all := rules + more;
    assert forall i :: 0 <= i < |rules| ==> all[i] == rules[i];
    assert forall i :: 0 <= i < |more| ==> all[|rules| + i] == more[i];
  }

  /** The block rules of one firewall group. */
  datatype Group = Group(tcp: seq<Range>, udp: seq<Range>) {
    function Ranges(proto: Protocol): seq<Range> {
      if proto.Tcp? then tcp else udp
    }
  }

  const NO_RULES := Group([], [])

  ghost predicate Realizes(g: Group, mode: Mode, rules: seq<PortRule>) {
    forall proto: Protocol, p :: Covers(g.Ranges(proto), p) <==> ShouldBlock(mode, rules, proto, p)
  }

  /** The ranges collected for one protocol name the ports of its rules. */
  ghost predicate Collected(rules: seq<PortRule>, proto: Protocol, ranges: seq<Range>) {
    && Proper(ranges) && Within(ranges)
    && forall p :: Covers(ranges, p) <==> Listed(rules, proto, p)
  }

  lemma ListedMore(rules: seq<PortRule>, r: PortRule, proto: Protocol, p: int)
    ensures Listed(rules + [r], proto, p) <==> Listed(rules, proto, p) || (Concerns(r, proto) && Names(r, p))
  {
    var more := rules + [r];
    if Listed(rules, proto, p) {
      var i :| 0 <= i < |rules| && Concerns(rules[i], proto) && Names(rules[i], p);
      assert more[i] == rules[i];
    }
    if Concerns(r, proto) && Names(r, p) { assert more[|rules|] == r; }
  }

  lemma CollectOne(rules: seq<PortRule>, r: PortRule, proto: Protocol, ranges: seq<Range>)
    requires Collected(rules, proto, ranges) && IsNormal(r)
    ensures Collected(rules + [r], proto, if Concerns(r, proto) then ranges + [Range(r.from, r.to)] else ranges)
  {
    forall p ensures Covers(ranges + [Range(r.from, r.to)], p) <==> Covers(ranges, p) || Names(r, p) {
      CoversMore(ranges, Range(r.from, r.to), p);
    }
    forall p ensures Listed(rules + [r], proto, p) <==> Listed(rules, proto, p) || (Concerns(r, proto) && Names(r, p)) {
      ListedMore(rules, r, proto, p);
    }
  }

  method CollectRanges(rules: seq<PortRule>) returns (tcp: seq<Range>, udp: seq<Range>)
    requires AllNormal(rules)
    ensures Collected(rules, Tcp, tcp) && Collected(rules, Udp, udp)
  {
    tcp, udp := [], [];
    for k := 0 to |rules|
      invariant Collected(rules[..k], Tcp, tcp) && Collected(rules[..k], Udp, udp)
    {
      var r := rules[k];
      var pr := Range(r.from, r.to);
      assert rules[..k + 1] == rules[..k] + [r];
      CollectOne(rules[..k], r, Tcp, tcp);
      CollectOne(rules[..k], r, Udp, udp);
      if r.protocol == "tcp" || r.protocol == "both" { tcp := tcp + [pr]; }
      if r.protocol == "udp" || r.protocol == "both" { udp := udp + [pr]; }
    }
    assert rules[..|rules|] == rules;
  }

  method EffectiveBlockRanges(mode: Mode, rules: seq<PortRule>) returns (g: Group)
    requires AllNormal(rules)
    ensures Realizes(g, mode, rules) && PortRanges.Canonical(g.tcp) && PortRanges.Canonical(g.udp)
  {
    var tcp, udp := CollectRanges(rules);
    match mode {
      case Blacklist =>
        var t := MergeRanges(tcp);
        var u := MergeRanges(udp);
        g := Group(t, u);
      case Whitelist =>
        var t := ComplementRanges(tcp);
        var u := ComplementRanges(udp);
        g := Group(t, u);
      case Off =>
        g := NO_RULES;
    }
  }
}
