// The text form of the port rules: one rule per line.
module PortRulesText {
  import opened Text
  import opened PortFirewall

  /** strings.ReplaceAll with a pattern that is not empty. */
  function ReplaceAll(s: string, pattern: string, with: string): string
    requires pattern != ""
    decreases |s|
  {
    if s == "" then ""
    else if HasPrefix(s, pattern) then with + ReplaceAll(s[|pattern|..], pattern, with)
    else [s[0]] + ReplaceAll(s[1..], pattern, with)
  }

  /** The lines of a text, whichever line ends it uses. */
  function Lines(text: string): (lines: seq<string>)
    ensures lines != []
  {
    Split(ReplaceAll(ReplaceAll(text, "\r\n", "\n"), "\r", "\n"), '\n')
  }

  datatype LineResult = Blank | Bad | Rule(rule: PortRule)

  /** The protocol of a line and what follows it. */
  function ProtocolOf(line: string): (string, string) {
    var idx := IndexOf(line, ':');
    if 0 < idx < |line| then
      var p := Lower(TrimSpace(line[..idx]));
      if p == "tcp" || p == "udp" then (p, TrimSpace(line[idx + 1..])) else ("both", line)
    else ("both", line)
  }

  function Both(from: Option<nat>, to: Option<nat>): Option<(nat, nat)> {
    if from.Some? && to.Some? then Some((from.value, to.value)) else None
  }

  /** The two ends of a port or a port range, before they are compared. */
  function PortsOf(s: string): Option<(nat, nat)> {
    var idx := IndexOf(s, '-');
    if 0 < idx < |s| then Both(ParseUint16(TrimSpace(s[..idx])), ParseUint16(TrimSpace(s[idx + 1..])))
    else Both(ParseUint16(s), ParseUint16(s))
  }

  function Checked(proto: string, ends: Option<(nat, nat)>): LineResult {
    match ends
    case None => Bad
    case Some((from, to)) => if from == 0 || to == 0 || to < from then Bad else Rule(PortRule(proto, from, to))
  }

  function ParseLine(raw: string): LineResult {
    var line := TrimSpace(raw);
    if line == "" || line[0] == '#' then Blank
    else
      var (proto, ports) := ProtocolOf(line);
      Checked(proto, PortsOf(ports))
  }

  /** Every rule that a line yields is a fixed point of the normalization. */
  lemma ParsedIsNormal(raw: string)
    requires ParseLine(raw).Rule?
    ensures IsNormal(ParseLine(raw).rule) && Normalized(ParseLine(raw).rule) == ParseLine(raw).rule
  {
    NormalIsFixed(ParseLine(raw).rule);
  }

  function Results(lines: seq<string>): (results: seq<LineResult>)
    ensures |results| == |lines| && forall i :: 0 <= i < |lines| ==> results[i] == ParseLine(lines[i])
  {
    seq(|lines|, i requires 0 <= i < |lines| => ParseLine(lines[i]))
  }

  /** The rules among the results, in order. */
  function RulesOf(results: seq<LineResult>): seq<PortRule> {
    if results == [] then []
    else
      var n := |results| - 1;
      RulesOf(results[..n]) + if results[n].Rule? then [results[n].rule] else []
  }

  predicate NoneBad(results: seq<LineResult>) {
    forall i :: 0 <= i < |results| ==> !results[i].Bad?
  }

  lemma {:induction false} RulesAreNormal(results: seq<LineResult>)
    requires forall i :: 0 <= i < |results| && results[i].Rule? ==> IsNormal(results[i].rule)
    ensures AllNormal(RulesOf(results))
  {
    if results != [] { RulesAreNormal(results[..|results| - 1]); }
  }

  lemma OneMoreResult(results: seq<LineResult>, i: nat)
    requires i < |results|
    ensures NoneBad(results[..i + 1]) <==> NoneBad(results[..i]) && !results[i].Bad?
    ensures RulesOf(results[..i + 1]) == RulesOf(results[..i]) + if results[i].Rule? then [results[i].rule] else []
  {
    var more := results[..i + 1];
    assert more[..i] == results[..i];
    assert more == results[..i] + [results[i]];
  }

  datatype ParseResult = Ok(rules: seq<PortRule>) | Err(lineNumber: nat, raw: string)

  /** Either all lines are good, and the result has their rules, or the result
      names the first bad one, counted from 1. */
  predicate IsParse(lines: seq<string>, results: seq<LineResult>, r: ParseResult)
    requires |lines| == |results|
  {
    match r
    case Ok(rules) => NoneBad(results) && rules == RulesOf(results)
    case Err(n, raw) =>
      1 <= n <= |lines| && results[n - 1].Bad? && raw == lines[n - 1] && NoneBad(results[..n - 1])
  }

  method ParsePortRulesText(text: string) returns (r: ParseResult)
    ensures IsParse(Lines(text), Results(Lines(text)), r)
    ensures r.Ok? ==> NormalizedRules(r.rules) == r.rules
  {
    var lines := Lines(text);
    r := ParseLines(lines);
  }

  method ParseLines(lines: seq<string>) returns (r: ParseResult)
    ensures IsParse(lines, Results(lines), r)
    ensures r.Ok? ==> NormalizedRules(r.rules) == r.rules
  {
    ghost var results := Results(lines);
    var rules := [];
    for i := 0 to |lines|
      invariant NoneBad(results[..i]) && rules == RulesOf(results[..i])
      invariant AllNormal(rules)
    {
      OneMoreResult(results, i);
      var one := ParseOne(lines[i]);
      match one {
        case Blank =>
        case Bad => return Err(i + 1, lines[i]);
        case Rule(rule) => rules := rules + [rule];
      }
    }
    assert results[..|lines|] == results;
    NormalRulesFixed(rules);
    return Ok(rules);
  }

  /** What the loop does with one line. */
  method ParseOne(raw: string) returns (r: LineResult)
    ensures r == ParseLine(raw) && (r.Rule? ==> IsNormal(r.rule))
  {
    var line := TrimSpace(raw);
    if line == "" || line[0] == '#' { return Blank; }
    var proto, ports := TakeProtocol(line);
    var from, to := ParseEnds(ports);
    if from.None? || to.None? || from.value == 0 || to.value == 0 || from.value > 65535 || to.value > 65535
       || to.value < from.value {
      return Bad;
    }
    return Rule(PortRule(proto, from.value, to.value));
  }

  method TakeProtocol(line: string) returns (proto: string, rest: string)
    ensures (proto, rest) == ProtocolOf(line)
  {
    proto, rest := "both", line;
    var idx := IndexOf(line, ':');
    if 0 < idx < |line| {
      var p := Lower(TrimSpace(line[..idx]));
      if p == "tcp" || p == "udp" {
        proto := p;
        rest := TrimSpace(line[idx + 1..]);
      }
    }
  }

  method ParseEnds(line: string) returns (from: Option<nat>, to: Option<nat>)
    ensures Both(from, to) == PortsOf(line)
  {
    to := None;
    var idx := IndexOf(line, '-');
    if 0 < idx < |line| {
      from := ParseUint16(TrimSpace(line[..idx]));
      if from.Some? {
        to := ParseUint16(TrimSpace(line[idx + 1..]));
      }
    } else {
      from := ParseUint16(line);
      to := from;
    }
  }

  // ---- Formatting ----------------------------------------------------------

  function PortsText(r: PortRule): string {
    if r.from == r.to then Render(r.from) else Render(r.from) + "-" + Render(r.to)
  }

  function RuleText(r: PortRule): string {
    if r.protocol == "tcp" || r.protocol == "udp" then r.protocol + ":" + PortsText(r) else PortsText(r)
  }

  function RuleTexts(rules: seq<PortRule>): (lines: seq<string>)
    ensures |lines| == |rules| && forall i :: 0 <= i < |rules| ==> lines[i] == RuleText(rules[i])
  {
    seq(|rules|, i requires 0 <= i < |rules| => RuleText(rules[i]))
  }

  function Format(rules: seq<PortRule>): string { Join(RuleTexts(rules), "\r\n") }

  method FormatPortRulesText(rules: seq<PortRule>) returns (text: string)
    ensures text == Format(rules)
  {
    var lines: seq<string> := [];
    for k := 0 to |rules|
      invariant |lines| == k && forall i :: 0 <= i < k ==> lines[i] == RuleText(rules[i])
    {
      var r := rules[k];
      var s;
      if r.from == r.to {
        s := Render(r.from);
      } else {
        s := Render(r.from) + "-" + Render(r.to);
      }
      if r.protocol == "tcp" || r.protocol == "udp" {
        s := r.protocol + ":" + s;
      }
      lines := lines + [s];
    }
    assert lines == RuleTexts(rules);
    return Join(lines, "\r\n");
  }

  // ---- The round trip ------------------------------------------------------

  lemma DigitsTrimmed(s: string)
    requires s != "" && AllDigits(s)
    ensures TrimSpace(s) == s && '-' !in s && ':' !in s && '\r' !in s && '\n' !in s && s[0] != '#'
  {
    assert IsDigit(s[0]) && IsDigit(s[|s| - 1]);
    TrimSpaceFixed(s);
  }

  lemma PortRendered(n: nat)
    requires n <= 65535
    ensures ParseUint16(Render(n)) == Some(n)
  {
    ValueOfRender(n);
  }

  lemma PortsRoundTrip(r: PortRule)
    requires IsNormal(r)
    ensures PortsOf(PortsText(r)) == Some((r.from, r.to))
  {
    var a, b, s := Render(r.from), Render(r.to), PortsText(r);
    PortRendered(r.from);
    PortRendered(r.to);
    DigitsTrimmed(a);
    DigitsTrimmed(b);
    if r.from == r.to {
      IndexOfUnique(s, '-', |s|);
    } else {
      assert s[..|a|] == a && s[|a| + 1..] == b;
      IndexOfUnique(s, '-', |a|);
    }
  }

  /** The first and the last byte of the ports are digits, and no byte ends a
      line or a protocol. */
  lemma PortsTextShape(r: PortRule)
    requires IsNormal(r)
    ensures var s := PortsText(r);
            s != "" && IsDigit(s[0]) && IsDigit(s[|s| - 1]) && ':' !in s && '\r' !in s && '\n' !in s
    ensures TrimSpace(PortsText(r)) == PortsText(r)
  {
    DigitsTrimmed(Render(r.from));
    DigitsTrimmed(Render(r.to));
    TrimSpaceFixed(PortsText(r));
  }

  lemma ProtocolRoundTrip(r: PortRule)
    requires IsNormal(r)
    ensures ProtocolOf(RuleText(r)) == (r.protocol, PortsText(r))
  {
    var s, ports := RuleText(r), PortsText(r);
    PortsTextShape(r);
    if r.protocol == "both" {
      IndexOfUnique(s, ':', |s|);
    } else {
      ProtocolNames(r.protocol);
      assert s[..3] == r.protocol && s[4..] == ports;
      IndexOfUnique(s, ':', 3);
    }
  }

  lemma ProtocolNames(p: string)
    requires p == "tcp" || p == "udp"
    ensures |p| == 3 && ':' !in p && '\r' !in p && '\n' !in p && !IsSpace(p[0]) && p[0] != '#'
    ensures Lower(TrimSpace(p)) == p
  {
    TrimSpaceFixed(p);
    assert Lower(p) == p;
  }

  lemma RuleTextShape(r: PortRule)
    requires IsNormal(r)
    ensures var s := RuleText(r);
            s != "" && s[0] != '#' && '\r' !in s && '\n' !in s && TrimSpace(s) == s
  {
    var s := RuleText(r);
    PortsTextShape(r);
    if r.protocol != "both" { ProtocolNames(r.protocol); }
    TrimSpaceFixed(s);
  }

  lemma RuleRoundTrip(r: PortRule)
    requires IsNormal(r)
    ensures ParseLine(RuleText(r)) == Rule(r)
  {
    RuleTextShape(r);
    ProtocolRoundTrip(r);
    PortsRoundTrip(r);
    LineSteps(RuleText(r), r.protocol, PortsText(r), r.from, r.to);
  }

  lemma LineSteps(raw: string, proto: string, ports: string, from: nat, to: nat)
    requires raw != "" && raw[0] != '#' && TrimSpace(raw) == raw
    requires ProtocolOf(raw) == (proto, ports) && PortsOf(ports) == Some((from, to)) && 1 <= from <= to
    ensures ParseLine(raw) == Rule(PortRule(proto, from, to))
  {}

  lemma {:induction false} ReplaceNothing(s: string, c: char, with: string)
    requires c !in s
    ensures ReplaceAll(s, [c], with) == s
    decreases |s|
  {
    if s != "" {
      assert s == [s[0]] + s[1..];
      ReplaceNothing(s[1..], c, with);
    }
  }

  lemma NoPrefix(s: string, p: string)
    requires s != "" && p != "" && s[0] != p[0]
    ensures !HasPrefix(s, p)
  {
    if |p| <= |s| { assert s[..|p|][0] == s[0]; }
  }

  lemma {:induction false} ReplaceAfter(s: string, t: string)
    requires '\r' !in s
    ensures ReplaceAll(s + t, "\r\n", "\n") == s + ReplaceAll(t, "\r\n", "\n")
    decreases |s|
  {
    if s == "" {
      assert s + t == t;
    } else {
      assert (s + t)[1..] == s[1..] + t;
      NoPrefix(s + t, "\r\n");
      ReplaceAfter(s[1..], t);
      assert s == [s[0]] + s[1..];
      Associates([s[0]], s[1..], ReplaceAll(t, "\r\n", "\n"));
    }
  }

  lemma {:induction false} ReplaceLineEnds(lines: seq<string>)
    requires Free(lines, '\r')
    ensures ReplaceAll(Join(lines, "\r\n"), "\r\n", "\n") == Join(lines, "\n")
    ensures '\r' !in Join(lines, "\n")
    decreases |lines|
  {
    if |lines| == 1 {
      ReplaceAfter(lines[0], "");
      assert lines[0] + "" == lines[0];
    } else if |lines| > 1 {
      var rest := Join(lines[1..], "\r\n");
      ReplaceLineEnds(lines[1..]);
      ReplaceAfter(lines[0], "\r\n" + rest);
      Associates(lines[0], "\r\n", rest);
      assert ("\r\n" + rest)[2..] == rest;
      Associates(lines[0], "\n", Join(lines[1..], "\n"));
    }
  }

  lemma RuleLines(rules: seq<PortRule>)
    requires AllNormal(rules)
    ensures Results(RuleTexts(rules)) == RuleResults(rules)
    ensures Free(RuleTexts(rules), '\r') && Free(RuleTexts(rules), '\n')
  {
    forall i | 0 <= i < |rules|
      ensures ParseLine(RuleTexts(rules)[i]) == Rule(rules[i])
      ensures '\r' !in RuleTexts(rules)[i] && '\n' !in RuleTexts(rules)[i]
    {
      RuleRoundTrip(rules[i]);
      RuleTextShape(rules[i]);
    }
  }

  function RuleResults(rules: seq<PortRule>): (results: seq<LineResult>)
    ensures |results| == |rules| && forall i :: 0 <= i < |rules| ==> results[i] == Rule(rules[i])
  {
    seq(|rules|, i requires 0 <= i < |rules| => Rule(rules[i]))
  }

  lemma {:induction false} RulesOfRules(rules: seq<PortRule>, k: nat)
    requires k <= |rules|
    ensures RulesOf(RuleResults(rules)[..k]) == rules[..k]
    decreases k
  {
    if k > 0 {
      RulesOfRules(rules, k - 1);
      OneMoreResult(RuleResults(rules), k - 1);
      assert rules[..k] == rules[..k - 1] + [rules[k - 1]];
    }
  }

  lemma RulesOfAll(rules: seq<PortRule>)
    ensures NoneBad(RuleResults(rules)) && RulesOf(RuleResults(rules)) == rules
  {
    RulesOfRules(rules, |rules|);
    assert RuleResults(rules)[..|rules|] == RuleResults(rules) && rules[..|rules|] == rules;
  }

  /** The lines of formatted rules are the rules' own lines. */
  lemma FormattedLines(rules: seq<PortRule>)
    requires AllNormal(rules)
    ensures Lines(Format(rules)) == if rules == [] then [""] else RuleTexts(rules)
  {
    var lines := RuleTexts(rules);
    RuleLines(rules);
    ReplaceLineEnds(lines);
    ReplaceNothing(Join(lines, "\n"), '\r', "\n");
    if lines == [] {
      SplitWithout("", '\n');
    } else {
      SplitJoin(lines, '\n');
    }
  }

  lemma FormattedResults(rules: seq<PortRule>)
    requires AllNormal(rules)
    ensures var results := Results(Lines(Format(rules))); NoneBad(results) && RulesOf(results) == rules
  {
    FormattedLines(rules);
    if rules == [] {
      EmptyText();
    } else {
      RuleLines(rules);
      RulesOfAll(rules);
    }
  }

  /** Parsing what was formatted has one outcome: the normalized rules. */
  lemma RoundTrip(rules: seq<PortRule>, r: ParseResult)
    requires Wellformed(rules)
    ensures var lines := Lines(Format(NormalizedRules(rules)));
            IsParse(lines, Results(lines), r) <==> r == Ok(NormalizedRules(rules))
  {
    NormalizedTwice(rules);
    FormattedResults(NormalizedRules(rules));
  }

  lemma EmptyText()
    ensures Results([""]) == [Blank] && RulesOf([Blank]) == []
  {
    TrimSpaceFixed("");
    assert [Blank][..0] == [];
  }

  // ---- The lines, written out ----------------------------------------------

  predicate Port(s: string, n: nat) { s != "" && AllDigits(s) && Value(s) == n && n <= 65535 }

  lemma DigitsAndBlanks(x: string, b: string)
    requires x != "" && AllDigits(x) && AllBlank(b)
    ensures '-' !in x + b && ':' !in x + b && Tight(x) && x[0] != '#'
    ensures TrimSpace(x + b) == x && TrimSpace(b + x) == x
  {
    assert IsDigit(x[0]) && IsDigit(x[|x| - 1]);
    forall i | 0 <= i < |x + b| ensures (x + b)[i] != '-' && (x + b)[i] != ':' {
      assert i >= |x| ==> IsSpace(b[i - |x|]);
    }
    TrimSpacePadded("", x, b);
    TrimSpacePadded(b, x, "");
    assert "" + x + b == x + b && b + x + "" == b + x;
  }

  /** Two ports with a hyphen between them, and perhaps blanks around that. */
  predicate RangeWritten(s: string, x: string, b: string, c: string, y: string, from: nat, to: nat) {
    AllBlank(b) && AllBlank(c) && Port(x, from) && Port(y, to) && s == x + b + "-" + (c + y)
  }

  ghost predicate EndsWritten(s: string, from: nat, to: nat) {
    (from == to && Port(s, from)) || exists x, b, c, y :: RangeWritten(s, x, b, c, y, from, to)
  }

  lemma EndsAreRead(s: string, from: nat, to: nat)
    requires EndsWritten(s, from, to)
    ensures PortsOf(s) == Some((from, to)) && ':' !in s && Tight(s) && s[0] != '#'
  {
    if from == to && Port(s, from) {
      DigitsAndBlanks(s, "");
      assert s + "" == s;
      IndexOfUnique(s, '-', |s|);
    } else {
      var x, b, c, y :| RangeWritten(s, x, b, c, y, from, to);
      RangeIsRead(s, x, b, c, y, from, to);
    }
  }

  lemma RangeIsRead(s: string, x: string, b: string, c: string, y: string, from: nat, to: nat)
    requires RangeWritten(s, x, b, c, y, from, to)
    ensures PortsOf(s) == Some((from, to)) && ':' !in s && Tight(s) && s[0] != '#'
  {
    DigitsAndBlanks(x, b);
    DigitsAndBlanks(y, c);
    var k := |x + b|;
    assert s[..k] == x + b && s[k + 1..] == c + y && s[k] == '-';
    IndexOfUnique(s, '-', k);
    assert s[0] == x[0] && s[|s| - 1] == y[|y| - 1];
  }

  lemma EndsAreWritten(s: string, from: nat, to: nat)
    requires PortsOf(s) == Some((from, to)) && (s == "" || Tight(s))
    ensures EndsWritten(s, from, to)
  {
    var k := IndexOf(s, '-');
    if 0 < k < |s| {
      var x, b := FrontTrimmed(s, k);
      var c, y := BackTrimmed(s, k + 1);
      assert s == s[..k] + "-" + s[k + 1..];
      assert RangeWritten(s, x, b, c, y, from, to);
    }
  }

  lemma NoBlankFront(left: string, rest: string, s: string)
    requires AllBlank(left) && s != "" && !IsSpace(s[0]) && s == left + rest
    ensures left == "" && s == rest
  {}

  lemma NoBlankBack(rest: string, right: string, s: string)
    requires AllBlank(right) && s == rest + right && (s != "" ==> !IsSpace(s[|s| - 1]))
    ensures right == "" && s == rest
  {}

  lemma FrontTrimmed(s: string, k: nat) returns (x: string, b: string)
    requires 0 < k <= |s| && !IsSpace(s[0])
    ensures x == TrimSpace(s[..k]) && AllBlank(b) && s[..k] == x + b
  {
    var left, right := TrimSpaceParts(s[..k]);
    x, b := TrimSpace(s[..k]), right;
    NoBlankFront(left, x + b, s[..k]);
  }

  lemma BackTrimmed(s: string, k: nat) returns (c: string, y: string)
    requires k <= |s| && s != "" && !IsSpace(s[|s| - 1])
    ensures y == TrimSpace(s[k..]) && AllBlank(c) && s[k..] == c + y
  {
    var t := s[k..];
    var left, right := TrimSpaceParts(t);
    c, y := left, TrimSpace(t);
    NoBlankBack(c + y, right, t);
  }

  /** A protocol in front of a colon. */
  predicate ProtocolWritten(core: string, p: string, b: string, c: string, ports: string, proto: string) {
    AllBlank(b) && AllBlank(c) && Lower(p) == proto && core == p + b + ":" + (c + ports)
  }

  ghost predicate CoreWritten(core: string, r: PortRule) {
    (r.protocol == "both" && EndsWritten(core, r.from, r.to))
    || ((r.protocol == "tcp" || r.protocol == "udp")
        && exists p, b, c, ports :: ProtocolWritten(core, p, b, c, ports, r.protocol) && EndsWritten(ports, r.from, r.to))
  }

  lemma LowerColon(p: string)
    requires Lower(p) == "tcp" || Lower(p) == "udp"
    ensures Tight(p) && p[0] != '#' && ':' !in p
  {
    LowerTight(p);
    ProtocolNames(Lower(p));
    forall i | 0 <= i < |p| ensures p[i] != ':' { assert Lower(p)[i] == LowerChar(p[i]); }
    assert Lower(p)[0] == LowerChar(p[0]);
  }

  lemma ProtocolSteps(core: string, k: nat, word: string, ports: string)
    requires 0 < k < |core| && IndexOf(core, ':') == k && TrimSpace(core[..k]) == word && TrimSpace(core[k + 1..]) == ports
    ensures ProtocolOf(core) == if Lower(word) == "tcp" || Lower(word) == "udp" then (Lower(word), ports) else ("both", core)
  {}

  lemma ProtocolIsRead(core: string, p: string, b: string, c: string, ports: string, proto: string)
    requires ProtocolWritten(core, p, b, c, ports, proto) && (proto == "tcp" || proto == "udp") && Tight(ports)
    ensures ProtocolOf(core) == (proto, ports) && Tight(core) && core[0] != '#'
  {
    LowerColon(p);
    ColonAt(core, p, b, c + ports);
    TrimSpacePadded("", p, b);
    TrimSpacePadded(c, ports, "");
    assert "" + p + b == p + b && c + ports + "" == c + ports;
    ProtocolSteps(core, |p + b|, p, ports);
    assert core[0] == p[0] && core[|core| - 1] == ports[|ports| - 1];
  }

  lemma ColonAt(core: string, p: string, b: string, rest: string)
    requires core == p + b + ":" + rest && ':' !in p && AllBlank(b)
    ensures var k := |p + b|; IndexOf(core, ':') == k && core[..k] == p + b && core[k + 1..] == rest
  {
    var k := |p + b|;
    assert core[..k] == p + b && core[k + 1..] == rest && core[k] == ':';
    forall i | 0 <= i < k ensures core[..k][i] != ':' { assert i >= |p| ==> IsSpace(b[i - |p|]); }
    IndexOfUnique(core, ':', k);
  }

  lemma CoreIsRead(core: string, r: PortRule)
    requires CoreWritten(core, r) && 1 <= r.from <= r.to
    ensures Tight(core) && core[0] != '#'
    ensures exists ports :: ProtocolOf(core) == (r.protocol, ports) && PortsOf(ports) == Some((r.from, r.to))
  {
    if r.protocol == "both" {
      EndsAreRead(core, r.from, r.to);
      IndexOfUnique(core, ':', |core|);
      assert ProtocolOf(core) == ("both", core);
    } else {
      var p, b, c, ports :| ProtocolWritten(core, p, b, c, ports, r.protocol) && EndsWritten(ports, r.from, r.to);
      EndsAreRead(ports, r.from, r.to);
      ProtocolIsRead(core, p, b, c, ports, r.protocol);
    }
  }

  lemma CoreIsWritten(core: string, proto: string, ports: string, from: nat, to: nat)
    requires Tight(core) && ProtocolOf(core) == (proto, ports) && PortsOf(ports) == Some((from, to))
    ensures CoreWritten(core, PortRule(proto, from, to))
  {
    var k := IndexOf(core, ':');
    if 0 < k < |core| {
      ProtocolSteps(core, k, TrimSpace(core[..k]), TrimSpace(core[k + 1..]));
    } else {
      assert ProtocolOf(core) == ("both", core);
    }
    if proto == "both" {
      EndsAreWritten(core, from, to);
    } else {
      PortsBehind(core, k, proto, ports, from, to);
    }
  }

  lemma PortsBehind(core: string, k: nat, proto: string, ports: string, from: nat, to: nat)
    requires Tight(core) && 0 < k < |core| && core[k] == ':' && (proto == "tcp" || proto == "udp")
    requires Lower(TrimSpace(core[..k])) == proto && TrimSpace(core[k + 1..]) == ports && PortsOf(ports) == Some((from, to))
    ensures CoreWritten(core, PortRule(proto, from, to))
  {
    var left, right := TrimSpaceParts(core[k + 1..]);
    EndsAreWritten(ports, from, to);
    var p, b, c := ProtocolIsWritten(core, k, proto, ports);
  }

  lemma ProtocolIsWritten(core: string, k: nat, proto: string, ports: string) returns (p: string, b: string, c: string)
    requires Tight(core) && 0 < k < |core| && core[k] == ':'
    requires Lower(TrimSpace(core[..k])) == proto && TrimSpace(core[k + 1..]) == ports
    ensures ProtocolWritten(core, p, b, c, ports, proto)
  {
    p, b := FrontTrimmed(core, k);
    var rest;
    c, rest := BackTrimmed(core, k + 1);
    TakeAndDrop(core, k);
  }

  /** A line is a rule exactly when it is written like this: one port or two with a
      hyphen, after tcp: or udp: for one protocol only, in capitals or not, with
      blanks wherever two parts meet and around the whole. */
  lemma LineIsRule(raw: string, r: PortRule)
    ensures ParseLine(raw) == Rule(r) <==>
            1 <= r.from <= r.to && exists left, core, right :: Written(raw, left, core, right) && CoreWritten(core, r)
  {
    if ParseLine(raw) == Rule(r) {
      var left, right := TrimSpaceParts(raw);
      var (proto, ports) := ProtocolOf(TrimSpace(raw));
      CoreIsWritten(TrimSpace(raw), proto, ports, r.from, r.to);
      assert Written(raw, left, TrimSpace(raw), right);
    }
    if 1 <= r.from <= r.to && exists left, core, right :: Written(raw, left, core, right) && CoreWritten(core, r) {
      var left, core, right :| Written(raw, left, core, right) && CoreWritten(core, r);
      CoreIsRead(core, r);
      TrimSpacePadded(left, core, right);
      var ports :| ProtocolOf(core) == (r.protocol, ports) && PortsOf(ports) == Some((r.from, r.to));
      CoreSteps(raw, core, r.protocol, ports, r.from, r.to);
    }
  }

  lemma CoreSteps(raw: string, core: string, proto: string, ports: string, from: nat, to: nat)
    requires TrimSpace(raw) == core && core != "" && core[0] != '#'
    requires ProtocolOf(core) == (proto, ports) && PortsOf(ports) == Some((from, to)) && 1 <= from <= to
    ensures ParseLine(raw) == Rule(PortRule(proto, from, to))
  {}

  /** It is skipped exactly when there is nothing on it, or a comment. */
  lemma LineIsBlank(raw: string)
    ensures ParseLine(raw).Blank? <==>
            AllBlank(raw) || exists i :: 0 <= i < |raw| && raw[i] == '#' && AllBlank(raw[..i])
  {
    var left, right := TrimSpaceParts(raw);
    var line := TrimSpace(raw);
    if line != "" {
      var k := |left|;
      assert raw[k] == line[0] && raw[..k] == left;
      assert forall j :: 0 <= j < k ==> left[j] == raw[j];
      forall i | 0 <= i < |raw| && raw[i] == '#' && AllBlank(raw[..i]) ensures i == k {
        assert forall j :: 0 <= j < i ==> raw[..i][j] == raw[j];
      }
    }
  }

  /** What is in front of the first line end of whichever kind is the first line;
      a carriage return and a line feed end one line. */
  lemma FirstLine(a: string, end: string, b: string)
    requires '\r' !in a && '\n' !in a && (end == "\n" || end == "\r\n" || (end == "\r" && !HasPrefix(b, "\n")))
    ensures Lines(a + (end + b)) == [a] + Lines(b) && Lines(a) == [a]
  {
    ReplaceAfter(a, "");
    assert a + "" == a;
    ReplaceNothing(a, '\r', "\n");
    SplitWithout(a, '\n');
    ReplaceAfter(a, end + b);
    var first := ReplaceAll(b, "\r\n", "\n");
    var ended := if end == "\r" then "\r" else "\n";
    EndReplaced(end, b);
    ReplaceParts(a, ended + first);
    ReplaceParts(ended, first);
    OneReplaced(ended);
    var second := ReplaceAll(first, "\r", "\n");
    var s := a + ("\n" + second);
    assert s[..|a|] == a && s[|a| + 1..] == second;
    SplitAt(s, '\n', |a|);
  }

  lemma EndReplaced(end: string, b: string)
    requires end == "\n" || end == "\r\n" || (end == "\r" && !HasPrefix(b, "\n"))
    ensures ReplaceAll(end + b, "\r\n", "\n") == (if end == "\r" then "\r" else "\n") + ReplaceAll(b, "\r\n", "\n")
  {
    if end == "\r\n" {
      assert (end + b)[2..] == b && (end + b)[..2] == end;
    } else {
      assert (end + b)[1..] == b;
      if end == "\n" {
        NoPrefix(end + b, "\r\n");
      } else if b != "" {
        assert (end + b)[..2] == ['\r', b[0]] && b[..1] == [b[0]];
      }
    }
  }

  lemma {:induction false} ReplaceParts(s: string, t: string)
    ensures ReplaceAll(s + t, "\r", "\n") == ReplaceAll(s, "\r", "\n") + ReplaceAll(t, "\r", "\n")
    decreases |s|
  {
    if s == "" {
      assert s + t == t;
    } else {
      assert (s + t)[0] == s[0] && (s + t)[1..] == s[1..] + t && s[1..] + t == (s + t)[1..];
      FirstReplaced(s);
      FirstReplaced(s + t);
      ReplaceParts(s[1..], t);
    }
  }

  lemma FirstReplaced(s: string)
    requires s != ""
    ensures ReplaceAll(s, "\r", "\n") == (if s[0] == '\r' then "\n" else [s[0]]) + ReplaceAll(s[1..], "\r", "\n")
  {
    assert HasPrefix(s, "\r") <==> s[0] == '\r' by { assert s[..1] == [s[0]]; }
  }

  lemma OneReplaced(c: string)
    requires c == "\r" || c == "\n"
    ensures ReplaceAll(c, "\r", "\n") == "\n"
  {
    FirstReplaced(c);
    assert c[1..] == "";
  }
}
