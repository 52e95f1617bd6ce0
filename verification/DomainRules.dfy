// Domain rules: which names a rule covers and what is done with a name.
module DomainRules {
  import opened Text

  // ---- Names and rules -----------------------------------------------------

  function TrimDot(s: string): string {
    if HasSuffix(s, ".") then s[..|s| - 1] else s
  }

  function NormalizeDomain(name: string): string { TrimDot(TrimSpace(Lower(name))) }

  /** A rule without the leading star. */
  function NormalizeRule(rule: string): string {
    var r := NormalizeDomain(rule);
    if HasPrefix(r, "*.") then r[2..] else r
  }

  /** The rule as it is kept; an empty one is dropped. */
  function Kept(rule: string): seq<string> {
    if NormalizeRule(rule) == "" then [] else [NormalizeRule(rule)]
  }

  /** What is kept of each text, in a row. */
  function Gathered(keep: string -> seq<string>, rules: seq<string>): seq<string> {
    if rules == [] then [] else Gathered(keep, rules[..|rules| - 1]) + keep(rules[|rules| - 1])
  }

  function NormalizedRules(rules: seq<string>): seq<string> { Gathered(Kept, rules) }

  method NormalizeRules(rules: seq<string>) returns (out: seq<string>)
    ensures out == NormalizedRules(rules)
  {
    out := [];
    for k := 0 to |rules|
      invariant out == Gathered(Kept, rules[..k])
    {
      assert rules[..k + 1][..k] == rules[..k];
      var kept := KeepRule(rules[k]);
      out := out + kept;
    }
    assert rules[..|rules|] == rules;
  }

  method KeepRule(rule: string) returns (kept: seq<string>)
    ensures kept == Kept(rule)
  {
    var r := NormalizeDomain(rule);
    if HasPrefix(r, "*.") { r := r[2..]; }
    if r == "" { return []; }
    return [r];
  }

  // ---- The forms of a rule -------------------------------------------------

  /** A name without a dot at its end or blanks around it. */
  predicate PlainName(name: string) { Tight(name) && name[|name| - 1] != '.' }

  lemma LowerParts(left: string, name: string, right: string)
    ensures Lower(left + name + right) == Lower(left) + Lower(name) + Lower(right)
    ensures AllBlank(left) ==> AllBlank(Lower(left))
    ensures PlainName(name) ==> PlainName(Lower(name))
    ensures name != "" ==> (Lower(name)[0] == '*' <==> name[0] == '*')
    ensures |name| > 1 ==> (Lower(name)[1] == '.' <==> name[1] == '.')
  {
    forall i | 0 <= i < |left| ensures IsSpace(Lower(left)[i]) <==> IsSpace(left[i]) { LowerKeepsBlanks(left[i]); }
    if name != "" {
      LowerKeepsBlanks(name[0]);
      LowerKeepsBlanks(name[|name| - 1]);
    }
    if |name| > 1 { LowerKeepsBlanks(name[1]); }
  }

  lemma TrimmedLower(left: string, name: string, right: string)
    requires AllBlank(left) && AllBlank(right) && Tight(name)
    ensures TrimSpace(Lower(left + name + right)) == Lower(name)
  {
    LowerParts(left, name, right);
    LowerParts(right, name, left);
    LowerTight(name);
    TrimSpacePadded(Lower(left), Lower(name), Lower(right));
  }

  lemma DotForms(t: string)
    requires t != "" && t[|t| - 1] != '.'
    ensures TrimDot(t) == t == TrimDot(t + ".")
  {
    assert t[|t| - 1..][0] == t[|t| - 1];
    assert (t + ".")[..|t|] == t;
  }

  lemma NormalizedBy(s: string, lower: string, t: string)
    requires TrimSpace(Lower(s)) == lower && TrimDot(lower) == t
    ensures NormalizeDomain(s) == t
  {}

  /** Blanks around a name, one dot behind it and capitals do not count. */
  lemma NameForms(left: string, name: string, right: string)
    requires AllBlank(left) && AllBlank(right) && PlainName(name)
    ensures NormalizeDomain(left + name + right) == Lower(name) == NormalizeDomain(left + (name + ".") + right)
  {
    TrimmedLower(left, name, right);
    TrimmedLower(left, name + ".", right);
    assert Lower(name + ".") == Lower(name) + ".";
    LowerKeepsBlanks(name[|name| - 1]);
    DotForms(Lower(name));
    NormalizedBy(left + name + right, Lower(name), Lower(name));
    NormalizedBy(left + (name + ".") + right, Lower(name) + ".", Lower(name));
  }

  lemma Starred(rule: string, t: string)
    requires NormalizeDomain(rule) == "*." + t
    ensures NormalizeRule(rule) == t
  {
    assert ("*." + t)[2..] == t;
  }

  lemma Unstarred(rule: string, t: string)
    requires NormalizeDomain(rule) == t && !HasPrefix(t, "*.")
    ensures NormalizeRule(rule) == t
  {}

  lemma LowerUnstarred(name: string)
    requires !HasPrefix(name, "*.")
    ensures !HasPrefix(Lower(name), "*.")
    ensures Lower("*." + name) == "*." + Lower(name)
  {
    if |name| > 1 {
      LowerKeepsBlanks(name[0]);
      LowerKeepsBlanks(name[1]);
      assert name[..2] == [name[0], name[1]] && Lower(name)[..2] == [LowerChar(name[0]), LowerChar(name[1])];
    }
  }

  /** A rule may be written with or without a leading star, and with a dot at its
      end. */
  lemma RuleForms(left: string, name: string, right: string)
    requires AllBlank(left) && AllBlank(right) && PlainName(name) && !HasPrefix(name, "*.")
    ensures NormalizeRule(left + name + right) == Lower(name) == NormalizeRule(left + (name + ".") + right)
    ensures NormalizeRule(left + ("*." + name) + right) == Lower(name) == NormalizeRule(left + (("*." + name) + ".") + right)
  {
    LowerUnstarred(name);
    NameForms(left, name, right);
    Unstarred(left + name + right, Lower(name));
    Unstarred(left + (name + ".") + right, Lower(name));
    StarredForms(left, name, right, "*." + name);
  }

  lemma StarredForms(left: string, name: string, right: string, starred: string)
    requires AllBlank(left) && AllBlank(right) && PlainName(name) && starred == "*." + name
    requires Lower(starred) == "*." + Lower(name)
    ensures NormalizeRule(left + starred + right) == Lower(name) == NormalizeRule(left + (starred + ".") + right)
  {
    NameForms(left, starred, right);
    Starred(left + starred + right, Lower(name));
    Starred(left + (starred + ".") + right, Lower(name));
  }

  lemma {:induction false} GatheredInOrder(keep: string -> seq<string>, a: seq<string>, b: seq<string>)
    ensures Gathered(keep, a + b) == Gathered(keep, a) + Gathered(keep, b)
    decreases |b|
  {
    if b == [] {
      assert a + b == a;
    } else {
      var front, last := b[..|b| - 1], b[|b| - 1];
      GatheredInOrder(keep, a, front);
      assert (a + b)[..|a + b| - 1] == a + front;
    }
  }

  lemma {:induction false} GatheredExactly(keep: string -> seq<string>, rules: seq<string>, r: string)
    ensures r in Gathered(keep, rules) <==> exists i :: 0 <= i < |rules| && r in keep(rules[i])
    decreases |rules|
  {
    if rules != [] {
      var n := |rules| - 1;
      GatheredExactly(keep, rules[..n], r);
      assert forall i :: 0 <= i < n ==> rules[..n][i] == rules[i];
    }
  }

  /** The rules that are kept are the normalized ones that are not empty, in their
      order. */
  lemma KeptExactly(a: seq<string>, b: seq<string>, rules: seq<string>, r: string)
    ensures NormalizedRules(a + b) == NormalizedRules(a) + NormalizedRules(b)
    ensures r in NormalizedRules(rules) <==> r != "" && exists i :: 0 <= i < |rules| && NormalizeRule(rules[i]) == r
  {
    GatheredInOrder(Kept, a, b);
    GatheredExactly(Kept, rules, r);
  }

  // ---- Matching by labels --------------------------------------------------

  function Labels(name: string): (labels: seq<string>)
    ensures labels != []
  {
    Split(name, '.')
  }

  predicate IsSuffix(suffix: seq<string>, s: seq<string>) {
    |suffix| <= |s| && s[|s| - |suffix|..] == suffix
  }

  /** The test of the source, on characters. */
  predicate Matches(domain: string, rule: string) { domain == rule || HasSuffix(domain, "." + rule) }

  /** On characters or on labels: the rule's labels end the name's labels. */
  lemma MatchesByLabels(domain: string, rule: string)
    ensures Matches(domain, rule) <==> IsSuffix(Labels(rule), Labels(domain))
  {
    if domain != rule && HasSuffix(domain, "." + rule) {
      var front := domain[..|domain| - |rule| - 1];
      assert domain == front + "." + rule;
      SplitConcat(front, rule, '.');
    }
    if IsSuffix(Labels(rule), Labels(domain)) {
      LabelsMatch(domain, rule);
    }
  }

  lemma LabelsMatch(domain: string, rule: string)
    requires IsSuffix(Labels(rule), Labels(domain))
    ensures Matches(domain, rule)
  {
    var d, r := Labels(domain), Labels(rule);
    var front := d[..|d| - |r|];
    assert d == front + r;
    JoinSplit(domain, '.');
    JoinSplit(rule, '.');
    if front != [] {
      JoinConcat(front, r, ".");
      EndsWith(domain, Join(front, "."), rule);
    } else {
      assert d == r;
    }
  }

  lemma EndsWith(domain: string, front: string, rule: string)
    requires domain == front + "." + rule
    ensures HasSuffix(domain, "." + rule)
  {
    assert domain[|front|..] == "." + rule;
  }

  predicate MatchDomain(domain: string, rules: seq<string>) {
    exists i :: 0 <= i < |rules| && Matches(domain, rules[i])
  }

  method FindMatch(domain: string, rules: seq<string>) returns (found: bool)
    ensures found <==> MatchDomain(domain, rules)
    ensures found <==> exists i :: 0 <= i < |rules| && IsSuffix(Labels(rules[i]), Labels(domain))
  {
    for k := 0 to |rules|
      invariant forall i :: 0 <= i < k ==> !Matches(domain, rules[i]) && !IsSuffix(Labels(rules[i]), Labels(domain))
    {
      var rule := rules[k];
      MatchesByLabels(domain, rule);
      if domain == rule || HasSuffix(domain, "." + rule) { return true; }
    }
    return false;
  }

  /** A rule that covers a name covers every name below it. */
  lemma SubdomainMatches(sub: string, domain: string, rule: string)
    requires Matches(domain, rule)
    ensures Matches(sub + "." + domain, rule)
  {
    var d := sub + "." + domain;
    assert d[|sub|..] == "." + domain;
    if domain != rule {
      assert d[|d| - |rule| - 1..] == domain[|domain| - |rule| - 1..];
    }
  }

  lemma MatchInherited(sub: string, domain: string, rules: seq<string>)
    requires MatchDomain(domain, rules)
    ensures MatchDomain(sub + "." + domain, rules)
  {
    var i :| 0 <= i < |rules| && Matches(domain, rules[i]);
    SubdomainMatches(sub, domain, rules[i]);
  }

  // ---- The decision --------------------------------------------------------

  datatype ListMode = Disabled | Whitelist | Blacklist

  function ListModeName(m: ListMode): string {
    match m
    case Whitelist => "whitelist"
    case Blacklist => "blacklist"
    case Disabled => "disabled"
  }

  function ParseListMode(s: string): ListMode {
    var t := Lower(TrimSpace(s));
    if t == "whitelist" then Whitelist else if t == "blacklist" then Blacklist else Disabled
  }

  /** A list mode is known by its name, in capitals or not and with blanks around
      it; any other text means separate lists. */
  lemma ParseListModeName(m: ListMode, left: string, text: string, right: string)
    requires AllBlank(left) && AllBlank(right) && Lower(text) == ListModeName(m)
    ensures ParseListMode(left + text + right) == m
  {
    LowerTight(text);
    TrimSpacePadded(left, text, right);
  }

  lemma OtherListMode(s: string)
    ensures var m := ParseListMode(s);
            m.Disabled? || exists left, text, right :: Written(s, left, text, right) && Lower(text) == ListModeName(m)
  {
    var left, right := TrimSpaceParts(s);
    assert Written(s, left, TrimSpace(s), right);
  }

  /** The lists after normalization. */
  datatype Rules = Rules(domains: seq<string>, tunnel: seq<string>, direct: seq<string>, block: seq<string>)

  datatype Target = NoTarget | Tunnel | Direct | Block

  function Decided(listMode: ListMode, rules: Rules, d: string): Target {
    if d == "" then NoTarget
    else if MatchDomain(d, rules.block) then Block
    else
      match listMode
      case Whitelist => if MatchDomain(d, rules.domains) then Tunnel else Direct
      case Blacklist => if MatchDomain(d, rules.domains) then Direct else Tunnel
      case Disabled =>
        if MatchDomain(d, rules.direct) then Direct else if MatchDomain(d, rules.tunnel) then Tunnel else NoTarget
  }

  method DecideRoute(listMode: ListMode, rules: Rules, domain: string) returns (target: Target)
    ensures target == Decided(listMode, rules, NormalizeDomain(domain))
  {
    var d := NormalizeDomain(domain);
    if d == "" { return NoTarget; }
    var found := FindMatch(d, rules.block);
    if found { return Block; }
    match listMode {
      case Whitelist =>
        found := FindMatch(d, rules.domains);
        return if found then Tunnel else Direct;
      case Blacklist =>
        found := FindMatch(d, rules.domains);
        return if found then Direct else Tunnel;
      case Disabled =>
        found := FindMatch(d, rules.direct);
        if found { return Direct; }
        found := FindMatch(d, rules.tunnel);
        return if found then Tunnel else NoTarget;
    }
  }

  /** A name below a blocked name is blocked in every list mode; where neither
      list of the mode says otherwise for the lower name, its target is that of
      the upper one. */
  lemma DecisionInherited(listMode: ListMode, rules: Rules, sub: string, d: string)
    requires d != ""
    ensures var below, target := Decided(listMode, rules, sub + "." + d), Decided(listMode, rules, d);
            && (target == Block ==> below == Block)
            && (listMode.Disabled? && target == Direct ==> below == Direct || below == Block)
            && (listMode.Whitelist? && target == Tunnel ==> below == Tunnel || below == Block)
            && (listMode.Blacklist? && target == Direct ==> below == Direct || below == Block)
            && (listMode.Disabled? && target == Tunnel ==> below != NoTarget)
  {
    if MatchDomain(d, rules.block) { MatchInherited(sub, d, rules.block); }
    if MatchDomain(d, rules.domains) { MatchInherited(sub, d, rules.domains); }
    if MatchDomain(d, rules.direct) { MatchInherited(sub, d, rules.direct); }
    if MatchDomain(d, rules.tunnel) { MatchInherited(sub, d, rules.tunnel); }
  }

  /** The name lies in one of the zones: a rule's labels end its labels. */
  predicate InZone(d: string, rules: seq<string>) {
    exists i :: 0 <= i < |rules| && IsSuffix(Labels(rules[i]), Labels(d))
  }

  lemma MatchIsZone(d: string, rules: seq<string>)
    ensures MatchDomain(d, rules) <==> InZone(d, rules)
  {
    forall i | 0 <= i < |rules| ensures Matches(d, rules[i]) <==> IsSuffix(Labels(rules[i]), Labels(d)) {
      MatchesByLabels(d, rules[i]);
    }
  }

  /** The decision by zones of labels: blocking comes before every list mode, and
      with separate lists the direct list before the tunnel list. */
  lemma Priorities(listMode: ListMode, rules: Rules, d: string)
    ensures d == "" ==> Decided(listMode, rules, d) == NoTarget
    ensures d == "" ||
            var target, blocked, listed := Decided(listMode, rules, d), InZone(d, rules.block), InZone(d, rules.domains);
            && (target == Block <==> blocked)
            && (target == Tunnel <==> !blocked && match listMode
                                                  case Whitelist => listed
                                                  case Blacklist => !listed
                                                  case Disabled => InZone(d, rules.tunnel) && !InZone(d, rules.direct))
            && (target == NoTarget <==> !blocked && listMode.Disabled? && !InZone(d, rules.tunnel) && !InZone(d, rules.direct))
  {
    MatchIsZone(d, rules.block);
    MatchIsZone(d, rules.domains);
    MatchIsZone(d, rules.direct);
    MatchIsZone(d, rules.tunnel);
  }

  /** One more block rule blocks exactly its own zone in addition. */
  lemma OneMoreBlock(listMode: ListMode, rules: Rules, zone: string, d: string)
    requires d != ""
    ensures Decided(listMode, rules.(block := rules.block + [zone]), d) ==
            if IsSuffix(Labels(zone), Labels(d)) then Block else Decided(listMode, rules, d)
  {
    var more := rules.block + [zone];
    MatchesByLabels(d, zone);
    assert more[|rules.block|] == zone;
    if MatchDomain(d, rules.block) {
      var i :| 0 <= i < |rules.block| && Matches(d, rules.block[i]);
      assert more[i] == rules.block[i];
    }
  }
}
