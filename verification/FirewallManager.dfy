// The port firewall manager over its whole life: which rules every sequence of
// calls leaves in the firewall of the system.
module FirewallManager {
  import opened Text
  import opened PortRanges
  import opened PortFirewall

  // ---- Calls ---------------------------------------------------------------

  datatype TunnelState = Started | Stopped | Other

  /** What becomes of a script: it runs, or it fails and leaves something in the
      one group that it names. */
  datatype Outcome = Ran | Failed(left: Group)

  datatype Event =
    | StateChange(name: string, state: TunnelState, outcome: Outcome)
    | NewRules(mode: string, rules: seq<PortRule>, saved: bool, outcome: Outcome)

  datatype Settings = Settings(mode: Mode, rules: seq<PortRule>, active: string)

  /** The settings after a call. They do not depend on any script. */
  function After(s: Settings, e: Event): Settings {
    match e
    case StateChange(name, Started, _) => s.(active := name)
    case StateChange(name, Stopped, _) => if s.active == name then s.(active := "") else s
    case StateChange(_, Other, _) => s
    case NewRules(mode, rules, _, _) => s.(mode := ParseMode(mode), rules := NormalizedRules(rules))
  }

  function SettingsAfter(start: Settings, events: seq<Event>): Settings {
    if events == [] then start
    else After(SettingsAfter(start, events[..|events| - 1]), events[|events| - 1])
  }

  // ---- What has become of a tunnel's group ---------------------------------

  /** An application of rules to one group. */
  datatype Mark = Mark(mode: Mode, rules: seq<PortRule>, outcome: Outcome)

  /** The last thing that happened to the group of a tunnel: nothing; the rules
      were applied and the tunnel is active, was replaced by another start, or
      was stopped after that; they were removed; or their removal failed. */
  datatype Fate =
    | Never
    | Current(mark: Mark)
    | Replaced(mark: Mark)
    | StoppedLate(mark: Mark)
    | Removed
    | RemovalFailed(left: Group)

  function Next(s: Settings, fate: Fate, e: Event, t: string): Fate {
    match e
    case StateChange(name, Started, outcome) =>
      if name == t then Current(Mark(s.mode, s.rules, outcome))
      else if fate.Current? then Replaced(fate.mark)
      else fate
    case StateChange(name, Stopped, outcome) =>
      if name != t then fate
      else if fate.Current? then (if outcome.Ran? then Removed else RemovalFailed(outcome.left))
      else if fate.Replaced? then StoppedLate(fate.mark)
      else fate
    case StateChange(_, Other, _) => fate
    case NewRules(mode, rules, saved, outcome) =>
      if saved && fate.Current? then Current(Mark(ParseMode(mode), NormalizedRules(rules), outcome)) else fate
  }

  function FateOf(start: Settings, events: seq<Event>, t: string): Fate {
    if events == [] then Never
    else
      var front := events[..|events| - 1];
      Next(SettingsAfter(start, front), FateOf(start, front, t), events[|events| - 1], t)
  }

  /** Exactly the active tunnel's last application still counts. */
  lemma {:induction false} CurrentIsActive(start: Settings, events: seq<Event>, t: string)
    requires start.active == "" && t != ""
    ensures FateOf(start, events, t).Current? <==> SettingsAfter(start, events).active == t
    decreases |events|
  {
    if events != [] { CurrentIsActive(start, events[..|events| - 1], t); }
  }

  // ---- What the firewall holds ---------------------------------------------

  predicate HasRules(groups: map<string, Group>, t: string) { t in groups && groups[t] != NO_RULES }

  /** What an application leaves in the group that it names. */
  ghost predicate Leaves(g: Group, m: Mark) {
    match m.outcome
    case Ran => Realizes(g, m.mode, m.rules) && PortRanges.Canonical(g.tcp) && PortRanges.Canonical(g.udp)
    case Failed(left) => g == left
  }

  ghost predicate BlocksSomething(m: Mark) {
    match m.outcome
    case Ran => exists proto: Protocol, p: int :: ShouldBlock(m.mode, m.rules, proto, p)
    case Failed(left) => left != NO_RULES
  }

  lemma LeavesSomething(g: Group, m: Mark)
    requires Leaves(g, m)
    ensures g != NO_RULES <==> BlocksSomething(m)
  {
    if m.outcome.Ran? {
      if g != NO_RULES {
        var proto := if g.tcp != [] then Tcp else Udp;
        FirstPort(g.Ranges(proto));
        assert ShouldBlock(m.mode, m.rules, proto, g.Ranges(proto)[0].from);
      }
      if BlocksSomething(m) {
        var proto: Protocol, p: int :| ShouldBlock(m.mode, m.rules, proto, p);
        assert Covers(g.Ranges(proto), p);
      }
    }
  }

  /** The group of a tunnel is what its fate says; leftover holds the rules of
      earlier runs of the program. */
  ghost predicate Holds(groups: map<string, Group>, leftover: map<string, Group>, fate: Fate, t: string) {
    match fate
    case Never => t in groups <==> t in leftover && (t in groups ==> groups[t] == leftover[t])
    case Current(m) => t in groups && Leaves(groups[t], m)
    case Replaced(m) => t in groups && Leaves(groups[t], m)
    case StoppedLate(m) => t in groups && Leaves(groups[t], m)
    case Removed => t !in groups
    case RemovalFailed(left) => t in groups && groups[t] == left
  }

  /** A tunnel's rules outlive it exactly when it was replaced by another start
      while it was active, so that its own stop came too late, or its removal
      failed, or they are from an earlier run. */
  ghost predicate RulesOutlive(fate: Fate, leftover: map<string, Group>, t: string) {
    match fate
    case Never => HasRules(leftover, t)
    case Current(m) => false
    case Replaced(m) => BlocksSomething(m)
    case StoppedLate(m) => BlocksSomething(m)
    case Removed => false
    case RemovalFailed(left) => left != NO_RULES
  }

  ghost predicate Explained(groups: map<string, Group>, leftover: map<string, Group>, start: Settings, events: seq<Event>) {
    forall t :: t != "" ==> Holds(groups, leftover, FateOf(start, events, t), t)
  }

  /** What one call does to the groups: it applies the settings to the group of
      one tunnel, removes that group, or leaves all as they are. */
  ghost predicate Moves(s: Settings, e: Event, before: map<string, Group>, after: map<string, Group>) {
    match e
    case StateChange(name, Started, outcome) => Applies(name, Mark(s.mode, s.rules, outcome), before, after)
    case StateChange(name, Stopped, outcome) =>
      after == if s.active != name then before
               else if outcome.Ran? then before - {name}
               else before[name := outcome.left]
    case StateChange(_, Other, _) => after == before
    case NewRules(mode, rules, saved, outcome) =>
      if saved && s.active != "" then Applies(s.active, Mark(ParseMode(mode), NormalizedRules(rules), outcome), before, after)
      else after == before
  }

  ghost predicate Applies(t: string, m: Mark, before: map<string, Group>, after: map<string, Group>) {
    t in after && after == before[t := after[t]] && Leaves(after[t], m)
  }

  lemma MovesExplained(start: Settings, events: seq<Event>, e: Event, leftover: map<string, Group>,
      before: map<string, Group>, after: map<string, Group>)
    requires start.active == "" && Explained(before, leftover, start, events)
    requires Moves(SettingsAfter(start, events), e, before, after) && (e.StateChange? ==> e.name != "")
    ensures Explained(after, leftover, start, events + [e])
  {
    FatesMove(start, events, e);
    forall t | t != "" ensures Holds(after, leftover, FateOf(start, events + [e], t), t) {
      FateHolds(SettingsAfter(start, events), FateOf(start, events, t), e, leftover, before, after, t);
    }
  }

  lemma FateHolds(s: Settings, fate: Fate, e: Event, leftover: map<string, Group>,
      before: map<string, Group>, after: map<string, Group>, t: string)
    requires t != "" && Holds(before, leftover, fate, t) && (fate.Current? <==> s.active == t) && Moves(s, e, before, after)
    ensures Holds(after, leftover, Next(s, fate, e, t), t)
  {}

  // ---- The manager ---------------------------------------------------------

  class Manager {
    var mode: Mode
    var rules: seq<PortRule>
    var activeTunnel: string
    /** The firewall of the system: the rules of the group of each tunnel. */
    ghost var groups: map<string, Group>
    /** All calls so far, the settings in front of them, and what the sweep at
        start-up left. */
    ghost var history: seq<Event>
    ghost const start: Settings
    ghost const leftover: map<string, Group>

    ghost predicate Valid()
      reads this
    {
      && AllNormal(rules) && start.active == ""
      && Settings(mode, rules, activeTunnel) == SettingsAfter(start, history)
      && "" !in groups
      && Explained(groups, leftover, start, history)
    }

    /** The last application of the current settings to the active tunnel ran. */
    ghost predicate Applied()
      reads this
    {
      activeTunnel != "" ==> FateOf(start, history, activeTunnel) == Current(Mark(mode, rules, Ran))
    }

    /** Start-up, and a sweep of the rules of earlier runs that may fail. */
    constructor (mode: string, rules: seq<PortRule>, ghost earlier: map<string, Group>, ghost swept: bool)
      requires Wellformed(rules) && "" !in earlier
      ensures Valid() && activeTunnel == "" && history == [] && leftover == if swept then map[] else earlier
      ensures this.mode == ParseMode(mode) && this.rules == NormalizedRules(rules)
    {
      this.mode := ParseMode(mode);
      var normal := NormalizePortRules(rules);
      NormalizedTwice(rules);
      this.rules := normal;
      activeTunnel := "";
      groups := if swept then map[] else earlier;
      history := [];
      start := Settings(ParseMode(mode), normal, "");
      leftover := if swept then map[] else earlier;
    }

    method ApplyRules(outcome: Outcome) returns (ok: bool)
      requires AllNormal(rules)
      modifies this`groups
      ensures activeTunnel == "" ==> ok && groups == old(groups)
      ensures activeTunnel != "" ==>
                (ok <==> outcome.Ran?) && activeTunnel in groups
                && groups == old(groups)[activeTunnel := groups[activeTunnel]]
                && Leaves(groups[activeTunnel], Mark(mode, rules, outcome))
    {
      if activeTunnel == "" { return true; }
      var g := NO_RULES;
      if mode != Off {
        g := EffectiveBlockRanges(mode, rules);
      }
      match outcome {
        case Ran =>
          groups := groups[activeTunnel := g];
          return true;
        case Failed(left) =>
          groups := groups[activeTunnel := left];
          return false;
      }
    }

    method OnTunnelStateChange(name: string, state: TunnelState, outcome: Outcome)
      requires Valid() && name != ""
      modifies this`activeTunnel, this`groups, this`history
      ensures Valid() && history == old(history) + [StateChange(name, state, outcome)]
      ensures Moves(Settings(mode, rules, old(activeTunnel)), StateChange(name, state, outcome), old(groups), groups)
      ensures state.Started? ==> activeTunnel == name && (Applied() <==> outcome.Ran?)
      ensures !state.Started? && old(Applied()) ==> Applied()
    {
      match state {
        case Started =>
          activeTunnel := name;
          var ok := ApplyRules(outcome);
        case Stopped =>
          if activeTunnel == name {
            match outcome {
              case Ran => groups := groups - {name};
              case Failed(left) => groups := groups[name := left];
            }
            activeTunnel := "";
          }
        case Other =>
      }
      Record(StateChange(name, state, outcome), old(groups));
    }

    method SetRules(newMode: string, newRules: seq<PortRule>, saved: bool, outcome: Outcome) returns (ok: bool)
      requires Valid() && Wellformed(newRules)
      modifies this
      ensures Valid() && history == old(history) + [NewRules(newMode, newRules, saved, outcome)]
      ensures activeTunnel == old(activeTunnel) && mode == ParseMode(newMode) && rules == NormalizedRules(newRules)
      ensures ok <==> saved && (activeTunnel == "" || outcome.Ran?)
      ensures ok ==> Applied()
      ensures Moves(Settings(old(mode), old(rules), activeTunnel), NewRules(newMode, newRules, saved, outcome), old(groups), groups)
    {
      mode := ParseMode(newMode);
      rules := NormalizePortRules(newRules);
      NormalizedTwice(newRules);
      if saved { ok := ApplyRules(outcome); } else { ok := false; }
      Record(NewRules(newMode, newRules, saved, outcome), old(groups));
    }

    /** The call is over. */
    ghost method Record(e: Event, before: map<string, Group>)
      requires AllNormal(rules) && start.active == "" && "" !in groups && (e.StateChange? ==> e.name != "")
      requires Explained(before, leftover, start, history) && Moves(SettingsAfter(start, history), e, before, groups)
      requires Settings(mode, rules, activeTunnel) == After(SettingsAfter(start, history), e)
      modifies this`history
      ensures Valid() && history == old(history) + [e]
      ensures forall t :: FateOf(start, history, t) ==
                          Next(SettingsAfter(start, old(history)), FateOf(start, old(history), t), e, t)
      ensures forall t :: t != "" ==> (FateOf(start, old(history), t).Current? <==> SettingsAfter(start, old(history)).active == t)
    {
      MovesExplained(start, history, e, leftover, before, groups);
      FatesMove(start, history, e);
      history := history + [e];
    }
  }

  /** Whatever has been called: the active tunnel's group blocks what the
      settings ask for if they were applied, and another tunnel has rules left
      exactly when they outlive it. */
  lemma RulesLeft(groups: map<string, Group>, leftover: map<string, Group>, start: Settings, events: seq<Event>, t: string)
    requires start.active == "" && Explained(groups, leftover, start, events) && t != ""
    ensures var s, fate := SettingsAfter(start, events), FateOf(start, events, t);
            if t == s.active then
              fate == Current(Mark(s.mode, s.rules, Ran)) ==> t in groups && Realizes(groups[t], s.mode, s.rules)
            else HasRules(groups, t) <==> RulesOutlive(fate, leftover, t)
  {
    CurrentIsActive(start, events, t);
    var fate := FateOf(start, events, t);
    if fate.Current? || fate.Replaced? || fate.StoppedLate? { LeavesSomething(groups[t], fate.mark); }
  }

  /** What one more call does to the settings and to every fate. */
  lemma FatesMove(start: Settings, events: seq<Event>, e: Event)
    requires start.active == ""
    ensures SettingsAfter(start, events + [e]) == After(SettingsAfter(start, events), e)
    ensures forall t :: FateOf(start, events + [e], t) == Next(SettingsAfter(start, events), FateOf(start, events, t), e, t)
    ensures forall t :: t != "" ==> (FateOf(start, events, t).Current? <==> SettingsAfter(start, events).active == t)
  {
    assert (events + [e])[..|events|] == events;
    forall t | t != "" ensures FateOf(start, events, t).Current? <==> SettingsAfter(start, events).active == t {
      CurrentIsActive(start, events, t);
    }
  }

  // ---- When nothing outlives its tunnel ------------------------------------

  /** No tunnel is started while another one is active, and every removal runs. */
  predicate Orderly(start: Settings, events: seq<Event>) {
    events == []
    || var front, e := events[..|events| - 1], events[|events| - 1];
       var active := SettingsAfter(start, front).active;
       Orderly(start, front)
       && (e.StateChange? && e.state.Started? ==> active == "" || active == e.name)
       && (e.StateChange? && e.state.Stopped? && active == e.name ==> e.outcome.Ran?)
  }

  /** Then no rules outlive a tunnel of this run of the program. */
  lemma {:induction false} OrderlyLeavesNothing(start: Settings, events: seq<Event>, t: string)
    requires start.active == "" && t != "" && Orderly(start, events)
    ensures var fate := FateOf(start, events, t); fate.Never? || fate.Current? || fate.Removed?
    decreases |events|
  {
    if events != [] {
      var front := events[..|events| - 1];
      OrderlyLeavesNothing(start, front, t);
      CurrentIsActive(start, front, t);
    }
  }

  /** The rules of the first of two tunnels survive its stop when the second one
      was started in between, and go with its next start and stop. */
  lemma SecondStartLeavesRules(start: Settings, a: string, b: string)
    requires start.active == "" && a != "" && b != "" && a != b
    ensures var late := [StateChange(a, Started, Ran), StateChange(b, Started, Ran), StateChange(a, Stopped, Ran)];
            FateOf(start, late, a) == StoppedLate(Mark(start.mode, start.rules, Ran))
            && FateOf(start, late + [StateChange(a, Started, Ran), StateChange(a, Stopped, Ran)], a) == Removed
  {
    var e1, e2, e3 := StateChange(a, Started, Ran), StateChange(b, Started, Ran), StateChange(a, Stopped, Ran);
    FatesMove(start, [], e1);
    FatesMove(start, [e1], e2);
    FatesMove(start, [e1] + [e2], e3);
    FatesMove(start, [e1] + [e2] + [e3], e1);
    FatesMove(start, [e1] + [e2] + [e3] + [e1], e3);
    assert [e1, e2, e3] == [e1] + [e2] + [e3] && [] + [e1] == [e1];
    assert [e1, e2, e3] + [e1, e3] == [e1] + [e2] + [e3] + [e1] + [e3];
  }
}
