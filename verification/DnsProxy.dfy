// The DNS proxy: how a query is answered, and which addresses get a route first.
module DnsProxy {
  import opened Text
  import opened DomainRules
  import opened RoutingState
  import opened DomainRouting

  datatype QueryType = A | Aaaa | Any | OtherType

  datatype Question = Question(name: string, kind: QueryType)

  /** An address of a local record. */
  datatype LocalAddress = Local4(ip: nat) | Local6(ip: nat)

  /** A record of an answer. An A record may hold no IPv4 address. */
  datatype Record = ARecord(ip: Option<nat>, ttl: nat) | OtherRecord

  datatype Reply = FormatError | NameError | ServerFailure | NoAnswers | LocalAnswer(address: LocalAddress) | Upstream(answers: seq<Record>)

  // ---- What to answer ------------------------------------------------------

  function QueryName(q: Question): string { TrimDot(Lower(q.name)) }

  function LocalReply(kind: QueryType, address: LocalAddress): Reply {
    match kind
    case A => if address.Local4? then LocalAnswer(address) else NoAnswers
    case Aaaa => if address.Local6? then LocalAnswer(address) else NoAnswers
    case Any => LocalAnswer(address)
    case OtherType => NoAnswers
  }

  datatype Plan = AnswerNow(reply: Reply) | AskUpstream(target: Target)

  /** The part of the decision in front of any upstream query. */
  function PlanFor(questions: seq<Question>, disableIPv6: bool, local: string -> Option<LocalAddress>, p: Policy): Plan {
    if questions == [] then AnswerNow(FormatError)
    else
      var q := questions[0];
      if q.kind == Aaaa && disableIPv6 then AnswerNow(NoAnswers)
      else if local(QueryName(q)).Some? then AnswerNow(LocalReply(q.kind, local(QueryName(q)).value))
      else
        var target := Decided(p.listMode, p.rules, NormalizeDomain(QueryName(q)));
        if target == Block then AnswerNow(NameError) else AskUpstream(target)
  }

  /** The dot behind the last label does not count, and neither does the case. */
  lemma NamesAlike(name: string, other: string, kind: QueryType)
    requires !HasSuffix(name, ".") && Lower(other) == Lower(name)
    ensures QueryName(Question(other, kind)) == Lower(name) == QueryName(Question(other + ".", kind))
  {
    var dotted := Lower(other + ".");
    assert dotted == Lower(other) + ".";
    assert dotted[..|dotted| - 1] == Lower(other);
    if other != "" { assert Lower(name)[|name| - 1] == LowerChar(name[|name| - 1]); }
    assert !HasSuffix(Lower(name), ".") by {
      if name != "" { assert name[|name| - 1..] == [name[|name| - 1]]; }
    }
  }

  /** All the answers that need no upstream query, and no others: an error for an
      empty message, "no such name" for a blocked one, the local address for a
      query of its own kind or for any, and no records otherwise. */
  lemma WhatIsAnswered(questions: seq<Question>, disableIPv6: bool, local: string -> Option<LocalAddress>, p: Policy)
    ensures var plan := PlanFor(questions, disableIPv6, local, p);
            if questions == [] then plan == AnswerNow(FormatError)
            else
              var kind, name := questions[0].kind, Lower(questions[0].name);
              var own := local(TrimDot(name));
              var off := kind == Aaaa && disableIPv6;
              && (plan == AnswerNow(NameError) <==> !off && own.None? && InZone(NormalizeDomain(TrimDot(name)), p.rules.block)
                                                    && NormalizeDomain(TrimDot(name)) != "")
              && (forall a :: plan == AnswerNow(LocalAnswer(a)) <==>
                    !off && own == Some(a) && (kind == Any || (kind == A && a.Local4?) || (kind == Aaaa && a.Local6?)))
              && (plan == AnswerNow(NoAnswers) <==>
                    off || (own.Some? && (kind == OtherType || (kind == A && own.value.Local6?) || (kind == Aaaa && own.value.Local4?))))
              && (plan.AskUpstream? || plan.reply == NameError || plan.reply == NoAnswers || plan.reply.LocalAnswer?)
  {
    if questions != [] { MatchIsZone(NormalizeDomain(QueryName(questions[0])), p.rules.block); }
  }

  /** A blocked name is never asked upstream, and neither is an IPv6 query while
      IPv6 is off; a local record takes precedence over the block list. */
  lemma WhatIsAsked(questions: seq<Question>, disableIPv6: bool, local: string -> Option<LocalAddress>, p: Policy)
    requires questions != []
    ensures var q, plan := questions[0], PlanFor(questions, disableIPv6, local, p);
            var d := NormalizeDomain(QueryName(q));
            plan.AskUpstream? <==>
              !(q.kind == Aaaa && disableIPv6) && local(QueryName(q)).None? && (d == "" || !MatchDomain(d, p.rules.block))
  {}

  // ---- Routes before the answer --------------------------------------------

  /** The locked step for one record: what other threads did before it, its time
      and its outcomes. */
  datatype Moment = Moment(others: seq<Event>, now: int, env: Env)

  /** The state and whether all went well, after all records. */
  function RouteAll(s: State, records: seq<Record>, target: Target, moments: seq<Moment>): (State, bool)
    requires |moments| == |records|
  {
    if records == [] then (s, true)
    else
      var n := |records| - 1;
      var (before, ok) := RouteAll(s, records[..n], target, moments[..n]);
      var (after, done) := RouteOne(Run(before, moments[n].others), records[n], target, moments[n]);
      (after, ok && done)
  }

  predicate HasAddress(r: Record) { r.ARecord? && r.ip.Some? }

  /** Without a routing mode and a tunnel there is nothing to do. */
  predicate Routing(s: State) { s.policy.mode != Off && s.tunnel.active != "" }

  function RouteOne(s: State, record: Record, target: Target, m: Moment): (State, bool) {
    if !HasAddress(record) then (s, true)
    else (Step(s, AddressAnswered(record.ip.value, target, record.ttl, m.now), m.env),
          !Routing(s) || AddRoute(s.routes, s.tunnel, record.ip.value, target, Expiry(m.now, record.ttl), m.env).1)
  }

  /** What other threads do before the decision, the look at the mode, and the
      look at the tunnel. */
  datatype Gaps = Gaps(decision: seq<Event>, mode: seq<Event>, tunnel: seq<Event>)

  /** Routes are set only in a routing mode, for a name with a target, and while
      a tunnel is active. */
  predicate SetsRoutes(mode: Mode, target: Target, active: string) {
    mode != Off && mode != DnsOnly && target != NoTarget && active != ""
  }

  function AfterUpstream(s: State, gaps: Gaps, target: Target, answers: Option<seq<Record>>, moments: seq<Moment>): (State, Reply)
    requires answers.Some? ==> |moments| == |answers.value|
  {
    var looked := Run(s, gaps.mode);
    if answers.None? then (looked, ServerFailure)
    else
      var mode, now := looked.policy.mode, Run(looked, gaps.tunnel);
      if !SetsRoutes(mode, target, now.tunnel.active) then (now, Upstream(answers.value))
      else
        var (after, ok) := RouteAll(now, answers.value, target, moments);
        (after, if !ok && mode == Strict then ServerFailure else Upstream(answers.value))
  }

  /** The address has an entry that lives five minutes at least. */
  predicate TrackedUntil(r: Routes, ip: nat, now: int) {
    ip in r.entries && r.entries[ip].expires >= now + MIN_TTL
  }

  /** Each address of the answer got its entry in its own step, unless there was
      no routing at that moment any more. */
  ghost predicate EachTracked(s: State, records: seq<Record>, target: Target, moments: seq<Moment>)
    requires |moments| == |records|
    decreases |records|
  {
    records == []
    || var n := |records| - 1;
       var before := Run(RouteAll(s, records[..n], target, moments[..n]).0, moments[n].others);
       EachTracked(s, records[..n], target, moments[..n])
       && (HasAddress(records[n]) && Routing(before) ==>
             TrackedUntil(RouteOne(before, records[n], target, moments[n]).0.routes, records[n].ip.value, moments[n].now))
  }

  lemma {:induction false} RoutedMeansTracked(s: State, records: seq<Record>, target: Target, moments: seq<Moment>)
    requires |moments| == |records| && RouteAll(s, records, target, moments).1
    ensures EachTracked(s, records, target, moments)
    decreases |records|
  {
    if records != [] {
      var n := |records| - 1;
      RoutedMeansTracked(s, records[..n], target, moments[..n]);
    }
  }

  /** Each address of the answer had an entry already in its own step, or could be
      added, unless there was no routing at that moment any more. */
  ghost predicate EachFine(s: State, records: seq<Record>, target: Target, moments: seq<Moment>)
    requires |moments| == |records|
    decreases |records|
  {
    records == []
    || var n := |records| - 1;
       var before := Run(RouteAll(s, records[..n], target, moments[..n]).0, moments[n].others);
       EachFine(s, records[..n], target, moments[..n])
       && (HasAddress(records[n]) && before.policy.mode != Off && before.tunnel.active != "" ==>
             records[n].ip.value in before.routes.entries
             || (Reaches(before.tunnel, target) && records[n].ip.value !in moments[n].env.failing))
  }

  lemma {:induction false} FineMeansRouted(s: State, records: seq<Record>, target: Target, moments: seq<Moment>)
    requires |moments| == |records| && (target == Tunnel || target == Direct)
    ensures RouteAll(s, records, target, moments).1 <==> EachFine(s, records, target, moments)
    decreases |records|
  {
    if records != [] {
      var n := |records| - 1;
      FineMeansRouted(s, records[..n], target, moments[..n]);
    }
  }

  /** In strict mode an answer with a target reaches the client, whatever other
      threads did meanwhile, exactly when no tunnel was active or each of its
      IPv4 addresses was or could be tracked; and then each has been. */
  lemma StrictInterleaved(s: State, gaps: Gaps, target: Target, answers: seq<Record>, moments: seq<Moment>)
    requires |moments| == |answers| && Run(s, gaps.mode).policy.mode == Strict && (target == Tunnel || target == Direct)
    ensures var now, reply := Run(Run(s, gaps.mode), gaps.tunnel), AfterUpstream(s, gaps, target, Some(answers), moments).1;
            && (reply == Upstream(answers) <==> now.tunnel.active == "" || EachFine(now, answers, target, moments))
            && (reply == Upstream(answers) ==> now.tunnel.active == "" || EachTracked(now, answers, target, moments))
  {
    var now := Run(Run(s, gaps.mode), gaps.tunnel);
    FineMeansRouted(now, answers, target, moments);
    if now.tunnel.active != "" && RouteAll(now, answers, target, moments).1 {
      RoutedMeansTracked(now, answers, target, moments);
    }
  }

  /** The interface that a target's routes are meant for. */
  function InterfaceFor(t: TunnelInfo, target: Target): nat {
    if target.Tunnel? then t.luid else t.defaultRoute.luid
  }

  /** A routed address is on the interface of its target exactly when it was not
      tracked yet or was there already: an entry never moves. */
  lemma EntriesNeverMove(r: Routes, t: TunnelInfo, ip: nat, target: Target, expires: int, env: Env)
    requires (target == Tunnel || target == Direct) && AddRoute(r, t, ip, target, expires, env).1
    ensures var e := AddRoute(r, t, ip, target, expires, env).0.entries[ip];
            e.target == target
            && (e.luid == InterfaceFor(t, target) <==> ip in r.entries ==> r.entries[ip].luid == InterfaceFor(t, target))
  {}

  // ---- One query alone -----------------------------------------------------

  predicate Alone(moments: seq<Moment>) { forall i :: 0 <= i < |moments| ==> moments[i].others == [] }

  const NO_GAPS := Gaps([], [], [])

  predicate AllTracked(r: Routes, records: seq<Record>, now: int) {
    forall i :: 0 <= i < |records| && HasAddress(records[i]) ==> TrackedUntil(r, records[i].ip.value, now)
  }

  /** The system has a route for the address, on the interface of its entry. */
  predicate RoutedInSystem(r: Routes, ip: nat) {
    ip in r.entries && HasRoute(r.table, ip, r.entries[ip].luid)
  }

  predicate Names(r: Record, ip: nat) { HasAddress(r) && r.ip.value == ip }

  predicate Named(records: seq<Record>, ip: nat) { exists i :: 0 <= i < |records| && Names(records[i], ip) }

  ghost predicate LastNames(records: seq<Record>, l: int, ip: nat) {
    0 <= l < |records| && Names(records[l], ip) && forall i :: l < i < |records| ==> !Names(records[i], ip)
  }

  /** The table could be read and the route added when a record with the address
      came. */
  predicate CanAdd(records: seq<Record>, moments: seq<Moment>, ip: nat)
    requires |moments| == |records|
  {
    exists i :: 0 <= i < |records| && Names(records[i], ip) && moments[i].env.tableRead && ip !in moments[i].env.failing
  }

  /** The interface of the target is known, and the way behind it. */
  predicate Reaches(t: TunnelInfo, target: Target) {
    InterfaceFor(t, target) != 0 && (target.Tunnel? || t.defaultRoute.nextHop.Some?)
  }

  function HopFor(t: TunnelInfo, target: Target): nat
    requires Reaches(t, target)
  {
    if target.Tunnel? then 0 else t.defaultRoute.nextHop.value
  }

  function MetricFor(t: TunnelInfo, target: Target): nat { if target.Tunnel? then 0 else t.defaultRoute.metric }

  /** A route for a new address could be added when a record with it came. */
  predicate Enters(t: TunnelInfo, target: Target, records: seq<Record>, moments: seq<Moment>, ip: nat)
    requires |moments| == |records|
  {
    Reaches(t, target) && exists i :: 0 <= i < |records| && Names(records[i], ip) && ip !in moments[i].env.failing
  }

  /** Living as long as the last record with it says, but five minutes at least. */
  ghost predicate LivesAsSaid(e: Entry, records: seq<Record>, moments: seq<Moment>, ip: nat)
    requires |moments| == |records|
  {
    exists l :: LastNames(records, l, ip)
                && e.expires == if records[l].ttl > 300 then moments[l].now + records[l].ttl else moments[l].now + 300
  }

  /** The entry of an address after all records: as it was, or for the target; on
      the interface that it had, or on that of the target when it is new. */
  ghost predicate EntrySo(r: Routes, t: TunnelInfo, after: Routes, target: Target, records: seq<Record>, moments: seq<Moment>, ip: nat)
    requires |moments| == |records|
  {
    && (ip in after.entries <==> ip in r.entries || Enters(t, target, records, moments, ip))
    && (ip in after.entries && !Named(records, ip) ==> after.entries[ip] == r.entries[ip])
    && (ip in after.entries && Named(records, ip) ==>
          var e := after.entries[ip];
          e.target == target && LivesAsSaid(e, records, moments, ip)
          && e.ToRoute() == (if ip in r.entries then r.entries[ip].ToRoute() else Route(ip, InterfaceFor(t, target), HopFor(t, target)))
          && e.metric == if ip in r.entries then r.entries[ip].metric else MetricFor(t, target))
  }

  /** The route that the records add for an address: that of its entry, unless it
      had one already or the route was lost and cannot be added again. */
  predicate Adds(r: Routes, after: Routes, records: seq<Record>, moments: seq<Moment>, ip: nat)
    requires |moments| == |records|
  {
    ip in after.entries && if ip in r.entries then !RoutedInSystem(r, ip) && CanAdd(records, moments, ip) else true
  }

  predicate RouteSo(r: Routes, after: Routes, records: seq<Record>, moments: seq<Moment>, route: Route)
    requires |moments| == |records|
  {
    route in after.table <==>
      route in r.table || (Adds(r, after, records, moments, route.ip) && route == after.entries[route.ip].ToRoute())
  }

  /** A new address that had its chances and could not be added. */
  predicate Fails(r: Routes, t: TunnelInfo, target: Target, records: seq<Record>, moments: seq<Moment>, i: int)
    requires |moments| == |records|
  {
    0 <= i < |records| && HasAddress(records[i])
    && var ip := records[i].ip.value; ip !in r.entries && !Enters(t, target, records[..i + 1], moments[..i + 1], ip)
  }

  predicate Keyed(r: Routes) { forall ip :: ip in r.entries ==> r.entries[ip].ip == ip }

  /** The routes before and after one record, and whether it went well. */
  ghost predicate OneRecord(before: Routes, t: TunnelInfo, after: Routes, done: bool, target: Target, record: Record, m: Moment) {
    if !HasAddress(record) then after == before && done else OneAddress(before, t, after, done, target, record.ip.value, Expiry(m.now, record.ttl), m.env)
  }

  ghost predicate OneAddress(before: Routes, t: TunnelInfo, after: Routes, done: bool, target: Target, at: nat, expires: int, env: Env) {
    && (done <==> at in before.entries || (Reaches(t, target) && at !in env.failing))
    && (done <==> at in after.entries)
    && (forall ip :: ip != at ==> (ip in after.entries <==> ip in before.entries))
    && (forall ip :: ip != at && ip in after.entries ==> after.entries[ip] == before.entries[ip])
    && (done ==>
          var e := after.entries[at];
          e.target == target && e.expires == expires
          && e.ToRoute() == (if at in before.entries then before.entries[at].ToRoute() else Route(at, InterfaceFor(t, target), HopFor(t, target)))
          && e.metric == if at in before.entries then before.entries[at].metric else MetricFor(t, target))
    && (forall route: Route :: route in after.table <==>
          route in before.table
          || (done && (at in before.entries ==> env.tableRead && at !in env.failing && !RoutedInSystem(before, at))
              && route == after.entries[at].ToRoute()))
  }

  lemma OneAdded(before: Routes, t: TunnelInfo, at: nat, target: Target, expires: int, env: Env)
    requires target == Tunnel || target == Direct
    ensures var (after, done) := AddRoute(before, t, at, target, expires, env);
            OneAddress(before, t, after, done, target, at, expires, env) && (Keyed(before) ==> Keyed(after))
  {}

  lemma NamedMore(records: seq<Record>, ip: nat)
    requires records != []
    ensures var n := |records| - 1;
            && (Named(records, ip) <==> Named(records[..n], ip) || Names(records[n], ip))
            && (Names(records[n], ip) ==> LastNames(records, n, ip))
            && (!Names(records[n], ip) ==> forall l :: LastNames(records[..n], l, ip) ==> LastNames(records, l, ip))
  {
    var n := |records| - 1;
    assert forall i :: 0 <= i < n ==> records[..n][i] == records[i];
  }

  lemma ChancesMore(t: TunnelInfo, target: Target, records: seq<Record>, moments: seq<Moment>, ip: nat)
    requires |moments| == |records| && records != []
    ensures var n := |records| - 1;
            && (CanAdd(records, moments, ip) <==>
                  CanAdd(records[..n], moments[..n], ip)
                  || (Names(records[n], ip) && moments[n].env.tableRead && ip !in moments[n].env.failing))
            && (Enters(t, target, records, moments, ip) <==>
                  Enters(t, target, records[..n], moments[..n], ip)
                  || (Names(records[n], ip) && Reaches(t, target) && ip !in moments[n].env.failing))
  {
    var n := |records| - 1;
    assert forall i :: 0 <= i < n ==> records[..n][i] == records[i] && moments[..n][i] == moments[i];
  }

  lemma LivesMore(e: Entry, records: seq<Record>, moments: seq<Moment>, ip: nat)
    requires |moments| == |records| && records != []
    ensures var n := |records| - 1;
            if Names(records[n], ip) then e.expires == Expiry(moments[n].now, records[n].ttl) ==> LivesAsSaid(e, records, moments, ip)
            else LivesAsSaid(e, records[..n], moments[..n], ip) ==> LivesAsSaid(e, records, moments, ip)
  {
    var n := |records| - 1;
    NamedMore(records, ip);
    if !Names(records[n], ip) && LivesAsSaid(e, records[..n], moments[..n], ip) {
      var l :| LastNames(records[..n], l, ip)
               && e.expires == if records[..n][l].ttl > 300 then moments[..n][l].now + records[..n][l].ttl else moments[..n][l].now + 300;
      assert LastNames(records, l, ip) && records[..n][l] == records[l] && moments[..n][l] == moments[l];
    }
  }

  lemma EntryMore(r: Routes, t: TunnelInfo, before: Routes, after: Routes, done: bool, target: Target,
      records: seq<Record>, moments: seq<Moment>, ip: nat)
    requires |moments| == |records| && records != [] && Keyed(r)
    requires var n := |records| - 1;
             EntrySo(r, t, before, target, records[..n], moments[..n], ip)
             && OneRecord(before, t, after, done, target, records[n], moments[n])
    ensures EntrySo(r, t, after, target, records, moments, ip)
  {
    NamedMore(records, ip);
    ChancesMore(t, target, records, moments, ip);
    if ip in after.entries { LivesMore(after.entries[ip], records, moments, ip); }
  }

  lemma RouteMore(r: Routes, t: TunnelInfo, before: Routes, after: Routes, done: bool, target: Target,
      records: seq<Record>, moments: seq<Moment>, route: Route)
    requires |moments| == |records| && records != [] && Keyed(r) && Keyed(after)
    requires var n := |records| - 1;
             EntrySo(r, t, before, target, records[..n], moments[..n], route.ip)
             && (forall other: Route :: RouteSo(r, before, records[..n], moments[..n], other))
             && OneRecord(before, t, after, done, target, records[n], moments[n])
    ensures RouteSo(r, after, records, moments, route)
  {
    var n, ip := |records| - 1, route.ip;
    NamedMore(records, ip);
    ChancesMore(t, target, records, moments, ip);
    assert RouteSo(r, before, records[..n], moments[..n], route);
    if Names(records[n], ip) && ip in before.entries {
      RoutedBefore(r, before, records[..n], moments[..n], ip);
    }
  }

  /** Whether an address has its route by now. */
  lemma RoutedBefore(r: Routes, before: Routes, records: seq<Record>, moments: seq<Moment>, ip: nat)
    requires |moments| == |records| && ip in before.entries && before.entries[ip].ip == ip
    requires ip in r.entries ==> before.entries[ip].ToRoute() == r.entries[ip].ToRoute()
    requires forall other :: RouteSo(r, before, records, moments, other)
    ensures RoutedInSystem(before, ip) <==> RoutedInSystem(r, ip) || Adds(r, before, records, moments, ip)
  {
    var e := before.entries[ip];
    assert RouteSo(r, before, records, moments, e.ToRoute());
    if RoutedInSystem(before, ip) {
      var route :| route in before.table && route.ip == ip && route.luid == e.luid;
      assert RouteSo(r, before, records, moments, route);
    }
    if RoutedInSystem(r, ip) {
      var route :| route in r.table && route.ip == ip && route.luid == r.entries[ip].luid;
      assert RouteSo(r, before, records, moments, route);
    }
  }

  lemma FailsMore(r: Routes, t: TunnelInfo, before: Routes, after: Routes, done: bool, target: Target,
      records: seq<Record>, moments: seq<Moment>)
    requires |moments| == |records| && records != []
    requires var n := |records| - 1;
             (forall ip :: EntrySo(r, t, before, target, records[..n], moments[..n], ip))
             && OneRecord(before, t, after, done, target, records[n], moments[n])
    ensures var n := |records| - 1;
            (exists i :: Fails(r, t, target, records, moments, i)) <==>
            (exists i :: Fails(r, t, target, records[..n], moments[..n], i)) || !done
  {
    var n := |records| - 1;
    forall i ensures Fails(r, t, target, records, moments, i) <==> if i == n then !done else Fails(r, t, target, records[..n], moments[..n], i) {
      if 0 <= i < n {
        assert records[..n][..i + 1] == records[..i + 1] && moments[..n][..i + 1] == moments[..i + 1];
      } else if i == n && HasAddress(records[n]) {
        var ip := records[n].ip.value;
        assert records[..n + 1] == records && moments[..n + 1] == moments;
        assert EntrySo(r, t, before, target, records[..n], moments[..n], ip);
        ChancesMore(t, target, records, moments, ip);
      }
    }
    if !done { assert Fails(r, t, target, records, moments, n); }
    if i :| Fails(r, t, target, records[..n], moments[..n], i) { assert Fails(r, t, target, records, moments, i); }
  }

  ghost predicate AllSo(r: Routes, t: TunnelInfo, after: Routes, ok: bool, target: Target, records: seq<Record>, moments: seq<Moment>)
    requires |moments| == |records|
  {
    && Keyed(after)
    && (forall ip :: EntrySo(r, t, after, target, records, moments, ip))
    && (forall route :: RouteSo(r, after, records, moments, route))
    && (ok <==> !exists i :: Fails(r, t, target, records, moments, i))
  }

  lemma RecordMore(r: Routes, t: TunnelInfo, before: Routes, after: Routes, fine: bool, done: bool, target: Target,
      records: seq<Record>, moments: seq<Moment>)
    requires |moments| == |records| && records != [] && Keyed(r) && Keyed(after)
    requires var n := |records| - 1;
             AllSo(r, t, before, fine, target, records[..n], moments[..n])
             && OneRecord(before, t, after, done, target, records[n], moments[n])
    ensures AllSo(r, t, after, fine && done, target, records, moments)
  {
    forall ip ensures EntrySo(r, t, after, target, records, moments, ip) {
      EntryMore(r, t, before, after, done, target, records, moments, ip);
    }
    forall route ensures RouteSo(r, after, records, moments, route) {
      RouteMore(r, t, before, after, done, target, records, moments, route);
    }
    FailsMore(r, t, before, after, done, target, records, moments);
  }

  /** What the records of a query alone do to the entries and the routes. */
  lemma {:induction false} AllRecords(s: State, target: Target, records: seq<Record>, moments: seq<Moment>)
    requires |moments| == |records| && Routing(s) && Keyed(s.routes) && Alone(moments) && (target == Tunnel || target == Direct)
    ensures var (after, ok) := RouteAll(s, records, target, moments);
            after == s.(routes := after.routes) && AllSo(s.routes, s.tunnel, after.routes, ok, target, records, moments)
    decreases |records|
  {
    if records != [] {
      var n := |records| - 1;
      AllRecords(s, target, records[..n], moments[..n]);
      var (before, fine) := RouteAll(s, records[..n], target, moments[..n]);
      assert Run(before, moments[n].others) == before;
      var (after, done) := RouteOne(before, records[n], target, moments[n]);
      if HasAddress(records[n]) {
        OneAdded(before.routes, before.tunnel, records[n].ip.value, target, Expiry(moments[n].now, records[n].ttl), moments[n].env);
      }
      RecordMore(s.routes, s.tunnel, before.routes, after.routes, fine, done, target, records, moments);
    }
  }

  /** One query alone, in a routing mode with a tunnel active and a target. The
      entries and the routes afterwards are known for every address, and nothing
      else changes. The answer reaches the client, but for strict mode and a new
      address that could not be added. */
  lemma QueryAlone(s: State, target: Target, answers: seq<Record>, moments: seq<Moment>)
    requires |moments| == |answers| && Alone(moments) && Keyed(s.routes)
    requires (s.policy.mode == Relaxed || s.policy.mode == Strict) && s.tunnel.active != "" && (target == Tunnel || target == Direct)
    ensures var (after, reply) := AfterUpstream(s, NO_GAPS, target, Some(answers), moments);
            && after == s.(routes := after.routes)
            && (forall ip :: EntrySo(s.routes, s.tunnel, after.routes, target, answers, moments, ip))
            && (forall route :: RouteSo(s.routes, after.routes, answers, moments, route))
            && reply == if s.policy.mode == Strict && exists i :: Fails(s.routes, s.tunnel, target, answers, moments, i) then ServerFailure
                        else Upstream(answers)
  {
    AllRecords(s, target, answers, moments);
  }

  /** So every address in the answer whose route could be added has its entry and
      its route afterwards. */
  lemma NamedIsRouted(s: State, target: Target, answers: seq<Record>, moments: seq<Moment>, i: int, now: int)
    requires |moments| == |answers| && Alone(moments) && Keyed(s.routes) && forall k :: 0 <= k < |moments| ==> now <= moments[k].now
    requires (s.policy.mode == Relaxed || s.policy.mode == Strict) && s.tunnel.active != "" && (target == Tunnel || target == Direct)
    requires 0 <= i < |answers| && HasAddress(answers[i]) && moments[i].env.tableRead && answers[i].ip.value !in moments[i].env.failing
    ensures var (after, ip) := (AfterUpstream(s, NO_GAPS, target, Some(answers), moments).0, answers[i].ip.value);
            ip in s.routes.entries || Reaches(s.tunnel, target) ==>
              TrackedUntil(after.routes, ip, now) && after.routes.entries[ip].target == target && RoutedInSystem(after.routes, ip)
  {
    var (after, ip) := (AfterUpstream(s, NO_GAPS, target, Some(answers), moments).0, answers[i].ip.value);
    AllRecords(s, target, answers, moments);
    assert Names(answers[i], ip) && Named(answers, ip);
    assert EntrySo(s.routes, s.tunnel, after.routes, target, answers, moments, ip);
    if ip in after.routes.entries { RoutedBefore(s.routes, after.routes, answers, moments, ip); }
  }

  /** Whatever other threads do: without a routing mode, a target or a tunnel the
      query itself changes nothing; outside strict mode the answer always reaches
      the client as it came. */
  lemma OnlyStrictFails(s: State, gaps: Gaps, target: Target, answers: seq<Record>, moments: seq<Moment>)
    requires |moments| == |answers|
    ensures var looked := Run(s, gaps.mode);
            var now, (after, reply) := Run(looked, gaps.tunnel), AfterUpstream(s, gaps, target, Some(answers), moments);
            && (looked.policy.mode == Off || looked.policy.mode == DnsOnly || target == NoTarget || now.tunnel.active == "" ==>
                  after == now && reply == Upstream(answers))
            && (looked.policy.mode != Strict ==> reply == Upstream(answers))
    ensures AfterUpstream(s, gaps, target, None, moments) == (Run(s, gaps.mode), ServerFailure)
  {}

  /** In strict mode with a tunnel active, an answer that reaches the client for
      a name with a target has an entry for every IPv4 address in it. The system
      has a route for all of them exactly when each one that was tracked already
      and had lost its route could get it back: a failure of that is not
      reported. */
  lemma StrictSound(s: State, target: Target, answers: seq<Record>, moments: seq<Moment>, now: int)
    requires |moments| == |answers| && Alone(moments) && Keyed(s.routes) && forall k :: 0 <= k < |moments| ==> now <= moments[k].now
    requires s.policy.mode == Strict && s.tunnel.active != "" && (target == Tunnel || target == Direct)
    ensures var (after, reply) := AfterUpstream(s, NO_GAPS, target, Some(answers), moments);
            reply == Upstream(answers) ==>
              AllTracked(after.routes, answers, now)
              && ((forall ip :: Named(answers, ip) ==> RoutedInSystem(after.routes, ip)) <==>
                  (forall ip :: Named(answers, ip) && ip in s.routes.entries && !RoutedInSystem(s.routes, ip) ==>
                     CanAdd(answers, moments, ip)))
  {
    var (after, ok) := RouteAll(s, answers, target, moments);
    AllRecords(s, target, answers, moments);
    if ok {
      forall ip | Named(answers, ip)
        ensures TrackedUntil(after.routes, ip, now)
        ensures RoutedInSystem(after.routes, ip) <==>
                (ip in s.routes.entries && !RoutedInSystem(s.routes, ip) ==> CanAdd(answers, moments, ip))
      {
        NamedHere(s.routes, s.tunnel, after.routes, target, answers, moments, ip);
        RoutedBefore(s.routes, after.routes, answers, moments, ip);
      }
      forall i | 0 <= i < |answers| && HasAddress(answers[i]) ensures TrackedUntil(after.routes, answers[i].ip.value, now) {
        assert Names(answers[i], answers[i].ip.value);
        assert Named(answers, answers[i].ip.value);
      }
    }
  }

  /** Nothing fails only when each address has its entry. */
  lemma NamedHere(r: Routes, t: TunnelInfo, after: Routes, target: Target, records: seq<Record>, moments: seq<Moment>, ip: nat)
    requires |moments| == |records| && AllSo(r, t, after, true, target, records, moments) && Named(records, ip)
    ensures ip in after.entries && EntrySo(r, t, after, target, records, moments, ip)
  {
    var i :| 0 <= i < |records| && Names(records[i], ip);
    assert EntrySo(r, t, after, target, records, moments, ip);
    assert !Fails(r, t, target, records, moments, i);
    if ip !in r.entries {
      var k :| 0 <= k < i + 1 && Names(records[..i + 1][k], ip) && ip !in moments[..i + 1][k].env.failing;
      assert Names(records[k], ip) && ip !in moments[k].env.failing;
    }
  }

  /** The answer for a tracked address whose route is gone and cannot be added
      again reaches the client in strict mode without a route. */
  lemma UnroutedIsDelivered(s: State, ip: nat, ttl: nat, m: Moment)
    requires s.policy.mode == Strict && s.tunnel.active != "" && ip in s.routes.entries
    requires !HasRoute(s.routes.table, ip, s.routes.entries[ip].luid)
    requires m.others == [] && ip in m.env.failing
    ensures var answers := [ARecord(Some(ip), ttl)];
            var (after, reply) := AfterUpstream(s, NO_GAPS, Tunnel, Some(answers), [m]);
            reply == Upstream(answers) && !RoutedInSystem(after.routes, ip)
  {
    var answers := [ARecord(Some(ip), ttl)];
    assert answers[..0] == [] && [m][..0] == [];
    assert RouteAll(s, answers[..0], Tunnel, [m][..0]) == (s, true);
  }

  /** The cleanup drops exactly what has expired, and its routes. */
  lemma CleanupIsExact(r: Routes, now: int, stuck: set<nat>, ip: nat)
    requires Keyed(r)
    ensures var after := DropEntries(r, Expired(r.entries, now), stuck);
            && (ip in after.entries <==> ip in r.entries && r.entries[ip].expires > now)
            && (ip in after.entries ==> after.entries[ip] == r.entries[ip])
            && forall route :: route in r.table ==>
                 (route !in after.table <==>
                    route.ip in r.entries && r.entries[route.ip].expires <= now && route.ip !in stuck
                    && r.entries[route.ip].ToRoute() == route)
  {
    var gone := Expired(r.entries, now) - stuck;
    forall route: Route
      ensures route in RoutesOf(r.entries, gone) <==>
              route.ip in r.entries && r.entries[route.ip].expires <= now && route.ip !in stuck
              && r.entries[route.ip].ToRoute() == route
    {
      if route.ip in r.entries && r.entries[route.ip].ToRoute() == route {
        assert route.ip in gone ==> route in RoutesOf(r.entries, gone);
      }
    }
  }

  // ---- The handler ---------------------------------------------------------

  method ApplyRoutesFromResponse(m: Manager, answers: seq<Record>, target: Target, moments: seq<Moment>) returns (ok: bool)
    requires |moments| == |answers| && (target == Tunnel || target == Direct)
    modifies m
    ensures (m.View(), ok) == RouteAll(old(m.View()), answers, target, moments)
  {
    ok := true;
    ghost var s := m.View();
    for k := 0 to |answers|
      invariant (m.View(), ok) == RouteAll(s, answers[..k], target, moments[..k])
    {
      assert answers[..k + 1][..k] == answers[..k] && moments[..k + 1][..k] == moments[..k];
      var done := ApplyRecord(m, answers[k], target, moments[k]);
      if !done { ok := false; }
    }
    assert answers[..|answers|] == answers && moments[..|moments|] == moments;
  }

  method ApplyRecord(m: Manager, record: Record, target: Target, moment: Moment) returns (ok: bool)
    requires target == Tunnel || target == Direct
    modifies m
    ensures (m.View(), ok) == RouteOne(Run(old(m.View()), moment.others), record, target, moment)
  {
    m.Others(moment.others);
    match record {
      case OtherRecord => ok := true;
      case ARecord(ip, ttl) =>
        ok := true;
        if ip.Some? { ok := m.AddRouteForIP(ip.value, target, ttl, moment.now, moment.env); }
    }
  }

  method HandleDNSQuery(m: Manager, questions: seq<Question>, disableIPv6: bool, local: string -> Option<LocalAddress>,
      answers: Option<seq<Record>>, gaps: Gaps, moments: seq<Moment>) returns (reply: Reply)
    requires answers.Some? ==> |moments| == |answers.value|
    modifies m
    ensures var decided := Run(old(m.View()), gaps.decision);
            match PlanFor(questions, disableIPv6, local, decided.policy)
            case AnswerNow(r) => reply == r && m.View() in {decided, old(m.View())}
            case AskUpstream(target) => (m.View(), reply) == AfterUpstream(decided, gaps, target, answers, moments)
  {
    if |questions| == 0 { return FormatError; }
    var q := questions[0];
    var name := QueryName(q);
    if q.kind == Aaaa && disableIPv6 { return NoAnswers; }
    var localIP := local(name);
    if localIP.Some? { return LocalReply(q.kind, localIP.value); }
    m.Others(gaps.decision);
    var target := DecideRoute(m.policy.listMode, m.policy.rules, name);
    if target == Block { return NameError; }
    reply := AskAndRoute(m, gaps, target, answers, moments);
  }

  method AskAndRoute(m: Manager, gaps: Gaps, target: Target, answers: Option<seq<Record>>, moments: seq<Moment>) returns (reply: Reply)
    requires target != Block && (answers.Some? ==> |moments| == |answers.value|)
    modifies m
    ensures (m.View(), reply) == AfterUpstream(old(m.View()), gaps, target, answers, moments)
  {
    m.Others(gaps.mode);
    var mode := m.policy.mode;
    if answers.None? { return ServerFailure; }
    m.Others(gaps.tunnel);
    if mode != Off && mode != DnsOnly && target != NoTarget && m.tunnel.active != "" {
      var ok := ApplyRoutesFromResponse(m, answers.value, target, moments);
      if !ok && mode == Strict { return ServerFailure; }
    }
    return Upstream(answers.value);
  }
}
