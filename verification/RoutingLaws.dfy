// What the steps of the domain-routing manager bring about when the calls to the
// system work, and what exactly each failure leaves undone.
module RoutingLaws {
  import opened Text
  import opened DomainRules
  import opened RoutingState
  import opened RoutingProofs

  // ---- The servers ---------------------------------------------------------

  const PROXY_ONLY: seq<nat> := [0x7F00_0001]

  /** The interfaces that are to ask the proxy. */
  predicate AsksProxy(t: TunnelInfo, luid: nat) { luid != 0 && (luid == t.luid || luid == t.defaultRoute.luid) }

  /** The tunnel's interface and the default one, when there is one, ask the proxy
      alone, and what they had is saved. */
  ghost predicate Overridden(before: Dns, after: Dns, t: TunnelInfo) {
    && (forall luid :: ServersOf(after.servers, luid) == if AsksProxy(t, luid) then PROXY_ONLY else ServersOf(before.servers, luid))
    && after.savedTun == Some(Saved(t.luid, FilterIPv4(t.tunDNS)))
    && after.savedDefault == if t.defaultRoute.luid == 0 then None else Some(Saved(t.defaultRoute.luid, FilterIPv4(t.defaultDNS)))
  }

  /** No interface is changed but those two. */
  lemma ApplyOverrides(d: Dns, t: TunnelInfo, env: Env)
    requires DnsOk(d, t) && t.active != "" && t.luid != 0 && env.setTun && env.setDefault
    ensures Overridden(d, ApplyDns(d, t, true, env), t)
  {}

  /** Exactly what a failure leaves: the saved servers are the same, and the
      interface that failed, and the default one after it, keep their servers. */
  lemma ApplyFails(d: Dns, t: TunnelInfo, env: Env, luid: nat)
    requires DnsOk(d, t) && t.active != "" && t.luid != 0
    ensures var after := ApplyDns(d, t, true, env);
            && after == ApplyDns(d, t, true, env.(setTun := true, setDefault := true)).(servers := after.servers)
            && ServersOf(after.servers, luid) ==
               if luid == t.luid && env.setTun then PROXY_ONLY
               else if AsksProxy(t, luid) && env.setTun && env.setDefault then PROXY_ONLY
               else ServersOf(d.servers, luid)
  {}

  /** Both saved interfaces get back what was saved, and nothing else changes. */
  lemma RestoreGivesBack(d: Dns, t: TunnelInfo, env: Env, luid: nat)
    requires DnsOk(d, t)
    ensures var after := RestoreDns(d, env);
            && after.savedTun.None? && after.savedDefault.None?
            && ServersOf(after.servers, luid) ==
               if IsSaved(d.savedTun, luid) && env.restoreTun then FilterIPv4(t.tunDNS)
               else if IsSaved(d.savedDefault, luid) && env.restoreDefault then FilterIPv4(t.defaultDNS)
               else ServersOf(d.servers, luid)
  {}

  lemma {:induction false} FilterParts(a: seq<nat>, b: seq<nat>)
    ensures FilterIPv4(a + b) == FilterIPv4(a) + FilterIPv4(b)
    ensures forall ip :: FilterIPv4([ip]) == if ip == 0 || 0x7F00_0000 <= ip < 0x8000_0000 then [] else [ip]
  {
    forall ip: nat ensures FilterIPv4([ip]) == if ip == 0 || 0x7F00_0000 <= ip < 0x8000_0000 then [] else [ip] {
      assert FilterIPv4([]) == [];
    }
    if a == [] {
      assert a + b == b;
    } else {
      FilterParts(a[1..], b);
      assert (a + b)[0] == a[0] && (a + b)[1..] == a[1..] + b;
    }
  }

  /** Blacklists always have an effect; the others need a rule of their kind. */
  predicate HasRules(p: Policy) {
    p.listMode.Blacklist? || (p.listMode.Whitelist? && p.rules.domains != [])
    || (p.listMode.Disabled? && p.rules.tunnel + p.rules.direct != [])
  }

  // ---- Activating ----------------------------------------------------------

  /** The tunnel as it was read: its interface, the usable ones of its servers, the
      best default route on another interface, and the servers over there. */
  ghost predicate ReadAs(t: TunnelInfo, name: string, i: Activation, servers: map<nat, seq<nat>>)
    requires i.Interface?
  {
    && t.active == name && t.luid == i.luid && t.tunDNS == FilterIPv4(i.tunDNS)
    && (t.defaultRoute.luid == 0 ==>
          t.defaultRoute == NO_ROUTE && (i.table.Some? ==> forall k :: 0 <= k < |i.table.value| ==> !Eligible(i.table.value[k], i.luid)))
    && (t.defaultRoute.luid != 0 ==> i.table.Some? && IsFirstBest(i.table.value, i.luid, t.defaultRoute))
    && t.defaultDNS == (if t.defaultRoute.luid != 0 && i.dnsRead then FilterIPv4(ServersOf(servers, t.defaultRoute.luid)) else [])
  }

  ghost predicate IsFirstBest(table: seq<Row>, tunLuid: nat, best: Row) {
    exists k :: FirstBest(table, tunLuid, k) && table[k] == best
  }

  predicate NamedInterfaces(i: Activation) {
    i.Interface? && i.luid != 0 && (i.table.Some? ==> forall k :: 0 <= k < |i.table.value| ==> i.table.value[k].luid != 0)
  }

  lemma FoundIsRead(name: string, i: Activation, servers: map<nat, seq<nat>>)
    requires NamedInterfaces(i)
    ensures ReadAs(Found(i.luid, i.tunDNS, i.table, i.dnsRead, name, servers), name, i, servers)
  {
    if i.table.Some? { var k := BestIsBest(i.table.value, i.luid); }
  }

  /** The entries are gone, and exactly the routes of theirs that could be
      deleted. */
  ghost predicate Cleared(before: Routes, after: Routes, stuck: set<nat>) {
    after.entries == map[] && forall route: Route :: route in after.table <==> route in before.table && !Deleted(before, stuck, route)
  }

  predicate Deleted(r: Routes, stuck: set<nat>, route: Route) {
    route.ip in r.entries && route.ip !in stuck && r.entries[route.ip].ToRoute() == route
  }

  lemma ClearedExactly(r: Routes, t: TunnelInfo, stuck: set<nat>)
    requires EntriesOk(r.entries, t)
    ensures Cleared(r, ClearRoutes(r, stuck), stuck)
  {
    var gone := r.entries.Keys - stuck;
    forall route: Route ensures route in RoutesOf(r.entries, gone) <==> Deleted(r, stuck, route) {
      if Deleted(r, stuck, route) { assert route.ip in gone; }
    }
  }

  /** The new tunnel is active. With a mode, rules and a running proxy, it and the
      default interface ask the proxy; otherwise nothing is overridden. */
  ghost predicate TookEffect(s: State, name: string, env: Env, back: Dns, after: State)
    requires env.activation.Interface?
  {
    && ReadAs(after.tunnel, name, env.activation, back.servers)
    && after.routes.entries == map[]
    && (if s.policy.mode != Off && HasRules(s.policy) && s.proxy then Overridden(back, after.dns, after.tunnel)
        else after.dns.servers == back.servers && after.dns.savedTun.None? && after.dns.savedDefault.None?)
  }

  predicate Works(env: Env) { NamedInterfaces(env.activation) && env.setTun && env.setDefault }

  lemma ActivateTakesEffect(s: State, name: string, env: Env)
    requires NetworkOk(s) && name != "" && name != s.tunnel.active && Works(env)
    ensures TookEffect(s, name, env, RestoreDns(s.dns, env), Activate(s, name, env))
  {
    var i := env.activation;
    var back := PutBack(s, env);
    var t := Found(i.luid, i.tunDNS, i.table, i.dnsRead, name, back.dns.servers);
    FoundIsRead(name, i, back.dns.servers);
    PutBackKeeps(s, env);
    FoundKeepsDns(back.dns, back.tunnel, t, i.luid, i.tunDNS, i.table, i.dnsRead, name);
    NotedOverridden(back.dns, t, i.dnsRead, env);
    ActivatedAs(s, name, env, back, t);
  }

  lemma NotedOverridden(d: Dns, t: TunnelInfo, dnsRead: bool, env: Env)
    requires DnsOk(Noted(d, t, dnsRead), t) && t.active != "" && t.luid != 0 && env.setTun && env.setDefault
    ensures Overridden(d, ApplyDns(Noted(d, t, dnsRead), t, true, env), t)
  {
    ApplyOverrides(Noted(d, t, dnsRead), t, env);
  }

  lemma ActivatedAs(s: State, name: string, env: Env, back: State, t: TunnelInfo)
    requires name != s.tunnel.active && env.activation.Interface? && back == PutBack(s, env) && back.routes.entries == map[]
    requires back.dns.savedTun.None? && back.dns.savedDefault.None?
    requires var i := env.activation; t == Found(i.luid, i.tunDNS, i.table, i.dnsRead, name, back.dns.servers)
    requires ReadAs(t, name, env.activation, back.dns.servers)
    requires Overridden(back.dns, ApplyDns(Noted(back.dns, t, env.activation.dnsRead), t, true, env), t)
    ensures TookEffect(s, name, env, back.dns, Activate(s, name, env))
  {}

  /** When a tunnel starts that is not the active one, and that the selection
      allows: the servers and routes of the one before are put back first, and
      then the new one is active. */
  lemma StartTakesEffect(s: State, name: string, env: Env)
    requires NetworkOk(s) && name != "" && name != s.tunnel.active && Works(env)
    requires s.policy.routeTunnel == "" || SameName(name, s.policy.routeTunnel)
    ensures TookEffect(s, name, env, RestoreDns(s.dns, env), Step(s, TunnelStarted(name), env))
  {
    ActivateTakesEffect(s, name, env);
  }

  /** So is the fallback, when the active tunnel stops or another one is selected;
      without one no tunnel is. */
  lemma FallbackTakesEffect(s: State, next: string, env: Env)
    requires NetworkOk(s) && s.tunnel.active != "" && Works(env)
    ensures var after := Step(s, TunnelStopped(s.tunnel.active, next), env);
            if next == "" then after.tunnel == NO_TUNNEL else TookEffect(s, next, env, RestoreDns(s.dns, env), after)
  {
    SwitchTakesEffect(s, next, env);
  }

  lemma SelectionSwitches(s: State, selected: string, next: string, env: Env)
    requires NetworkOk(s) && s.tunnel.active != "" && Works(env)
    ensures var after := Step(s, SetDNSSettings(selected, next), env);
            if selected == "" || SameName(s.tunnel.active, selected) then after.tunnel == s.tunnel && after.dns == s.dns
            else if next == "" then after.tunnel == NO_TUNNEL
            else TookEffect(s, next, env, RestoreDns(s.dns, env), after)
  {
    var chosen := s.(policy := s.policy.(routeTunnel := selected));
    SyncKeepsNetwork(chosen, env);
    SwitchTakesEffect(Synced(chosen, env), next, env);
  }

  lemma SwitchTakesEffect(s: State, next: string, env: Env)
    requires NetworkOk(s) && Works(env)
    ensures var after := SwitchTo(Deactivate(s, env), next, env);
            if next == "" then after.tunnel == NO_TUNNEL else TookEffect(s, next, env, RestoreDns(s.dns, env), after)
  {
    if next != "" {
      var off := Deactivate(s, env);
      DeactivateKeeps(s, env);
      ActivateTakesEffect(off, next, env);
      assert RestoreDns(off.dns, env) == off.dns;
    }
  }

  /** Another tunnel than the selected one, and the active one again, change
      nothing; a tunnel without an interface only puts everything back. */
  lemma StartWithout(s: State, name: string, env: Env)
    ensures var after := Step(s, TunnelStarted(name), env);
            if s.tunnel.active == name || (s.policy.routeTunnel != "" && !SameName(name, s.policy.routeTunnel)) then after == s
            else !env.activation.Interface? ==> after == PutBack(s, env) && after.tunnel == s.tunnel
  {}

  /** A new mode with a tunnel active: with rules, and with the proxy running or
      able to start, both interfaces ask it afterwards. In mode Off, or without
      rules, nothing is overridden any more. All tracked routes are dropped. */
  lemma ModeTakesEffect(s: State, mode: Mode, env: Env)
    requires NetworkOk(s) && mode != s.policy.mode && env.saved && s.tunnel.active != "" && s.tunnel.luid != 0
    requires env.setTun && env.setDefault
    ensures var after := Step(s, SetMode(mode), env);
            && after.policy == s.policy.(mode := mode) && after.tunnel == s.tunnel && after.routes.entries == map[]
            && (mode != Off && HasRules(s.policy) && (s.proxy || env.proxyStarts) ==>
                  after.proxy && Overridden(s.dns, after.dns, s.tunnel))
            && (mode == Off || (!HasRules(s.policy) && (s.proxy || env.proxyStarts)) ==> after.dns == RestoreDns(s.dns, env))
            && (mode != Off && !s.proxy && !env.proxyStarts ==> after.dns == s.dns && !after.proxy)
  {
    var policy := s.policy.(mode := mode);
    var next := Synced(s.(routes := ClearRoutes(s.routes, env.stuck), policy := policy), env);
    assert next.routes.entries == map[];
    ApplyOverrides(s.dns, s.tunnel, env);
  }

  /** A new rule list replaces the old one at once, and all tracked routes are
      dropped. */
  lemma RulesTakeEffect(s: State, listMode: ListMode, rules: Rules, env: Env)
    requires NetworkOk(s)
    ensures var after := Step(s, SetRules(listMode, rules), env);
            after.policy == s.policy.(listMode := listMode, rules := rules) && Cleared(s.routes, after.routes, env.stuck)
  {
    ClearedExactly(s.routes, s.tunnel, env.stuck);
  }

  /** When the active tunnel stops without another one to take over, the servers
      and the routes are put back, and the route for 127.0.0.1 goes when there is
      one, its interface is found and the deletion works. */
  lemma StopTakesEffect(s: State, name: string, env: Env)
    requires NetworkOk(s) && name != ""
    ensures var after := Step(s, TunnelStopped(name, ""), env);
            if name != s.tunnel.active then after == s
            else after.tunnel.active == "" && after.routes.entries == map[] && after.routes.loopback.None?
                 && after.dns == RestoreDns(s.dns, env)
                 && forall route: Route :: route in after.routes.table <==>
                      route in s.routes.table && !Deleted(s.routes, env.stuck, route)
                      && !(s.routes.loopback.Some? && LOOPBACK_IP !in env.stuck && IsLoopback(env, route))
  {
    ClearedExactly(s.routes, s.tunnel, env.stuck);
  }

  /** The route for 127.0.0.1 on the loopback interface, as far as that is found. */
  predicate IsLoopback(env: Env, route: Route) {
    env.loopback.Some? && route == Route(0x7F00_0001, env.loopback.value, 0x7F00_0001)
  }

  /** With the setting on, a started tunnel keeps 127.0.0.1 on the loopback
      interface, unless that is not found or the route cannot be added; a route
      that was kept before stays. But for the tracked ones no other route
      changes. */
  lemma LoopbackIsKept(s: State, name: string, env: Env)
    requires NetworkOk(s) && name != s.tunnel.active && env.activation.Interface?
    requires s.policy.routeTunnel == "" || SameName(name, s.policy.routeTunnel)
    ensures var before, after := s.routes, Step(s, TunnelStarted(name), env).routes;
            var added := s.policy.excludeLoopback && before.loopback.None? && env.loopback.Some? && LOOPBACK_IP !in env.failing;
            && (if added then after.loopback.Some? && IsLoopback(env, after.loopback.value) else after.loopback == before.loopback)
            && forall route: Route :: route in after.table <==>
                 (route in before.table && !Deleted(before, env.stuck, route)) || (added && IsLoopback(env, route))
  {
    ClearedExactly(s.routes, s.tunnel, env.stuck);
  }

  // ---- Exceptions ----------------------------------------------------------

  /** The exceptions in the account of the servers. Each arises in one way only: a
      restoring call fails, an activation cannot read the default interface, a
      tunnel has that interface, or the user chooses other servers for the default
      one. */
  lemma ServerExceptions(s: State, a: Action, env: Env, luid: nat)
    requires NetworkOk(s)
    ensures var d, t, after := s.dns, Step(s, a, env).tunnel, Step(s, a, env).dns;
            && (luid in after.unrestored - d.unrestored ==>
                  (IsSaved(d.savedTun, luid) && !env.restoreTun) || (IsSaved(d.savedDefault, luid) && !env.restoreDefault))
            && (luid in after.unread - d.unread ==>
                  env.activation.Interface? && !env.activation.dnsRead && luid == t.defaultRoute.luid && luid != 0)
            && (luid in after.tunnels - d.tunnels ==> env.activation.Interface? && luid == t.luid == env.activation.luid)
            && (luid in after.stale - d.stale ==> a.ServersChosen? && a.luid == luid == s.tunnel.defaultRoute.luid)
            && (!a.ServersChosen? ==> after.users == d.users)
  {
    match a {
      case SetMode(mode) => ApplyModeExceptions(Synced(s.(routes := ClearRoutes(s.routes, env.stuck), policy := s.policy.(mode := mode)), env), env, luid);
      case SetDNSSettings(routeTunnel, next) => SwitchExceptions(Synced(s.(policy := s.policy.(routeTunnel := routeTunnel)), env), next, env, luid);
      case TunnelStarted(name) => ActivateExceptions(s, name, env, luid);
      case TunnelStopped(name, next) => SwitchExceptions(s, next, env, luid);
      case _ =>
    }
  }

  /** And servers chosen for another interface end all of its exceptions. */
  lemma ChoiceEndsExceptions(s: State, luid: nat, list: seq<nat>, env: Env)
    requires luid != s.tunnel.defaultRoute.luid
    ensures var after := Step(s, ServersChosen(luid, list), env).dns;
            luid !in after.unread + after.unrestored + after.stale && ServersOf(after.servers, luid) == list == ServersOf(after.users, luid)
  {}

  predicate FailsToRestore(d: Dns, env: Env, luid: nat) {
    (IsSaved(d.savedTun, luid) && !env.restoreTun) || (IsSaved(d.savedDefault, luid) && !env.restoreDefault)
  }

  predicate ServersExcepted(d: Dns, after: Dns, t: TunnelInfo, env: Env, luid: nat) {
    && (luid in after.unrestored - d.unrestored ==> FailsToRestore(d, env, luid))
    && (luid in after.unread - d.unread ==>
          env.activation.Interface? && !env.activation.dnsRead && luid == t.defaultRoute.luid && luid != 0)
    && (luid in after.tunnels - d.tunnels ==> env.activation.Interface? && luid == t.luid == env.activation.luid)
    && after.stale == d.stale && after.users == d.users
  }

  lemma ApplyModeExceptions(s: State, env: Env, luid: nat)
    ensures ServersExcepted(s.dns, ApplyMode(s, env).dns, ApplyMode(s, env).tunnel, env, luid)
  {}

  lemma ActivateExceptions(s: State, name: string, env: Env, luid: nat)
    ensures ServersExcepted(s.dns, Activate(s, name, env).dns, Activate(s, name, env).tunnel, env, luid)
  {
    var i, back := env.activation, PutBack(s, env);
    if s.tunnel.active != name && i.Interface? {
      var t := Found(i.luid, i.tunDNS, i.table, i.dnsRead, name, back.dns.servers);
      NoteExceptions(s.dns, back.dns, t, env, luid);
      ApplyExceptions(Noted(back.dns, t, i.dnsRead), t, s.proxy, env);
    }
  }

  lemma NoteExceptions(d: Dns, back: Dns, t: TunnelInfo, env: Env, luid: nat)
    requires back == RestoreDns(d, env) && env.activation.Interface? && t.luid == env.activation.luid
    ensures ServersExcepted(d, Noted(back, t, env.activation.dnsRead), t, env, luid)
  {}

  /** Overriding makes no exception. */
  lemma ApplyExceptions(d: Dns, t: TunnelInfo, proxy: bool, env: Env)
    ensures var after := ApplyDns(d, t, proxy, env);
            d == after.(servers := d.servers, savedTun := d.savedTun, savedDefault := d.savedDefault)
  {}

  lemma SwitchExceptions(s: State, next: string, env: Env, luid: nat)
    ensures var after := SwitchTo(Deactivate(s, env), next, env); ServersExcepted(s.dns, after.dns, after.tunnel, env, luid)
  {
    if next != "" { ActivateExceptions(Deactivate(s, env), next, env, luid); }
  }

  /** The exceptions in the account of the routes: a route is given up when
      deleting it fails, or its interface is not found; one of the user's is
      adopted when the manager needs the same; and one of those is withdrawn with
      the AllowedIPs of the active tunnel, or as the route for 127.0.0.1. */
  predicate RouteExcepted(r: Routes, after: Routes, tunLuid: nat, env: Env, route: Route) {
    && (route in after.left - r.left ==>
          (route.ip in r.entries && route == r.entries[route.ip].ToRoute() && route.ip in env.stuck)
          || (r.loopback == Some(route) && !(IsLoopback(env, route) && LOOPBACK_IP !in env.stuck)))
    && (route in after.adopted - r.adopted ==> route in r.users && route in r.table && route in after.Own())
    && (route in after.withdrawn - r.withdrawn ==>
          route in r.users && route !in r.adopted
          && ((route.luid == tunLuid && route.nextHop == 0 && route.ip in env.allowed)
              || (r.loopback.Some? && IsLoopback(env, route) && LOOPBACK_IP !in env.stuck)))
  }

  lemma RouteExceptions(s: State, a: Action, env: Env, route: Route)
    requires NetworkOk(s) && !a.RoutesChanged?
    ensures RouteExcepted(s.routes, Step(s, a, env).routes, s.tunnel.luid, env, route)
  {
    match a {
      case SetMode(mode) =>
        var cleared := s.(routes := ClearRoutes(s.routes, env.stuck), policy := s.policy.(mode := mode));
        assert cleared.routes.entries == map[];
        DropExceptions(s.routes, s.routes.entries.Keys, s.tunnel.luid, env, route);
        SyncedRoutes(cleared, env, route);
        ClearsNothing(Synced(cleared, env).routes, env.stuck);
      case SetDNSSettings(routeTunnel, next) =>
        var selected := s.(policy := s.policy.(routeTunnel := routeTunnel));
        SyncedRoutes(selected, env, route);
        SwitchRoutes(Synced(selected, env), next, env, route);
      case TunnelStarted(name) => ActivateRoutes(s, name, env, route);
      case TunnelStopped(name, next) => SwitchRoutes(s, next, env, route);
      case AddressAnswered(ip, target, ttl, now) => AnswerRoutes(s.routes, s.tunnel, ip, target, Expiry(now, ttl), env, route);
      case RoutesExpired(now) => DropExceptions(s.routes, Expired(s.routes.entries, now), s.tunnel.luid, env, route);
      case RoutesCleared => DropExceptions(s.routes, s.routes.entries.Keys, s.tunnel.luid, env, route);
      case SetRules(listMode, rules) => DropExceptions(s.routes, s.routes.entries.Keys, s.tunnel.luid, env, route);
      case _ =>
    }
  }

  lemma DropExceptions(r: Routes, ips: set<nat>, tunLuid: nat, env: Env, route: Route)
    requires forall ip :: ip in r.entries ==> r.entries[ip].ip == ip
    ensures var after := DropEntries(r, ips, env.stuck);
            RouteExcepted(r, after, tunLuid, env, route) && after.adopted == r.adopted && after.withdrawn == r.withdrawn
  {}

  lemma ClearsNothing(r: Routes, stuck: set<nat>)
    requires r.entries == map[]
    ensures ClearRoutes(r, stuck) == r
  {
    assert RoutesOf(r.entries, r.entries.Keys - stuck) == {} && RoutesOf(r.entries, r.entries.Keys * stuck) == {};
    assert r.entries - r.entries.Keys == r.entries;
  }

  lemma SyncedRoutes(s: State, env: Env, route: Route)
    ensures var r, after := s.routes, Synced(s, env).routes;
            && after.entries == r.entries && after.loopback == r.loopback && after.users == r.users && after.adopted == r.adopted
            && after.table <= r.table && after.left <= r.left
            && (route in after.withdrawn - r.withdrawn ==>
                  route in r.users && route !in r.adopted
                  && route.luid == s.tunnel.luid && route.nextHop == 0 && route.ip in env.allowed)
  {}

  lemma AnswerRoutes(r: Routes, t: TunnelInfo, ip: nat, target: Target, expires: int, env: Env, route: Route)
    ensures RouteExcepted(r, AddRoute(r, t, ip, target, expires, env).0, t.luid, env, route)
  {
    var after := AddRoute(r, t, ip, target, expires, env).0;
    if route in after.adopted - r.adopted { assert after.entries[ip].ToRoute() == route; }
  }

  lemma ActivateRoutes(s: State, name: string, env: Env, route: Route)
    requires EntriesOk(s.routes.entries, s.tunnel)
    ensures RouteExcepted(s.routes, Activate(s, name, env).routes, s.tunnel.luid, env, route)
  {
    DropExceptions(s.routes, s.routes.entries.Keys, s.tunnel.luid, env, route);
  }

  lemma SwitchRoutes(s: State, next: string, env: Env, route: Route)
    requires EntriesOk(s.routes.entries, s.tunnel)
    ensures RouteExcepted(s.routes, SwitchTo(Deactivate(s, env), next, env).routes, s.tunnel.luid, env, route)
  {
    var off := Deactivate(s, env);
    DropExceptions(s.routes, s.routes.entries.Keys, s.tunnel.luid, env, route);
    assert off.routes.entries == map[];
    ClearsNothing(off.routes, env.stuck);
  }

  // ---- Lost routes ---------------------------------------------------------

  /** The system has a route for the address on one of the two interfaces. */
  predicate OnEither(r: Routes, t: TunnelInfo, ip: nat) { HasRoute(r.table, ip, t.luid) || HasRoute(r.table, ip, t.defaultRoute.luid) }

  /** While routes are set: the repair adds the route of every entry that has none
      on either interface, or of every entry when the table cannot be read, unless
      that fails, and no other. */
  lemma RepairIsExact(s: State, env: Env, ip: nat, route: Route)
    requires NetworkOk(s)
    ensures var after := Step(s, RoutesVerified, env).routes;
            && after.entries == s.routes.entries
            && (route in after.table <==>
                  route in s.routes.table
                  || ((s.policy.mode == Relaxed || s.policy.mode == Strict) && s.tunnel.active != "" && route.ip in s.routes.entries
                      && route == s.routes.entries[route.ip].ToRoute() && route.ip !in env.failing
                      && !(env.tableRead && OnEither(s.routes, s.tunnel, route.ip))))
            && ((s.policy.mode == Relaxed || s.policy.mode == Strict) && ip in after.entries && ip !in env.failing ==>
                  OnEither(after, s.tunnel, ip))
  {
    var r, t, after := s.routes, s.tunnel, Step(s, RoutesVerified, env).routes;
    var added := Missing(r, t, env.tableRead) - env.failing;
    assert route.ip in added && route == r.entries[route.ip].ToRoute() ==> route in RoutesOf(r.entries, added);
    if (s.policy.mode == Relaxed || s.policy.mode == Strict) && ip in after.entries && ip !in env.failing {
      Repaired(r, t, added, ip, after.table);
    }
  }

  lemma Repaired(r: Routes, t: TunnelInfo, added: set<nat>, ip: nat, table: set<Route>)
    requires ip in r.entries && EntriesOk(r.entries, t) && table == r.table + RoutesOf(r.entries, added)
    requires ip in added || OnEither(r, t, ip)
    ensures HasRoute(table, ip, t.luid) || HasRoute(table, ip, t.defaultRoute.luid)
  {
    if ip in added {
      assert r.entries[ip].ToRoute() in table;
    } else {
      var luid := if HasRoute(r.table, ip, t.luid) then t.luid else t.defaultRoute.luid;
      var route :| route in r.table && route.ip == ip && route.luid == luid;
      assert route in table;
    }
  }

  // ---- The managed tunnel --------------------------------------------------

  /** Giving up the managed tunnel works when there is nothing to give up, or its
      config can be loaded and, where its setting differs, saved. */
  predicate CanRelease(m: Managed, env: Env) {
    m.name == ""
    || (Lower(m.name) in m.tableOff && env.restoreLoads && (m.tableOff[Lower(m.name)] == m.original || env.restoreSaves))
  }

  /** The stored settings with the managed tunnel's own one put back. */
  function GivenBackSettings(m: Managed): map<string, bool> {
    if m.name == "" then m.tableOff else m.tableOff[Lower(m.name) := m.original]
  }

  /** A selected tunnel that is not managed yet becomes the managed one: the one
      before gets its own setting back, the note names the new one with the
      setting that it had, and it is stored on unless that could not be saved. No
      other setting changes. */
  lemma SelectionTakesEffect(m: Managed, target: string, env: Env)
    requires target != "" && !SameName(m.name, target) && CanRelease(m, env) && Lower(target) in m.tableOff && env.targetLoads
    ensures var after, key, had := SyncManaged(m, target, env), Lower(target), m.tableOff[Lower(target)];
            && after.name == target && after.original == had && !after.held && after.lost == m.lost
            && after.tableOff == GivenBackSettings(m)[key := had || env.targetSaves]
            && (after.unsaved <==> !had && !env.targetSaves)
  {
    if m.name != "" {
      assert m.tableOff[Lower(m.name)] == m.original ==> m.tableOff[Lower(m.name) := m.original] == m.tableOff;
    }
    assert GivenBackSettings(m)[Lower(target) := m.tableOff[Lower(target)]] == GivenBackSettings(m);
  }

  /** What it comes to otherwise: nothing is selected or the selected tunnel has no
      config that could be loaded; the selected one is managed already; or the
      one before cannot be released. */
  lemma SelectionWithout(m: Managed, target: string, env: Env)
    ensures var after := SyncManaged(m, target, env);
            && (m.name != "" && SameName(m.name, target) ==> after == m.(held := false))
            && (m.name != "" && !SameName(m.name, target) && !CanRelease(m, env) ==> after == m.(held := true))
            && (m.name != "" && !SameName(m.name, target) && CanRelease(m, env)
                && (target == "" || !(Lower(target) in m.tableOff && env.targetLoads)) ==>
                  after == Managed("", false, GivenBackSettings(m), false, false, m.lost))
            && (m.name == "" && (target == "" || !(Lower(target) in m.tableOff && env.targetLoads)) ==> after == m.(held := false))
  {
    if m.name != "" && CanRelease(m, env) {
      assert m.tableOff[Lower(m.name)] == m.original ==> m.tableOff[Lower(m.name) := m.original] == m.tableOff;
    }
  }

  /** The routes of the AllowedIPs go exactly when the setting of the active tunnel
      has been switched on just now. */
  lemma SwitchedOnLosesRoutes(s: State, env: Env, route: Route)
    ensures var target := TargetTunnel(s.policy);
            var on := Lower(target) in s.managed.tableOff && !s.managed.tableOff[Lower(target)]
                      && SyncManaged(s.managed, target, env).tableOff[Lower(target)];
            var after := Synced(s, env);
            route in after.routes.table <==>
              route in s.routes.table
              && !(on && target != "" && !SameName(s.managed.name, target) && SameName(s.tunnel.active, target)
                   && s.tunnel.luid != 0 && route.luid == s.tunnel.luid && route.nextHop == 0 && route.ip in env.allowed)
  {
    if route.nextHop == 0 && route.luid == s.tunnel.luid && route.ip in env.allowed {
      assert route in RoutesOn(s.tunnel.luid, env.allowed);
    }
  }

  /** The start of the selected tunnel makes it the managed one as well. Any other
      start changes nothing. */
  lemma PreparationTakesEffect(m: Managed, p: Policy, name: string, env: Env)
    ensures var after, key := PrepareStart(m, p, name, env), Lower(name);
            if key in m.tableOff && env.targetLoads && p.mode != Off && p.routeTunnel != "" && SameName(name, p.routeTunnel) then
              var had, known := m.tableOff[key], SameName(m.name, name);
              && after.name == (if known then m.name else name) && after.original == (if known then m.original else had)
              && !after.held && after.tableOff == m.tableOff[key := had || env.targetSaves]
              && (after.unsaved <==> !had && !env.targetSaves)
            else after == m
  {
    var key := Lower(name);
    if key in m.tableOff { assert m.tableOff[key := m.tableOff[key]] == m.tableOff; }
  }

  /** The step for a new selection: in a mode, the note and the stored setting
      follow it; in mode Off, or with none, no tunnel stays managed. */
  lemma SelectedIsManaged(s: State, selected: string, env: Env, next: string)
    requires CanRelease(s.managed, env) && env.targetLoads && env.targetSaves
    requires s.managed.name == "" ==> !s.managed.held
    ensures var after := Step(s, SetDNSSettings(selected, next), env);
            && after.policy == s.policy.(routeTunnel := selected)
            && (s.policy.mode == Off || selected == "" ==>
                  after.managed.name == "" && after.managed.tableOff == GivenBackSettings(s.managed))
            && (s.policy.mode != Off && selected != "" && Lower(selected) in s.managed.tableOff && !SameName(s.managed.name, selected) ==>
                  after.managed.name == selected && after.managed.original == s.managed.tableOff[Lower(selected)]
                  && after.managed.tableOff == GivenBackSettings(s.managed)[Lower(selected) := true] && !after.managed.unsaved)
  {
    StepManaged(s, SetDNSSettings(selected, next), env);
    var target := TargetTunnel(s.policy.(routeTunnel := selected));
    SelectionWithout(s.managed, target, env);
    if target != "" && !SameName(s.managed.name, target) && Lower(target) in s.managed.tableOff {
      SelectionTakesEffect(s.managed, target, env);
    }
  }

  predicate AllSaved(events: seq<Event>) {
    forall i :: 0 <= i < |events| ==> events[i].env.targetSaves && !events[i].action.ConfigReloaded?
  }

  lemma StepStaysSaved(s: State, a: Action, env: Env)
    requires !s.managed.unsaved && env.targetSaves && !a.ConfigReloaded?
    ensures !Step(s, a, env).managed.unsaved
  {
    StepManaged(s, a, env);
  }

  /** As long as no save fails and no reload brings another note, the managed
      tunnel is stored on, in every run. */
  lemma {:induction false} SavedStaysOn(s: State, user: map<string, bool>, events: seq<Event>)
    requires Invariant(s, user) && AllEnabled(events) && AllSaved(events) && !s.managed.unsaved
    ensures var m := Run(s, events).managed;
            !m.unsaved && (m.name != "" && Lower(m.name) in user ==> Lower(m.name) in m.tableOff && m.tableOff[Lower(m.name)])
    decreases |events|
  {
    RunKeepsInvariant(s, user, events);
    if events != [] {
      var front, last := events[..|events| - 1], events[|events| - 1];
      SavedStaysOn(s, user, front);
      StepStaysSaved(Run(s, front), last.action, last.env);
    }
  }
}
