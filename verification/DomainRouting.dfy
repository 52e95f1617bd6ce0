// The domain-routing manager: each locked method does what its step says. The
// fields are grouped as in the state of the steps; what a method changes of the
// system itself is part of the groups. Others is no method of the program: it
// stands for what other threads do between two locked methods of one query.
module DomainRouting {
  import opened Text
  import opened DomainRules
  import opened RoutingState

  class Manager {
    var policy: Policy
    var tunnel: TunnelInfo
    var routes: Routes
    var dns: Dns
    var managed: Managed
    var proxy: bool

    ghost function View(): State
      reads this
    {
      State(policy, tunnel, routes, dns, managed, proxy)
    }

    // ---- Routes ------------------------------------------------------------

    /** deleteRoute of one entry, and the entry with it. */
    method DropEntry(ip: nat, env: Env)
      requires ip in routes.entries
      modifies this`routes
      ensures routes == DropEntries(old(routes), {ip}, env.stuck)
    {
      var route := routes.entries[ip].ToRoute();
      OneDropped(routes, ip, env.stuck);
      if ip in env.stuck {
        routes := routes.(left := routes.left + {route} * routes.table);
      } else {
        routes := routes.(table := routes.table - {route}, left := routes.left - {route});
      }
      routes := routes.(entries := routes.entries - {ip});
    }

    method ClearRoutesLocked(env: Env)
      modifies this`routes
      ensures routes == ClearRoutes(old(routes), env.stuck)
    {
      ghost var before, done := routes, {};
      DropNothing(before, env.stuck);
      while routes.entries != map[]
        invariant routes == DropEntries(before, done, env.stuck) && done <= before.entries.Keys
        decreases routes.entries.Keys
      {
        var ip :| ip in routes.entries;
        DropMore(before, done, ip, env.stuck);
        DropEntry(ip, env);
        done := done + {ip};
      }
      assert (before.entries - done).Keys == before.entries.Keys - done && (before.entries - done).Keys == {};
      assert done == before.entries.Keys;
    }

    method CleanupExpiredRoutes(now: int, env: Env)
      modifies this`routes
      ensures View() == Step(old(View()), RoutesExpired(now), env)
    {
      ghost var before, done := routes, {};
      var left := routes.entries.Keys;
      DropNothing(before, env.stuck);
      while left != {}
        invariant left <= before.entries.Keys && done == Expired(before.entries, now) - left
        invariant routes == DropEntries(before, done, env.stuck)
        decreases left
      {
        var ip :| ip in left;
        left := left - {ip};
        if routes.entries[ip].expires > now { continue; }
        DropMore(before, done, ip, env.stuck);
        DropEntry(ip, env);
        done := done + {ip};
      }
      assert done == Expired(before.entries, now);
    }

    method ClearAllRoutes(env: Env)
      modifies this`routes
      ensures View() == Step(old(View()), RoutesCleared, env)
    {
      ClearRoutesLocked(env);
    }

    method VerifyAndRepairRoutes(env: Env)
      modifies this`routes
      ensures View() == Step(old(View()), RoutesVerified, env)
    {
      if tunnel.active == "" || policy.mode == Off || policy.mode == DnsOnly { return; }
      ghost var before := routes;
      var missing := Missing(routes, tunnel, env.tableRead);
      var left := routes.entries.Keys;
      assert RoutesOf(before.entries, missing - env.failing - left) == {};
      while left != {}
        invariant left <= before.entries.Keys
        invariant routes == before.(table := before.table + RoutesOf(before.entries, missing - env.failing - left))
        decreases left
      {
        var ip :| ip in left;
        if ip in missing && ip !in env.failing {
          routes := routes.(table := routes.table + {routes.entries[ip].ToRoute()});
        }
        OneMoreAdded(before.entries, missing - env.failing, left, ip);
        left := left - {ip};
      }
      assert missing - env.failing - left == missing - env.failing;
    }

    method AddRouteForIP(ip: nat, target: Target, ttl: nat, now: int, env: Env) returns (ok: bool)
      requires target == Tunnel || target == Direct
      modifies this`routes
      ensures View() == Step(old(View()), AddressAnswered(ip, target, ttl, now), env)
      ensures ok == (policy.mode == Off || tunnel.active == ""
                     || AddRoute(old(routes), tunnel, ip, target, Expiry(now, ttl), env).1)
    {
      if policy.mode == Off || tunnel.active == "" { return true; }
      var ttlSeconds := ttl;
      if ttlSeconds < MIN_TTL { ttlSeconds := MIN_TTL; }
      var expires := now + ttlSeconds;
      if ip in routes.entries {
        var entry := routes.entries[ip].(expires := expires, target := target);
        routes := routes.(entries := routes.entries[ip := entry]);
        if env.tableRead && !HasRoute(routes.table, ip, entry.luid) && ip !in env.failing {
          routes := routes.(table := routes.table + {entry.ToRoute()});
        }
        return true;
      }
      var newEntry := BuildRouteEntry(ip, target, expires);
      if newEntry.None? || ip in env.failing { return false; }
      routes := Entered(routes, newEntry.value);
      return true;
    }

    method BuildRouteEntry(ip: nat, target: Target, expires: int) returns (entry: Option<Entry>)
      requires target == Tunnel || target == Direct
      ensures entry == NewEntry(tunnel, ip, target, expires)
    {
      match target {
        case Tunnel =>
          if tunnel.luid == 0 { return None; }
          return Some(Entry(ip, target, tunnel.luid, 0, 0, expires));
        case Direct =>
          var route := tunnel.defaultRoute;
          if route.luid == 0 || route.nextHop.None? { return None; }
          return Some(Entry(ip, target, route.luid, route.nextHop.value, route.metric, expires));
      }
    }

    // ---- The route for 127.0.0.1 -------------------------------------------

    method AddLoopbackRouteLocked(env: Env)
      modifies this`routes
      ensures routes == AddLoopback(old(routes), env)
    {
      if routes.loopback.Some? || env.loopback.None? { return; }
      var route := Route(LOOPBACK_IP, env.loopback.value, LOOPBACK_IP);
      if LOOPBACK_IP in env.failing { return; }
      if route in routes.table {
        routes := routes.(adopted := routes.adopted + {route} * routes.users);
      } else {
        routes := routes.(table := routes.table + {route});
      }
      routes := routes.(loopback := Some(route));
      AddedOrAdopted(old(routes), route);
    }

    method RemoveLoopbackRouteLocked(env: Env)
      modifies this`routes
      ensures routes == RemoveLoopback(old(routes), env)
    {
      if routes.loopback.None? { return; }
      routes := GivenUp(routes);
      if env.loopback.None? || LOOPBACK_IP in env.stuck { return; }
      routes := Withdrawn(routes, {Route(LOOPBACK_IP, env.loopback.value, LOOPBACK_IP)});
    }

    // ---- DNS ---------------------------------------------------------------

    method SetDNS(luid: nat, list: seq<nat>, works: bool) returns (ok: bool)
      modifies this`dns
      ensures dns == old(dns).(servers := SetServers(old(dns.servers), luid, list, works)) && ok == works
    {
      if works { dns := dns.(servers := dns.servers[luid := list]); }
      return works;
    }

    method RestoreDNSLocked(env: Env)
      modifies this`dns
      ensures dns == RestoreDns(old(dns), env)
    {
      if dns.savedTun.Some? {
        var ok := SetDNS(dns.savedTun.value.luid, dns.savedTun.value.servers, env.restoreTun);
        dns := dns.(savedTun := None, unrestored := dns.unrestored + Unrestored(dns.savedTun, ok));
      }
      if dns.savedDefault.Some? {
        var ok := SetDNS(dns.savedDefault.value.luid, dns.savedDefault.value.servers, env.restoreDefault);
        dns := dns.(savedDefault := None, unrestored := dns.unrestored + Unrestored(dns.savedDefault, ok));
      }
    }

    method ApplyDNSLocked(env: Env) returns (ok: bool)
      modifies this`dns
      ensures dns == ApplyDns(old(dns), tunnel, proxy, env)
      ensures ok <==> !proxy || tunnel.active == ""
                      || (tunnel.luid != 0 && env.setTun && (dns.savedDefault.None? || env.setDefault))
    {
      if !proxy || tunnel.active == "" { return true; }
      if tunnel.luid == 0 { return false; }
      if dns.savedTun.None? {
        dns := dns.(savedTun := Some(Saved(tunnel.luid, FilterIPv4(tunnel.tunDNS))));
      }
      if tunnel.defaultRoute.luid != 0 && dns.savedDefault.None? {
        dns := dns.(savedDefault := Some(Saved(tunnel.defaultRoute.luid, FilterIPv4(tunnel.defaultDNS))));
      }
      ok := SetDNS(tunnel.luid, LOOPBACK_SERVERS, env.setTun);
      if !ok { return false; }
      if dns.savedDefault.Some? {
        ok := SetDNS(dns.savedDefault.value.luid, LOOPBACK_SERVERS, env.setDefault);
      }
    }

    // ---- Tunnels -----------------------------------------------------------

    method PutBackLocked(env: Env)
      modifies this`routes, this`dns
      ensures View() == PutBack(old(View()), env)
    {
      ClearRoutesLocked(env);
      RestoreDNSLocked(env);
    }

    method FindDefaultRoute(table: seq<Row>, luid: nat) returns (best: Row)
      ensures best == BestDefault(table, luid)
    {
      best := NO_ROUTE;
      for k := 0 to |table|
        invariant best == Best(table[..k], luid)
      {
        var row := table[k];
        assert table[..k + 1][..k] == table[..k];
        if row.prefixLength != 0 { continue; }
        if row.luid == luid || row.loopback { continue; }
        if best.luid == 0 || row.metric < best.metric { best := row; }
      }
      assert table[..|table|] == table;
      if best.luid == 0 { best := NO_ROUTE; }
    }

    method ActivateTunnelLocked(name: string, env: Env) returns (ok: bool)
      modifies this`routes, this`dns, this`tunnel
      ensures View() == Activate(old(View()), name, env)
      ensures ok <==> old(tunnel.active) == name
                      || (env.activation.Interface?
                          && (policy.mode == Off || !HasEffectiveRules(policy) || !proxy || name == ""
                              || (tunnel.luid != 0 && env.setTun && (dns.savedDefault.None? || env.setDefault))))
    {
      if tunnel.active == name { return true; }
      PutBackLocked(env);
      match env.activation {
        case NoConfig => return false;
        case NoInterface => return false;
        case Interface(luid, cfgDNS, table, dnsRead) =>
          NoteTunnel(name, luid, cfgDNS, table, dnsRead);
          ok := true;
          if policy.excludeLoopback { AddLoopbackRouteLocked(env); }
          if policy.mode != Off {
            if !HasEffectiveRules(policy) {
              NothingToPutBack(View(), env);
              PutBackLocked(env);
              return true;
            }
            ok := ApplyDNSLocked(env);
          }
      }
    }

    method NoteTunnel(name: string, luid: nat, cfgDNS: seq<nat>, table: Option<seq<Row>>, dnsRead: bool)
      modifies this`tunnel, this`dns
      ensures tunnel == Found(luid, cfgDNS, table, dnsRead, name, old(dns.servers))
      ensures dns == Noted(old(dns), tunnel, dnsRead)
    {
      var route := NO_ROUTE;
      if table.Some? { route := FindDefaultRoute(table.value, luid); }
      var list := [];
      if route.luid != 0 && dnsRead { list := ServersOf(dns.servers, route.luid); }
      tunnel := TunnelInfo(name, luid, route, FilterIPv4(list), FilterIPv4(cfgDNS));
      dns := Noted(dns, tunnel, dnsRead);
    }

    method DeactivateTunnelLocked(env: Env)
      modifies this`routes, this`dns, this`tunnel
      ensures View() == Deactivate(old(View()), env)
    {
      PutBackLocked(env);
      RemoveLoopbackRouteLocked(env);
      tunnel := NO_TUNNEL;
    }

    /** Any started tunnel but the excluded one, or the selected one only. */
    method PickFallbackTunnel(tracked: map<string, bool>, exclude: string) returns (next: string)
      requires "" !in tracked
      ensures next != "" ==> next in tracked && tracked[next] && !SameName(next, exclude)
                             && (policy.routeTunnel != "" ==> SameName(next, policy.routeTunnel))
      ensures next == "" ==> forall name :: name in tracked && tracked[name] && !SameName(name, exclude) ==>
                               policy.routeTunnel != "" && !SameName(name, policy.routeTunnel)
    {
      var left := tracked.Keys;
      while left != {}
        invariant left <= tracked.Keys
        invariant forall name :: name in tracked && name !in left && tracked[name] && !SameName(name, exclude) ==>
                    policy.routeTunnel != "" && !SameName(name, policy.routeTunnel)
        decreases left
      {
        var name :| name in left;
        left := left - {name};
        if tracked[name] && !SameName(name, exclude)
           && (policy.routeTunnel == "" || SameName(name, policy.routeTunnel)) {
          return name;
        }
      }
      return "";
    }

    method OnTunnelStarted(name: string, env: Env)
      modifies this`routes, this`dns, this`tunnel
      ensures View() == Step(old(View()), TunnelStarted(name), env)
    {
      if policy.routeTunnel != "" && !SameName(name, policy.routeTunnel) { return; }
      var ok := ActivateTunnelLocked(name, env);
    }

    /** The fallback is picked among the tunnels tracked at that moment. */
    method OnTunnelStopped(name: string, tracked: map<string, bool>, env: Env) returns (next: string)
      requires "" !in tracked
      modifies this`routes, this`dns, this`tunnel
      ensures View() == Step(old(View()), TunnelStopped(name, next), env)
    {
      next := "";
      if tunnel.active == name {
        DeactivateTunnelLocked(env);
        next := PickFallbackTunnel(tracked, name);
        if next != "" { var ok := ActivateTunnelLocked(next, env); }
      }
    }

    // ---- Settings ----------------------------------------------------------

    method ApplyModeLocked(env: Env) returns (ok: bool)
      modifies this`routes, this`dns, this`proxy
      ensures View() == ApplyMode(old(View()), env)
      ensures ok <==> policy.mode == Off || tunnel.active == "" || old(proxy) || env.proxyStarts
    {
      if policy.mode == Off {
        PutBackLocked(env);
        return true;
      }
      if tunnel.active == "" { return true; }
      if !proxy {
        if !env.proxyStarts { return false; }
        proxy := true;
      }
      if !HasEffectiveRules(policy) {
        PutBackLocked(env);
        return true;
      }
      var applied := ApplyDNSLocked(env);
      return true;
    }

    method ChangeMode(mode: Mode, env: Env) returns (ok: bool)
      modifies this
      ensures View() == Step(old(View()), SetMode(mode), env)
      ensures ok <==> mode == old(policy.mode)
                      || (env.saved && (mode == Off || tunnel.active == "" || old(proxy) || env.proxyStarts))
    {
      if mode == policy.mode { return true; }
      ClearRoutesLocked(env);
      policy := policy.(mode := mode);
      var synced := SyncManagedRouteTunnelLocked(env);
      if !env.saved { return false; }
      ok := ApplyModeLocked(env);
    }

    method ChangeRules(listMode: ListMode, rules: Rules, env: Env) returns (ok: bool)
      modifies this`routes, this`policy
      ensures View() == Step(old(View()), SetRules(listMode, rules), env) && ok == env.saved
    {
      ClearRoutesLocked(env);
      policy := policy.(listMode := listMode, rules := rules);
      return env.saved;
    }

    /** The lists as the user entered them. */
    method ChangeRuleLists(listMode: string, domains: seq<string>, through: seq<string>, direct: seq<string>,
        block: seq<string>, env: Env) returns (ok: bool)
      modifies this`routes, this`policy
      ensures View() == Step(old(View()), SetRules(ParseListMode(listMode),
                                            Rules(NormalizedRules(domains), NormalizedRules(through),
                                                  NormalizedRules(direct), NormalizedRules(block))), env)
      ensures ok == env.saved
    {
      var d := NormalizeRules(domains);
      var t := NormalizeRules(through);
      var r := NormalizeRules(direct);
      var b := NormalizeRules(block);
      ok := ChangeRules(ParseListMode(listMode), Rules(d, t, r, b), env);
    }

    method ChangeDNSSettings(selected: string, tracked: map<string, bool>, env: Env) returns (ok: bool, next: string)
      requires "" !in tracked
      modifies this
      ensures View() == Step(old(View()), SetDNSSettings(TrimSpace(selected), next), env) && ok == env.saved
    {
      next := "";
      var routeTunnel := TrimSpace(selected);
      policy := policy.(routeTunnel := routeTunnel);
      var synced := SyncManagedRouteTunnelLocked(env);
      if routeTunnel != "" && tunnel.active != "" && !SameName(tunnel.active, routeTunnel) {
        DeactivateTunnelLocked(env);
        next := PickFallbackTunnel(tracked, "");
        if next != "" { var activated := ActivateTunnelLocked(next, env); }
      }
      return env.saved, next;
    }

    method SetExcludeLoopback(exclude: bool, env: Env) returns (ok: bool)
      modifies this`policy
      ensures View() == Step(old(View()), RoutingState.SetExcludeLoopback(exclude), env)
      ensures ok <==> exclude == old(policy).excludeLoopback || env.saved
    {
      if exclude == policy.excludeLoopback { return true; }
      policy := policy.(excludeLoopback := exclude);
      return env.saved;
    }

    // ---- The managed tunnel ------------------------------------------------

    method SyncManagedRouteTunnelLocked(env: Env) returns (ok: bool)
      modifies this`managed, this`routes
      ensures View() == Synced(old(View()), env)
      ensures ok <==> IsSynced(old(managed), TargetTunnel(policy), env)
    {
      var target := "";
      if policy.mode != Off { target := policy.routeTunnel; }
      var stored;
      ok, stored := SyncNoteLocked(target, env);
      if stored && SameName(tunnel.active, target) { RemoveAllowedIPRoutes(env); }
    }

    /** The part of it that concerns the note and the stored settings. */
    method SyncNoteLocked(target: string, env: Env) returns (ok: bool, stored: bool)
      modifies this`managed
      ensures managed == SyncManaged(old(managed), target, env)
      ensures ok <==> IsSynced(old(managed), target, env)
      ensures stored == StoresTarget(old(managed), target, env)
    {
      var name := managed.name;
      ok := ReleaseLocked(target, env);
      if !ok || target == "" || SameName(name, target) { return ok, false; }
      ok, stored := TakeOverTunnel(target, env);
    }

    method ReleaseLocked(target: string, env: Env) returns (ok: bool)
      modifies this`managed
      ensures (managed, ok) == ReleaseManaged(old(managed), target, env)
    {
      var name := managed.name;
      if name != "" && !SameName(name, target) {
        ok := RestoreTunnelTableOff(name, managed.original, env);
        if !ok {
          managed := managed.(held := true);
          return false;
        }
        SameSetting(old(managed).tableOff, Lower(name));
        managed := Released(managed);
      }
      managed := managed.(held := false);
      return true;
    }

    /** The host routes of the active tunnel's AllowedIPs, one by one. */
    method RemoveAllowedIPRoutes(env: Env)
      modifies this`routes
      ensures routes == if tunnel.luid == 0 then old(routes) else Withdrawn(old(routes), RoutesOn(tunnel.luid, env.allowed))
    {
      if tunnel.luid == 0 { return; }
      ghost var before := routes;
      var left := env.allowed;
      WithdrawNothing(before);
      assert RoutesOn(tunnel.luid, env.allowed - left) == {};
      while left != {}
        invariant left <= env.allowed
        invariant routes == Withdrawn(before, RoutesOn(tunnel.luid, env.allowed - left))
        decreases left
      {
        var ip :| ip in left;
        WithdrawOneMore(before, tunnel.luid, env.allowed - left, ip);
        assert env.allowed - left + {ip} == env.allowed - (left - {ip});
        routes := Withdrawn(routes, {Route(ip, tunnel.luid, 0)});
        left := left - {ip};
      }
      assert env.allowed - left == env.allowed;
    }

    method RestoreTunnelTableOff(name: string, original: bool, env: Env) returns (ok: bool)
      modifies this`managed
      ensures ok <==> Lower(name) in old(managed.tableOff) && env.restoreLoads
                      && (old(managed.tableOff)[Lower(name)] == original || env.restoreSaves)
      ensures managed == if ok then old(managed).(tableOff := old(managed.tableOff)[Lower(name) := original]) else old(managed)
    {
      if !(Lower(name) in managed.tableOff && env.restoreLoads) { return false; }
      if managed.tableOff[Lower(name)] == original {
        assert managed.tableOff[Lower(name) := original] == managed.tableOff;
        return true;
      }
      if !env.restoreSaves { return false; }
      managed := managed.(tableOff := managed.tableOff[Lower(name) := original]);
      return true;
    }

    method TakeOverTunnel(target: string, env: Env) returns (ok: bool, stored: bool)
      modifies this`managed
      ensures ok <==> Lower(target) in old(managed).tableOff && env.targetLoads
                      && (old(managed).tableOff[Lower(target)] || env.targetSaves)
      ensures managed == TakeOver(old(managed), target, env)
      ensures stored <==> Lower(target) in old(managed).tableOff && env.targetLoads
                          && !old(managed).tableOff[Lower(target)] && env.targetSaves
    {
      if !(Lower(target) in managed.tableOff && env.targetLoads) { return false, false; }
      var original := managed.tableOff[Lower(target)];
      managed := Taken(managed, target);
      if original {
        managed := managed.(unsaved := false);
        return true, false;
      }
      if !env.targetSaves {
        managed := managed.(unsaved := true);
        return false, false;
      }
      managed := managed.(unsaved := false, tableOff := managed.tableOff[Lower(target) := true]);
      return true, true;
    }

    /** The part of a tunnel's start that concerns its TableOff. */
    method PrepareTunnelConfigForStart(name: string, env: Env) returns (modified: bool)
      modifies this`managed
      ensures View() == Step(old(View()), TunnelPrepared(name), env)
      ensures modified <==> Lower(name) in old(managed).tableOff && env.targetLoads && !old(managed).tableOff[Lower(name)]
                            && policy.mode != Off && policy.routeTunnel != "" && SameName(name, policy.routeTunnel)
    {
      if !(Lower(name) in managed.tableOff && env.targetLoads) { return false; }
      if policy.mode == Off || policy.routeTunnel == "" || !SameName(name, policy.routeTunnel) { return false; }
      if !SameName(managed.name, name) { managed := Taken(managed, name); }
      managed := managed.(held := false);
      if managed.tableOff[Lower(name)] {
        managed := managed.(unsaved := false);
        return false;
      }
      if env.targetSaves {
        managed := managed.(unsaved := false, tableOff := managed.tableOff[Lower(name) := true]);
      } else {
        managed := managed.(unsaved := true);
      }
      return true;
    }

    // ---- Other threads -----------------------------------------------------

    /** What other threads do to the manager while the lock is free. */
    method Others(events: seq<Event>)
      modifies this
      ensures View() == Run(old(View()), events)
    {
      var s := Run(State(policy, tunnel, routes, dns, managed, proxy), events);
      policy, tunnel, routes := s.policy, s.tunnel, s.routes;
      dns, managed, proxy := s.dns, s.managed, s.proxy;
    }
  }

  /** The selected tunnel is the managed one and is stored on, or none is selected,
      and nothing failed on the way. */
  predicate IsSynced(m: Managed, target: string, env: Env) {
    ReleaseManaged(m, target, env).1
    && (target == "" || SameName(m.name, target)
        || (Lower(target) in m.tableOff && env.targetLoads && (m.tableOff[Lower(target)] || env.targetSaves)))
  }

  lemma SameSetting(tableOff: map<string, bool>, name: string)
    requires name in tableOff
    ensures tableOff[name := tableOff[name]] == tableOff
  {}

  lemma AddedOrAdopted(r: Routes, route: Route)
    ensures r.(table := r.table + {route}, adopted := r.adopted + {route} * r.users * r.table) ==
            if route in r.table then r.(adopted := r.adopted + {route} * r.users) else r.(table := r.table + {route})
  {
    if route in r.table {
      assert r.table + {route} == r.table && {route} * r.users * r.table == {route} * r.users;
    } else {
      assert {route} * r.users * r.table == {} && r.adopted + {} == r.adopted;
    }
  }

  lemma WithdrawNothing(r: Routes)
    ensures Withdrawn(r, {}) == r
  {
    assert {} * (r.users - r.adopted) == {};
  }

  lemma WithdrawOneMore(r: Routes, luid: nat, done: set<nat>, ip: nat)
    ensures Withdrawn(Withdrawn(r, RoutesOn(luid, done)), {Route(ip, luid, 0)}) == Withdrawn(r, RoutesOn(luid, done + {ip}))
  {
    assert RoutesOn(luid, done + {ip}) == RoutesOn(luid, done) + {Route(ip, luid, 0)};
  }

  lemma OneDropped(r: Routes, ip: nat, stuck: set<nat>)
    requires ip in r.entries
    ensures var route := r.entries[ip].ToRoute();
            DropEntries(r, {ip}, stuck) ==
            if ip in stuck then r.(entries := r.entries - {ip}, left := r.left + {route} * r.table)
            else r.(entries := r.entries - {ip}, table := r.table - {route}, left := r.left - {route})
  {
    if ip in stuck {
      assert {ip} - stuck == {} && {ip} * stuck == {ip};
      assert RoutesOf(r.entries, {}) == {} && RoutesOf(r.entries, {ip}) == {r.entries[ip].ToRoute()};
    } else {
      assert {ip} - stuck == {ip} && {ip} * stuck == {};
      assert RoutesOf(r.entries, {}) == {} && RoutesOf(r.entries, {ip}) == {r.entries[ip].ToRoute()};
    }
  }

  lemma DropNothing(r: Routes, stuck: set<nat>)
    ensures DropEntries(r, {}, stuck) == r
  {
    assert r.entries - {} == r.entries && RoutesOf(r.entries, {} - stuck) == {} && RoutesOf(r.entries, {} * stuck) == {};
  }

  lemma DropMore(r: Routes, done: set<nat>, ip: nat, stuck: set<nat>)
    requires ip in r.entries && ip !in done
    ensures DropEntries(DropEntries(r, done, stuck), {ip}, stuck) == DropEntries(r, done + {ip}, stuck)
  {
    var one := DropEntries(r, done, stuck);
    OneDropped(one, ip, stuck);
    assert one.entries - {ip} == r.entries - (done + {ip});
    if ip in stuck {
      assert (done + {ip}) - stuck == done - stuck && (done + {ip}) * stuck == done * stuck + {ip};
    } else {
      assert (done + {ip}) - stuck == done - stuck + {ip} && (done + {ip}) * stuck == done * stuck;
    }
    OneRouteMore(r.entries, if ip in stuck then done * stuck else done - stuck, ip);
  }

  lemma OneRouteMore(entries: map<nat, Entry>, ips: set<nat>, ip: nat)
    requires ip in entries
    ensures RoutesOf(entries, ips + {ip}) == RoutesOf(entries, ips) + {entries[ip].ToRoute()}
  {}

  lemma OneMoreAdded(entries: map<nat, Entry>, missing: set<nat>, left: set<nat>, ip: nat)
    requires ip in left && ip in entries
    ensures RoutesOf(entries, missing - (left - {ip})) ==
            RoutesOf(entries, missing - left) + if ip in missing then {entries[ip].ToRoute()} else {}
  {
    if ip in missing {
      assert missing - (left - {ip}) == missing - left + {ip};
      OneRouteMore(entries, missing - left, ip);
    } else {
      assert missing - (left - {ip}) == missing - left;
    }
  }

  lemma NothingToPutBack(s: State, env: Env)
    requires s.routes.entries == map[] && s.dns.savedTun.None? && s.dns.savedDefault.None?
    ensures PutBack(s, env) == s
  {
    assert s.routes.entries.Keys == {};
    DropNothing(s.routes, env.stuck);
  }
}
