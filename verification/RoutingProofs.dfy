// What every run of the domain-routing manager keeps: which routes, servers and
// settings the system has, whatever fails, and what of them is put back.
module RoutingProofs {
  import opened Text
  import opened DomainRules
  import opened RoutingState

  // ---- Routes --------------------------------------------------------------

  predicate EntriesOk(entries: map<nat, Entry>, t: TunnelInfo) {
    forall ip :: ip in entries ==>
      var e := entries[ip];
      e.ip == ip && e.luid != 0 && (e.luid == t.luid || e.luid == t.defaultRoute.luid)
      && (e.target == Tunnel || e.target == Direct)
  }

  /** A route of the user's that the manager has not touched. */
  predicate Untouched(r: Routes, route: Route) { route in r.users && route !in r.adopted && route !in r.withdrawn }

  /** A route of the system is an untouched one of the user's, or the manager's
      own, or one that it gave up. The untouched ones are all there, and none of
      them counts as the manager's own. */
  predicate AccountedFor(r: Routes, route: Route) {
    && (route in r.table ==> Untouched(r, route) || route in r.Own() || route in r.left)
    && (Untouched(r, route) ==> route in r.table && route !in r.Own())
    && (route in r.left ==> route in r.table)
    && (route in r.adopted || route in r.withdrawn ==> route in r.users)
  }

  ghost predicate Accounted(r: Routes) { forall route: Route :: AccountedFor(r, route) }

  /** No tunnel, no entries and no route for 127.0.0.1; every entry is under its
      own address and on one of the two interfaces; and every route is accounted
      for. */
  ghost predicate RoutesOk(r: Routes, t: TunnelInfo) {
    && (t.active == "" ==> r.entries == map[] && r.loopback.None?)
    && EntriesOk(r.entries, t)
    && Accounted(r)
  }

  lemma DropKeepsRoutes(r: Routes, t: TunnelInfo, ips: set<nat>, stuck: set<nat>)
    requires RoutesOk(r, t)
    ensures RoutesOk(DropEntries(r, ips, stuck), t)
  {
    var after := DropEntries(r, ips, stuck);
    forall route: Route ensures AccountedFor(after, route) {
      assert AccountedFor(r, route);
      DroppedRoute(r, ips, stuck, route);
    }
  }

  /** A tracked route stays tracked, or is deleted, or is left. */
  lemma DroppedRoute(r: Routes, ips: set<nat>, stuck: set<nat>, route: Route)
    ensures var after := DropEntries(r, ips, stuck);
            && (route in after.Tracked() ==> route in r.Tracked())
            && (route in RoutesOf(r.entries, ips - stuck) + RoutesOf(r.entries, ips * stuck) ==> route in r.Tracked())
            && (route in r.Tracked() ==>
                  route in after.Tracked() || route in RoutesOf(r.entries, ips - stuck) || route in RoutesOf(r.entries, ips * stuck))
  {
    var after := DropEntries(r, ips, stuck);
    if route in r.Tracked() && route !in after.Tracked() {
      var ip :| ip in r.entries && r.entries[ip].ToRoute() == route;
      StillTracked(r, ips, stuck, ip);
      assert if ip in stuck then ip in ips * stuck else ip in ips - stuck;
    }
  }

  lemma StillTracked(r: Routes, ips: set<nat>, stuck: set<nat>, ip: nat)
    requires ip in r.entries
    ensures ip !in ips ==> r.entries[ip].ToRoute() in DropEntries(r, ips, stuck).Tracked()
  {
    var after := DropEntries(r, ips, stuck);
    if ip !in ips { assert ip in after.entries && after.entries[ip].ToRoute() == r.entries[ip].ToRoute(); }
  }

  /** Once cleared, the routes are right for any tunnel. */
  lemma ClearedRoutes(r: Routes, t: TunnelInfo, stuck: set<nat>, next: TunnelInfo)
    requires RoutesOk(r, t) && (next.active == "" ==> t.active == "")
    ensures RoutesOk(ClearRoutes(r, stuck), next) && ClearRoutes(r, stuck).entries == map[]
  {
    DropKeepsRoutes(r, t, r.entries.Keys, stuck);
    assert ClearRoutes(r, stuck).entries == map[];
  }

  lemma AddLoopbackKeepsRoutes(r: Routes, t: TunnelInfo, env: Env)
    requires RoutesOk(r, t) && t.active != ""
    ensures RoutesOk(AddLoopback(r, env), t)
  {
    var after := AddLoopback(r, env);
    assert after.Tracked() == r.Tracked();
    forall route: Route ensures AccountedFor(after, route) { assert AccountedFor(r, route); }
  }

  lemma GivingUpKeepsRoutes(r: Routes, t: TunnelInfo)
    requires RoutesOk(r, t)
    ensures RoutesOk(GivenUp(r), t)
  {
    var after := GivenUp(r);
    assert after.Tracked() == r.Tracked();
    forall route: Route ensures AccountedFor(after, route) { assert AccountedFor(r, route); }
  }

  lemma WithdrawKeepsRoutes(r: Routes, t: TunnelInfo, gone: set<Route>)
    requires RoutesOk(r, t)
    ensures RoutesOk(Withdrawn(r, gone), t)
  {
    var after := Withdrawn(r, gone);
    assert after.Tracked() == r.Tracked();
    forall route: Route ensures AccountedFor(after, route) { assert AccountedFor(r, route); }
  }

  lemma RemoveLoopbackKeepsRoutes(r: Routes, t: TunnelInfo, env: Env)
    requires RoutesOk(r, t)
    ensures RoutesOk(RemoveLoopback(r, env), t) && RemoveLoopback(r, env).loopback.None?
    ensures RemoveLoopback(r, env).entries == r.entries
  {
    GivingUpKeepsRoutes(r, t);
    if env.loopback.Some? {
      WithdrawKeepsRoutes(GivenUp(r), t, {Route(LOOPBACK_IP, env.loopback.value, LOOPBACK_IP)});
    }
  }

  /** With nothing of the manager's own left: the table is the user's but for the
      adopted and the withdrawn routes, and the ones that were given up. */
  lemma UntrackedTable(r: Routes)
    requires Accounted(r) && r.entries == map[] && r.loopback.None?
    ensures r.table == r.users - r.adopted - r.withdrawn + r.left
    ensures r.table == r.users <==> r.adopted + r.withdrawn <= r.left <= r.users
  {
    assert r.Own() == {};
    forall route: Route ensures route in r.table <==> Untouched(r, route) || route in r.left { assert AccountedFor(r, route); }
    forall route: Route | route in r.adopted + r.withdrawn ensures route in r.users { assert AccountedFor(r, route); }
    TableIsUsers(r);
  }

  lemma TableIsUsers(r: Routes)
    requires r.table == r.users - r.adopted - r.withdrawn + r.left && r.adopted + r.withdrawn <= r.users
    ensures r.table == r.users <==> r.adopted + r.withdrawn <= r.left <= r.users
  {
    if r.table == r.users {
      forall route | route in r.adopted + r.withdrawn ensures route in r.left { assert route in r.table; }
      forall route | route in r.left ensures route in r.users { assert route in r.table; }
    }
  }

  lemma AddKeepsRoutes(r: Routes, t: TunnelInfo, ip: nat, target: Target, expires: int, env: Env)
    requires RoutesOk(r, t) && t.active != "" && (target == Tunnel || target == Direct)
    ensures RoutesOk(AddRoute(r, t, ip, target, expires, env).0, t)
  {
    var after := AddRoute(r, t, ip, target, expires, env).0;
    if ip in r.entries {
      TrackedSame(r, after, ip);
    } else if after != r {
      TrackedMore(r, after, ip);
    }
    if after != r {
      forall route: Route ensures AccountedFor(after, route) { assert AccountedFor(r, route); }
    }
  }

  lemma TrackedSame(r: Routes, after: Routes, ip: nat)
    requires ip in r.entries && ip in after.entries && after.entries == r.entries[ip := after.entries[ip]]
    requires after.entries[ip].ToRoute() == r.entries[ip].ToRoute()
    ensures after.Tracked() == r.Tracked() && r.entries[ip].ToRoute() in r.Tracked()
  {
    forall route ensures route in after.Tracked() <==> route in r.Tracked() {
      if route in after.Tracked() {
        var k :| k in after.entries && after.entries[k].ToRoute() == route;
        assert k in r.entries && r.entries[k].ToRoute() == route;
      }
      if route in r.Tracked() {
        var k :| k in r.entries && r.entries[k].ToRoute() == route;
        assert k in after.entries && after.entries[k].ToRoute() == route;
      }
    }
  }

  lemma TrackedMore(r: Routes, after: Routes, ip: nat)
    requires ip !in r.entries && ip in after.entries && after.entries == r.entries[ip := after.entries[ip]]
    ensures after.Tracked() == r.Tracked() + {after.entries[ip].ToRoute()}
  {
    forall route | route in r.Tracked() ensures route in after.Tracked() {
      var k :| k in r.entries && r.entries[k].ToRoute() == route;
      assert k in after.entries && after.entries[k].ToRoute() == route;
    }
  }

  lemma VerifyKeepsRoutes(s: State, env: Env)
    requires RoutesOk(s.routes, s.tunnel)
    ensures RoutesOk(Verified(s, env), s.tunnel)
  {
    var r, after := s.routes, Verified(s, env);
    assert RoutesOf(r.entries, Missing(r, s.tunnel, env.tableRead) - env.failing) <= r.Tracked() == after.Tracked();
    forall route: Route ensures AccountedFor(after, route) { assert AccountedFor(r, route); }
  }

  lemma ChangeKeepsRoutes(r: Routes, t: TunnelInfo, lost: set<Route>, gained: set<Route>)
    requires RoutesOk(r, t)
    ensures RoutesOk(Changed(r, lost, gained), t)
  {
    var after := Changed(r, lost, gained);
    assert after.Tracked() == r.Tracked();
    forall route: Route ensures AccountedFor(after, route) { assert AccountedFor(r, route); }
  }

  // ---- DNS -----------------------------------------------------------------

  predicate AllUsable(servers: seq<nat>) { forall ip :: ip in servers ==> Usable(ip) }

  predicate IsSaved(saved: Option<Saved>, luid: nat) { saved.Some? && saved.value.luid == luid }

  /** An interface has the user's servers, or those of them that are usable. */
  predicate AsTheUserHad(now: seq<nat>, user: seq<nat>) { now == user || now == FilterIPv4(user) }

  predicate Conserved(d: Dns, luid: nat) {
    if IsSaved(d.savedDefault, luid) then d.savedDefault.value.servers == FilterIPv4(ServersOf(d.users, luid))
    else AsTheUserHad(ServersOf(d.servers, luid), ServersOf(d.users, luid))
  }

  /** An interface that was never a tunnel's, and whose servers could be read and
      restored and were not chosen anew whenever it was the default one. */
  predicate Untroubled(d: Dns, luid: nat) {
    luid !in d.tunnels && luid !in d.unread && luid !in d.unrestored && luid !in d.stale
  }

  /** The servers of every such interface are the user's, or are saved for the
      default interface. */
  ghost predicate AllConserved(d: Dns) {
    forall luid :: Untroubled(d, luid) ==> Conserved(d, luid)
  }

  predicate SavedOk(saved: Option<Saved>, luid: nat) {
    saved.Some? ==> saved.value.luid == luid && luid != 0 && AllUsable(saved.value.servers)
  }

  ghost predicate DnsOk(d: Dns, t: TunnelInfo) {
    && (t.active == "" ==> d.savedTun.None? && d.savedDefault.None?)
    && SavedOk(d.savedTun, t.luid) && SavedOk(d.savedDefault, t.defaultRoute.luid)
    && (t.active != "" ==> t.luid in d.tunnels)
    && (t.defaultRoute.luid != 0 ==> t.defaultRoute.luid != t.luid)
    && (d.savedTun.Some? ==> d.savedTun.value.servers == FilterIPv4(t.tunDNS))
    && (d.savedDefault.Some? ==> d.savedDefault.value.servers == FilterIPv4(t.defaultDNS))
    && AllConserved(d)
    && (t.defaultRoute.luid != 0 && Untroubled(d, t.defaultRoute.luid) ==>
          t.defaultDNS == FilterIPv4(ServersOf(d.users, t.defaultRoute.luid)))
  }

  lemma RestoreKeepsDns(d: Dns, t: TunnelInfo, env: Env)
    requires DnsOk(d, t)
    ensures var after := RestoreDns(d, env);
            DnsOk(after, t) && after.savedTun.None? && after.savedDefault.None?
  {
    var after := RestoreDns(d, env);
    forall luid | Untroubled(after, luid) ensures Conserved(after, luid) {
      assert Conserved(d, luid);
    }
  }

  lemma FilterTwice(ips: seq<nat>)
    ensures FilterIPv4(FilterIPv4(ips)) == FilterIPv4(ips)
  {
    FilterUsable(FilterIPv4(ips));
  }

  /** A new tunnel, read while nothing is overridden. */
  lemma FoundKeepsDns(d: Dns, t: TunnelInfo, next: TunnelInfo, luid: nat, tunDNS: seq<nat>,
      table: Option<seq<Row>>, dnsRead: bool, name: string)
    requires DnsOk(d, t) && d.savedTun.None? && d.savedDefault.None? && name != ""
    requires next == Found(luid, tunDNS, table, dnsRead, name, d.servers)
    ensures DnsOk(Noted(d, next, dnsRead), next)
  {
    if table.Some? { BestNotTunnel(table.value, luid); }
    var l := next.defaultRoute.luid;
    if l != 0 && Untroubled(d, l) {
      assert Conserved(d, l);
      FilterTwice(ServersOf(d.users, l));
    }
    var after := Noted(d, next, dnsRead);
    forall x | Untroubled(after, x) ensures Conserved(after, x) { assert Conserved(d, x); }
  }

  lemma ApplyKeepsDns(d: Dns, t: TunnelInfo, proxy: bool, env: Env)
    requires DnsOk(d, t)
    ensures DnsOk(ApplyDns(d, t, proxy, env), t)
  {
    var after := ApplyDns(d, t, proxy, env);
    if after != d {
      FilterTwice(ServersOf(d.users, t.defaultRoute.luid));
      forall luid | Untroubled(after, luid) ensures Conserved(after, luid) { assert Conserved(d, luid); }
    }
  }

  lemma ChoiceKeepsDns(d: Dns, t: TunnelInfo, luid: nat, list: seq<nat>)
    requires DnsOk(d, t)
    ensures DnsOk(Chosen(d, t, luid, list), t)
  {
    var after := Chosen(d, t, luid, list);
    forall x | Untroubled(after, x) ensures Conserved(after, x) {
      if x != luid { assert Conserved(d, x); }
    }
  }

  // ---- The managed tunnel --------------------------------------------------

  predicate IsManaged(m: Managed, name: string) { m.name != "" && Lower(m.name) == name }

  /** The setting that a tunnel has when it is not managed: the user's, or the one
      that it was forgotten with. */
  function Base(m: Managed, user: map<string, bool>, name: string): bool
    requires name in user
  {
    if name in m.lost then m.lost[name] else user[name]
  }

  /** Every other tunnel's stored setting is that one; the managed tunnel's is
      remembered, and it is stored on unless that could not be saved. */
  predicate StoredOk(m: Managed, user: map<string, bool>) {
    && m.tableOff.Keys == user.Keys && m.lost.Keys <= user.Keys
    && (forall name :: name in user && !IsManaged(m, name) ==> m.tableOff[name] == Base(m, user, name))
    && (m.name != "" && Lower(m.name) in user ==>
          m.original == Base(m, user, Lower(m.name)) && (m.tableOff[Lower(m.name)] || m.unsaved))
  }

  /** And the managed tunnel is the current target unless it is held. */
  predicate ManagedOk(m: Managed, p: Policy, user: map<string, bool>) {
    StoredOk(m, user) && (m.name != "" && !m.held ==> SameName(m.name, TargetTunnel(p)) && TargetTunnel(p) != "")
  }

  /** Synchronizing is right for any new target. */
  lemma SyncKeepsManaged(m: Managed, p: Policy, user: map<string, bool>, next: Policy, env: Env)
    requires ManagedOk(m, p, user)
    ensures ManagedOk(SyncManaged(m, TargetTunnel(next), env), next, user)
  {
    var target := TargetTunnel(next);
    var (released, ok) := ReleaseManaged(m, target, env);
    ReleaseKeepsManaged(m, p, user, next, env);
    if ok && target != "" && !SameName(m.name, target) && Lower(target) in m.tableOff && env.targetLoads {
      TakingKeepsManaged(released, user, target, env.targetSaves);
    }
  }

  lemma ReleaseKeepsManaged(m: Managed, p: Policy, user: map<string, bool>, next: Policy, env: Env)
    requires ManagedOk(m, p, user)
    ensures var (released, ok) := ReleaseManaged(m, TargetTunnel(next), env);
            StoredOk(released, user) && (ok ==> released.name == "" || SameName(released.name, TargetTunnel(next)))
            && (released.name != "" && !released.held ==> ok && TargetTunnel(next) != "")
  {
    ReleaseKeepsStored(m, user, TargetTunnel(next), env);
  }

  lemma ReleaseKeepsStored(m: Managed, user: map<string, bool>, target: string, env: Env)
    requires StoredOk(m, user)
    ensures StoredOk(ReleaseManaged(m, target, env).0, user)
  {
    if m.name != "" && Lower(m.name) in m.tableOff {
      GivenBack(m, user);
      if m.tableOff[Lower(m.name)] == m.original { assert m.tableOff[Lower(m.name) := m.original] == m.tableOff; }
    }
  }

  lemma GivenBack(m: Managed, user: map<string, bool>)
    requires StoredOk(m, user) && m.name != "" && Lower(m.name) in m.tableOff
    ensures StoredOk(Released(m.(tableOff := m.tableOff[Lower(m.name) := m.original])), user)
  {}

  lemma TakingKeepsManaged(m: Managed, user: map<string, bool>, name: string, saves: bool)
    requires StoredOk(m, user) && Lower(name) in m.tableOff && name != "" && !IsManaged(m, Lower(name))
    ensures var after := StoreOn(Taken(m, name), saves);
            StoredOk(after, user) && after.name == name && !after.held
  {
    ForgettingKeepsStored(m, user);
    TakingKeepsStored(m, user, name, saves, Forgotten(m));
  }

  lemma TakingKeepsStored(m: Managed, user: map<string, bool>, name: string, saves: bool, lost: map<string, bool>)
    requires m.tableOff.Keys == user.Keys && lost.Keys <= user.Keys && Lower(name) in user && name != ""
    requires forall k :: k in user ==> m.tableOff[k] == Base(m.(lost := lost), user, k)
    ensures StoredOk(StoreOn(m.(name := name, original := m.tableOff[Lower(name)], held := false, lost := lost), saves), user)
  {}

  lemma PrepareKeepsManaged(m: Managed, p: Policy, user: map<string, bool>, name: string, env: Env)
    requires ManagedOk(m, p, user)
    ensures ManagedOk(PrepareStart(m, p, name, env), p, user)
  {
    if PrepareStart(m, p, name, env) != m && !SameName(m.name, name) {
      TakingKeepsManaged(m, user, name, env.targetSaves);
    }
  }

  /** What a forgotten tunnel has is its setting from then on. */
  lemma ForgettingKeepsStored(m: Managed, user: map<string, bool>)
    requires StoredOk(m, user)
    ensures Forgotten(m).Keys <= user.Keys
    ensures forall name :: name in user ==> m.tableOff[name] == Base(m.(lost := Forgotten(m)), user, name)
  {}

  lemma ReloadKeepsManaged(m: Managed, p: Policy, user: map<string, bool>, next: Policy, name: string, original: bool)
    requires ManagedOk(m, p, user)
    ensures ManagedOk(Reloaded(m, name, original), next, user)
  {
    if name != m.name || original != m.original {
      if SameName(name, m.name) { NewNote(m, user, m.lost, name, original); } else {
        ForgettingKeepsStored(m, user);
        NewNote(m, user, Forgotten(m), name, original);
      }
    }
  }

  lemma NewNote(m: Managed, user: map<string, bool>, lost: map<string, bool>, name: string, original: bool)
    requires m.tableOff.Keys == user.Keys && lost.Keys <= user.Keys
    requires forall k :: k in user && k != Lower(name) ==> m.tableOff[k] == Base(m.(lost := lost), user, k)
    requires name == "" && "" in user ==> m.tableOff[""] == Base(m.(lost := lost), user, "")
    ensures var known := name != "" && Lower(name) in m.tableOff;
            StoredOk(m.(name := name, original := original, held := name != "", unsaved := known && !m.tableOff[Lower(name)],
                        lost := if known then lost[Lower(name) := original] else lost), user)
  {}

  /** Synchronizing forgets no tunnel. */
  lemma SyncForgetsNone(m: Managed, target: string, env: Env)
    ensures SyncManaged(m, target, env).lost == m.lost
  {
    ReleaseForgetsNone(m, target, env);
    var (released, ok) := ReleaseManaged(m, target, env);
    if released.name == "" { TakingForgetsNone(released, target, env); }
  }

  lemma ReleaseForgetsNone(m: Managed, target: string, env: Env)
    ensures var (released, ok) := ReleaseManaged(m, target, env);
            released.lost == m.lost && (ok ==> released.name == "" || SameName(m.name, target))
  {}

  lemma TakingForgetsNone(m: Managed, target: string, env: Env)
    requires m.name == ""
    ensures TakeOver(m, target, env).lost == m.lost
  {}

  /** A start does exactly when the tunnel is the target and another one is
      still managed. */
  lemma StartForgets(m: Managed, p: Policy, name: string, env: Env)
    ensures var starts := p.mode != Off && p.routeTunnel != "" && SameName(name, p.routeTunnel)
                          && Lower(name) in m.tableOff && env.targetLoads;
            PrepareStart(m, p, name, env).lost == if starts && !SameName(m.name, name) then Forgotten(m) else m.lost
  {}

  /** And that one must be held. */
  lemma OnlyHeldIsForgotten(m: Managed, p: Policy, user: map<string, bool>, name: string, env: Env)
    requires ManagedOk(m, p, user) && PrepareStart(m, p, name, env).lost != m.lost
    ensures m.held && m.name != ""
  {
    StartForgets(m, p, name, env);
  }

  /** Such a start: the release of a fails, and b is started. The setting of a is
      still on, and nothing remembers that it was off. */
  lemma ForgottenStaysOn(m: Managed, p: Policy, a: string, b: string, fails: Env, works: Env)
    requires m == Managed(a, false, m.tableOff, false, false, map[]) && a != "" && b != "" && !SameName(a, b)
    requires Lower(a) in m.tableOff && m.tableOff[Lower(a)] && Lower(b) in m.tableOff
    requires p.mode != Off && p.routeTunnel == b && !fails.restoreLoads && works.targetLoads
    ensures var after := PrepareStart(SyncManaged(m, TargetTunnel(p), fails), p, b, works);
            after.name == b && after.tableOff[Lower(a)] && after.lost == map[Lower(a) := true]
  {}

  /** As long as no reload brings another note: a tunnel was forgotten with its
      setting on or as the user had it. */
  predicate ForgottenOk(m: Managed, user: map<string, bool>) {
    && StoredOk(m, user)
    && (forall name :: name in m.lost ==> m.lost[name] || m.lost[name] == user[name])
    && (m.name != "" && Lower(m.name) in user && m.unsaved ==> m.tableOff[Lower(m.name)] == m.original)
  }

  /** A tunnel that was forgotten with its setting on remains that. */
  predicate StaysForgotten(m: Managed, after: Managed) {
    forall name :: name in m.lost && m.lost[name] ==> name in after.lost && after.lost[name]
  }

  lemma ReleaseKeepsForgotten(m: Managed, user: map<string, bool>, target: string, env: Env)
    requires ForgottenOk(m, user)
    ensures ForgottenOk(ReleaseManaged(m, target, env).0, user)
  {
    ReleaseKeepsStored(m, user, target, env);
  }

  lemma TakingKeepsForgotten(m: Managed, user: map<string, bool>, name: string, saves: bool)
    requires ForgottenOk(m, user) && Lower(name) in m.tableOff && name != "" && !IsManaged(m, Lower(name))
    ensures var after := StoreOn(Taken(m, name), saves);
            ForgottenOk(after, user) && StaysForgotten(m, after)
  {
    TakingKeepsManaged(m, user, name, saves);
  }

  lemma SyncKeepsForgotten(m: Managed, user: map<string, bool>, target: string, env: Env)
    requires ForgottenOk(m, user)
    ensures ForgottenOk(SyncManaged(m, target, env), user) && StaysForgotten(m, SyncManaged(m, target, env))
  {
    var (released, ok) := ReleaseManaged(m, target, env);
    ReleaseKeepsForgotten(m, user, target, env);
    SyncForgetsNone(m, target, env);
    if ok && target != "" && !SameName(m.name, target) && Lower(target) in m.tableOff && env.targetLoads {
      TakingKeepsForgotten(released, user, target, env.targetSaves);
    }
  }

  lemma PrepareKeepsForgotten(m: Managed, p: Policy, user: map<string, bool>, name: string, env: Env)
    requires ForgottenOk(m, user)
    ensures var after := PrepareStart(m, p, name, env); ForgottenOk(after, user) && StaysForgotten(m, after)
  {
    if PrepareStart(m, p, name, env) != m && !SameName(m.name, name) {
      TakingKeepsForgotten(m, user, name, env.targetSaves);
    }
  }

  // ---- All steps -----------------------------------------------------------

  /** user are the stored settings that the user had before the manager ran. */
  ghost predicate Invariant(s: State, user: map<string, bool>) {
    NetworkOk(s) && ManagedOk(s.managed, s.policy, user)
  }

  /** At start-up, with the note of the managed tunnel from the file. */
  function Initial(p: Policy, proxy: bool, servers: map<nat, seq<nat>>, routes: set<Route>, note: Managed): State {
    State(p, NO_TUNNEL, Routes(map[], None, routes, routes, {}, {}, {}), Dns(None, None, servers, servers, {}, {}, {}, {}),
          note, proxy)
  }

  lemma InitialInvariant(p: Policy, proxy: bool, servers: map<nat, seq<nat>>, routes: set<Route>, note: Managed,
      user: map<string, bool>)
    requires ManagedOk(note, p, user)
    ensures Invariant(Initial(p, proxy, servers, routes, note), user)
  {
    assert Initial(p, proxy, servers, routes, note).routes.Tracked() == {};
  }

  /** Without a note nothing is managed. */
  lemma NoNote(p: Policy, user: map<string, bool>)
    ensures ManagedOk(Managed("", false, user, false, false, map[]), p, user)
    ensures ForgottenOk(Managed("", false, user, false, false, map[]), user)
  {}

  /** Everything but the managed tunnel. */
  ghost predicate NetworkOk(s: State) {
    && (s.tunnel.active == "" ==> s.tunnel == NO_TUNNEL)
    && RoutesOk(s.routes, s.tunnel) && DnsOk(s.dns, s.tunnel)
  }

  lemma PutBackKeeps(s: State, env: Env)
    requires NetworkOk(s)
    ensures var after := PutBack(s, env);
            NetworkOk(after) && after.routes.entries == map[]
            && after.dns.savedTun.None? && after.dns.savedDefault.None?
  {
    ClearedRoutes(s.routes, s.tunnel, env.stuck, s.tunnel);
    RestoreKeepsDns(s.dns, s.tunnel, env);
  }

  lemma DeactivateKeeps(s: State, env: Env)
    requires NetworkOk(s)
    ensures NetworkOk(Deactivate(s, env))
  {
    ClearedRoutes(s.routes, s.tunnel, env.stuck, s.tunnel);
    RemoveLoopbackKeepsRoutes(PutBack(s, env).routes, s.tunnel, env);
    RestoreKeepsDns(s.dns, s.tunnel, env);
  }

  lemma ActivateKeeps(s: State, name: string, env: Env)
    requires NetworkOk(s) && name != ""
    ensures NetworkOk(Activate(s, name, env))
  {
    PutBackKeeps(s, env);
    if s.tunnel.active != name && env.activation.Interface? {
      var back, i := PutBack(s, env), env.activation;
      var t := Found(i.luid, i.tunDNS, i.table, i.dnsRead, name, back.dns.servers);
      ClearedRoutes(s.routes, s.tunnel, env.stuck, t);
      AddLoopbackKeepsRoutes(back.routes, t, env);
      FoundKeepsDns(back.dns, back.tunnel, t, i.luid, i.tunDNS, i.table, i.dnsRead, name);
      ApplyKeepsDns(Noted(back.dns, t, i.dnsRead), t, s.proxy, env);
    }
  }

  lemma ApplyModeKeeps(s: State, env: Env)
    requires NetworkOk(s)
    ensures NetworkOk(ApplyMode(s, env))
  {
    PutBackKeeps(s, env);
    PutBackKeeps(s.(proxy := true), env);
    ApplyKeepsDns(s.dns, s.tunnel, true, env);
  }

  lemma SwitchKeeps(s: State, next: string, env: Env)
    requires NetworkOk(s)
    ensures NetworkOk(SwitchTo(Deactivate(s, env), next, env))
  {
    DeactivateKeeps(s, env);
    if next != "" { ActivateKeeps(Deactivate(s, env), next, env); }
  }

  lemma SyncKeepsNetwork(s: State, env: Env)
    requires NetworkOk(s)
    ensures NetworkOk(Synced(s, env))
  {
    WithdrawKeepsRoutes(s.routes, s.tunnel, RoutesOn(s.tunnel.luid, env.allowed));
  }

  lemma StepKeepsNetwork(s: State, a: Action, env: Env)
    requires NetworkOk(s) && Enabled(a)
    ensures NetworkOk(Step(s, a, env))
  {
    ClearedRoutes(s.routes, s.tunnel, env.stuck, s.tunnel);
    match a {
      case SetMode(mode) =>
        var cleared := s.(routes := ClearRoutes(s.routes, env.stuck), policy := s.policy.(mode := mode));
        SyncKeepsNetwork(cleared, env);
        ApplyModeKeeps(Synced(cleared, env), env);
      case SetDNSSettings(routeTunnel, next) =>
        var selected := s.(policy := s.policy.(routeTunnel := routeTunnel));
        SyncKeepsNetwork(selected, env);
        SwitchKeeps(Synced(selected, env), next, env);
      case TunnelStarted(name) => ActivateKeeps(s, name, env);
      case TunnelStopped(name, next) => SwitchKeeps(s, next, env);
      case AddressAnswered(ip, target, ttl, now) =>
        if s.tunnel.active != "" { AddKeepsRoutes(s.routes, s.tunnel, ip, target, Expiry(now, ttl), env); }
      case RoutesVerified => VerifyKeepsRoutes(s, env);
      case RoutesExpired(now) => DropKeepsRoutes(s.routes, s.tunnel, Expired(s.routes.entries, now), env.stuck);
      case ServersChosen(luid, servers) => ChoiceKeepsDns(s.dns, s.tunnel, luid, servers);
      case RoutesChanged(lost, gained) => ChangeKeepsRoutes(s.routes, s.tunnel, lost, gained);
      case _ =>
    }
  }

  /** What a step does to the policy and to the managed tunnel. */
  function PolicyAfter(p: Policy, a: Action): Policy {
    match a
    case SetMode(mode) => p.(mode := mode)
    case SetRules(listMode, rules) => p.(listMode := listMode, rules := rules)
    case SetDNSSettings(routeTunnel, next) => p.(routeTunnel := routeTunnel)
    case SetExcludeLoopback(exclude) => p.(excludeLoopback := exclude)
    case ConfigReloaded(policy, name, original) => policy
    case _ => p
  }

  function ManagedAfter(m: Managed, p: Policy, a: Action, env: Env): Managed {
    match a
    case SetMode(mode) => if mode == p.mode then m else SyncManaged(m, TargetTunnel(PolicyAfter(p, a)), env)
    case SetDNSSettings(routeTunnel, next) => SyncManaged(m, TargetTunnel(PolicyAfter(p, a)), env)
    case TunnelPrepared(name) => PrepareStart(m, p, name, env)
    case ConfigReloaded(policy, name, original) => Reloaded(m, name, original)
    case _ => m
  }

  lemma StepManaged(s: State, a: Action, env: Env)
    ensures Step(s, a, env).policy == PolicyAfter(s.policy, a)
    ensures Step(s, a, env).managed == ManagedAfter(s.managed, s.policy, a, env)
  {
    match a {
      case SetMode(mode) =>
      case SetDNSSettings(routeTunnel, next) =>
      case TunnelStarted(name) =>
      case TunnelStopped(name, next) =>
      case _ =>
    }
  }

  lemma AfterKeepsManaged(m: Managed, p: Policy, user: map<string, bool>, a: Action, env: Env)
    requires ManagedOk(m, p, user)
    ensures ManagedOk(ManagedAfter(m, p, a, env), PolicyAfter(p, a), user)
  {
    match a {
      case SetMode(mode) => SyncKeepsManaged(m, p, user, PolicyAfter(p, a), env);
      case SetDNSSettings(routeTunnel, next) => SyncKeepsManaged(m, p, user, PolicyAfter(p, a), env);
      case TunnelPrepared(name) => PrepareKeepsManaged(m, p, user, name, env);
      case ConfigReloaded(policy, name, original) => ReloadKeepsManaged(m, p, user, policy, name, original);
      case _ =>
    }
  }

  lemma StepKeepsManaged(s: State, user: map<string, bool>, a: Action, env: Env)
    requires ManagedOk(s.managed, s.policy, user)
    ensures var t := Step(s, a, env); ManagedOk(t.managed, t.policy, user)
  {
    StepManaged(s, a, env);
    AfterKeepsManaged(s.managed, s.policy, user, a, env);
  }

  lemma StepKeepsInvariant(s: State, user: map<string, bool>, a: Action, env: Env)
    requires Invariant(s, user) && Enabled(a)
    ensures Invariant(Step(s, a, env), user)
  {
    StepKeepsNetwork(s, a, env);
    StepKeepsManaged(s, user, a, env);
  }

  // ---- All runs ------------------------------------------------------------

  /** From every state with the invariant, for any sequence of locked steps and
      whatever the system answers. */
  lemma {:induction false} RunKeepsInvariant(s: State, user: map<string, bool>, events: seq<Event>)
    requires Invariant(s, user) && AllEnabled(events)
    ensures Invariant(Run(s, events), user)
    decreases |events|
  {
    if events != [] {
      var front, last := events[..|events| - 1], events[|events| - 1];
      RunKeepsInvariant(s, user, front);
      StepKeepsInvariant(Run(s, front), user, last.action, last.env);
    }
  }

  /** For all but the managed tunnel. */
  lemma {:induction false} RunKeepsNetwork(s: State, events: seq<Event>)
    requires NetworkOk(s) && AllEnabled(events)
    ensures NetworkOk(Run(s, events))
    decreases |events|
  {
    if events != [] {
      var front, last := events[..|events| - 1], events[|events| - 1];
      RunKeepsNetwork(s, front);
      StepKeepsNetwork(Run(s, front), last.action, last.env);
    }
  }

  predicate Unreloaded(events: seq<Event>) {
    forall i :: 0 <= i < |events| ==> !events[i].action.ConfigReloaded?
  }

  lemma AfterKeepsForgotten(m: Managed, p: Policy, user: map<string, bool>, a: Action, env: Env)
    requires ForgottenOk(m, user) && !a.ConfigReloaded?
    ensures var after := ManagedAfter(m, p, a, env); ForgottenOk(after, user) && StaysForgotten(m, after)
  {
    match a {
      case SetMode(mode) => SyncKeepsForgotten(m, user, TargetTunnel(PolicyAfter(p, a)), env);
      case SetDNSSettings(routeTunnel, next) => SyncKeepsForgotten(m, user, TargetTunnel(PolicyAfter(p, a)), env);
      case TunnelPrepared(name) => PrepareKeepsForgotten(m, p, user, name, env);
      case _ =>
    }
  }

  lemma StepKeepsForgotten(s: State, user: map<string, bool>, a: Action, env: Env)
    requires ForgottenOk(s.managed, user) && !a.ConfigReloaded?
    ensures var t := Step(s, a, env); ForgottenOk(t.managed, user) && StaysForgotten(s.managed, t.managed)
  {
    StepManaged(s, a, env);
    AfterKeepsForgotten(s.managed, s.policy, user, a, env);
  }

  lemma {:induction false} RunKeepsForgotten(s: State, user: map<string, bool>, events: seq<Event>)
    requires ForgottenOk(s.managed, user) && Unreloaded(events)
    ensures ForgottenOk(Run(s, events).managed, user) && StaysForgotten(s.managed, Run(s, events).managed)
    decreases |events|
  {
    if events != [] {
      var front, last := events[..|events| - 1], events[|events| - 1];
      RunKeepsForgotten(s, user, front);
      StepKeepsForgotten(Run(s, front), user, last.action, last.env);
    }
  }

  predicate RoutesUntouched(events: seq<Event>) {
    forall i :: 0 <= i < |events| ==> !events[i].action.RoutesChanged?
  }

  lemma ActivateUsers(s: State, name: string, env: Env)
    ensures Activate(s, name, env).routes.users == s.routes.users
  {}

  lemma SwitchUsers(s: State, next: string, env: Env)
    ensures SwitchTo(Deactivate(s, env), next, env).routes.users == s.routes.users
  {
    if next != "" { ActivateUsers(Deactivate(s, env), next, env); }
  }

  lemma StepUsers(s: State, a: Action, env: Env)
    requires !a.RoutesChanged?
    ensures Step(s, a, env).routes.users == s.routes.users
  {
    match a {
      case SetMode(mode) =>
      case SetDNSSettings(routeTunnel, next) =>
        SwitchUsers(Synced(s.(policy := s.policy.(routeTunnel := routeTunnel)), env), next, env);
      case TunnelStarted(name) => ActivateUsers(s, name, env);
      case TunnelStopped(name, next) => SwitchUsers(s, next, env);
      case _ =>
    }
  }

  /** Only changes from outside change what is the user's. */
  lemma {:induction false} UsersRoutes(s: State, events: seq<Event>)
    requires RoutesUntouched(events)
    ensures Run(s, events).routes.users == s.routes.users
    decreases |events|
  {
    if events != [] {
      var front, last := events[..|events| - 1], events[|events| - 1];
      UsersRoutes(s, front);
      StepUsers(Run(s, front), last.action, last.env);
    }
  }

  /** Whenever no tunnel is active: the route table is the user's, without
      exactly the routes that were adopted or withdrawn, and with the ones that
      were given up; nothing is overridden; and every interface without trouble
      has the user's servers. */
  lemma EverythingPutBack(start: State, user: map<string, bool>, events: seq<Event>)
    requires Invariant(start, user) && AllEnabled(events)
    ensures var s := Run(start, events);
            && (s.tunnel.active == "" ==>
                  s.routes.entries == map[] && s.routes.loopback.None?
                  && s.routes.table == s.routes.users - s.routes.adopted - s.routes.withdrawn + s.routes.left
                  && s.dns.savedTun.None? && s.dns.savedDefault.None?
                  && forall luid :: Untroubled(s.dns, luid) ==>
                       AsTheUserHad(ServersOf(s.dns.servers, luid), ServersOf(s.dns.users, luid)))
            && (RoutesUntouched(events) ==> s.routes.users == start.routes.users)
  {
    RunKeepsInvariant(start, user, events);
    var s := Run(start, events);
    if RoutesUntouched(events) { UsersRoutes(start, events); }
    if s.tunnel.active == "" {
      UntrackedTable(s.routes);
      forall luid | Untroubled(s.dns, luid)
        ensures AsTheUserHad(ServersOf(s.dns.servers, luid), ServersOf(s.dns.users, luid))
      {
        assert Conserved(s.dns, luid);
      }
    }
  }

  /** Whenever no tunnel is managed, which is so in mode Off unless a release is
      held up: a stored setting differs from the user's exactly when its tunnel
      was forgotten with another one. Without reloads that is one that was
      forgotten on and that the user had off. */
  lemma SettingsPutBack(start: State, user: map<string, bool>, events: seq<Event>)
    requires Invariant(start, user) && AllEnabled(events)
    ensures var m := Run(start, events).managed;
            && (Run(start, events).policy.mode == Off && !m.held ==> m.name == "")
            && (m.name == "" ==>
                  m.tableOff.Keys == user.Keys
                  && forall name :: name in user ==>
                       (m.tableOff[name] != user[name] <==> name in m.lost && m.lost[name] != user[name]))
            && (m.name == "" && ForgottenOk(start.managed, user) && Unreloaded(events) ==>
                  forall name :: name in user ==>
                    (m.tableOff[name] != user[name] <==> name in m.lost && m.lost[name] && !user[name]))
  {
    RunKeepsInvariant(start, user, events);
    if ForgottenOk(start.managed, user) && Unreloaded(events) { RunKeepsForgotten(start, user, events); }
  }

  // ---- What cannot be put back ---------------------------------------------

  /** From an activation to any later state with the same tunnel: if the servers
      of the default interface are overridden then, putting back gives it the
      usable ones of its servers when they could be read at the activation, and
      none when they could not; and otherwise it leaves them alone. */
  lemma ReadDecides(s: State, name: string, env: Env, events: seq<Event>, again: Env)
    requires NetworkOk(s) && name != "" && s.tunnel.active != name && env.activation.Interface? && AllEnabled(events)
    requires Run(Activate(s, name, env), events).tunnel == Activate(s, name, env).tunnel
    requires again.restoreDefault
    ensures var now, l := Run(Activate(s, name, env), events), Activate(s, name, env).tunnel.defaultRoute.luid;
            var had, has := ServersOf(PutBack(s, env).dns.servers, l), ServersOf(PutBack(now, again).dns.servers, l);
            l != 0 ==>
              has == if now.dns.savedDefault.None? then ServersOf(now.dns.servers, l)
                     else if env.activation.dnsRead then FilterIPv4(had) else []
  {
    ActivateKeeps(s, name, env);
    var first := Activate(s, name, env);
    RunKeepsNetwork(first, events);
    var had := ServersOf(PutBack(s, env).dns.servers, first.tunnel.defaultRoute.luid);
    FilterTwice(had);
    FilterTwice(FilterIPv4(had));
  }

  /** A running tunnel is selected: its own host routes are deleted, and are still
      missing when another selection ends with no tunnel. */
  lemma SelectedLosesRoutes(s: State, ip: nat, name: string, other: string, env: Env, later: Env)
    requires s.tunnel.active == name && name != "" && s.tunnel.luid != 0 && s.policy.mode != Off && s.managed.name == ""
    requires other != "" && !SameName(name, other) && ip in env.allowed && ip !in s.routes.entries && s.routes.loopback.None?
    requires Lower(name) in s.managed.tableOff && !s.managed.tableOff[Lower(name)] && env.targetLoads && env.targetSaves
    requires Route(ip, s.tunnel.luid, 0) in s.routes.users - s.routes.adopted
    ensures var route, selected := Route(ip, s.tunnel.luid, 0), Step(s, SetDNSSettings(name, ""), env);
            var left := Step(selected, SetDNSSettings(other, ""), later);
            route in selected.routes.withdrawn && route !in selected.routes.table
            && left.tunnel.active == "" && route !in left.routes.table
  {
    var selected := Step(s, SetDNSSettings(name, ""), env);
    assert Route(ip, s.tunnel.luid, 0) in RoutesOn(s.tunnel.luid, env.allowed);
  }

  /** A route for 127.0.0.1 that is there already is adopted, and deleted with the
      tunnel. */
  lemma LoopbackIsTaken(r: Routes, luid: nat, env: Env)
    requires r.loopback.None? && env.loopback == Some(luid) && LOOPBACK_IP !in env.failing && LOOPBACK_IP !in env.stuck
    requires Route(LOOPBACK_IP, luid, LOOPBACK_IP) in r.users && Route(LOOPBACK_IP, luid, LOOPBACK_IP) in r.table
    ensures var route, added := Route(LOOPBACK_IP, luid, LOOPBACK_IP), AddLoopback(r, env);
            added.table == r.table && route in added.adopted && RemoveLoopback(added, env).table == r.table - {route}
  {
    var route := Route(LOOPBACK_IP, luid, LOOPBACK_IP);
    assert r.table + {route} == r.table;
  }

  /** Servers that the user chooses for the default interface while it is
      overridden are undone when the tunnel stops. */
  lemma ChoiceIsUndone(s: State, list: seq<nat>, env: Env)
    requires s.dns.savedDefault.Some? && s.dns.savedTun.None? && env.restoreDefault
    ensures var saved := s.dns.savedDefault.value;
            var chosen := Chosen(s.dns, s.tunnel, saved.luid, list);
            ServersOf(RestoreDns(chosen, env).servers, saved.luid) == saved.servers
  {}

  /** A host route of the user's that an answer needs is adopted, and goes when
      the tunnel stops. */
  lemma AdoptedIsDeleted(s: State, ip: nat, ttl: nat, now: int, env: Env, name: string, after: Env)
    requires s.tunnel.active == name && name != "" && s.tunnel.luid != 0 && s.policy.mode != Off
    requires ip !in s.routes.entries && ip !in env.failing && ip !in after.stuck
    requires Route(ip, s.tunnel.luid, 0) in s.routes.users && Route(ip, s.tunnel.luid, 0) in s.routes.table
    ensures var route, answered := Route(ip, s.tunnel.luid, 0), Step(s, AddressAnswered(ip, Tunnel, ttl, now), env);
            var stopped := Step(answered, TunnelStopped(name, ""), after);
            answered.routes.table == s.routes.table && route in answered.routes.adopted && route !in stopped.routes.table
  {
    var answered := Step(s, AddressAnswered(ip, Tunnel, ttl, now), env);
    assert ip in answered.routes.entries.Keys - after.stuck;
    assert Route(ip, s.tunnel.luid, 0) in RoutesOf(answered.routes.entries, answered.routes.entries.Keys - after.stuck);
  }
}
