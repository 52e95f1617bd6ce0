// The locked steps of the domain-routing manager, as functions on its state and
// the state of the system that it changes: host routes, interface DNS, and the
// TableOff setting of stored tunnels.
module RoutingState {
  import opened Text
  import opened DomainRules

  // ---- What the manager remembers ------------------------------------------

  datatype Mode = Off | Relaxed | Strict | DnsOnly

  datatype Policy = Policy(mode: Mode, listMode: ListMode, rules: Rules, routeTunnel: string, excludeLoopback: bool)

  /** A host route of the system. An interface is known by its LUID. */
  datatype Route = Route(ip: nat, luid: nat, nextHop: nat)

  datatype Entry = Entry(ip: nat, target: Target, luid: nat, nextHop: nat, metric: nat, expires: int) {
    function ToRoute(): Route { Route(ip, luid, nextHop) }
  }

  /** A row of the forwarding table. */
  datatype Row = Row(prefixLength: nat, luid: nat, loopback: bool, nextHop: Option<nat>, metric: nat)

  const NO_ROUTE := Row(0, 0, false, None, 0)

  datatype TunnelInfo = TunnelInfo(active: string, luid: nat, defaultRoute: Row, defaultDNS: seq<nat>, tunDNS: seq<nat>)

  const NO_TUNNEL := TunnelInfo("", 0, NO_ROUTE, [], [])

  /** An interface's IPv4 DNS servers from before they were overridden. */
  datatype Saved = Saved(luid: nat, servers: seq<nat>)

  /** The tracked routes, the route for 127.0.0.1 that was added for the proxy, and
      the host routes of the system. Of these, users are the user's own or set up
      by others than the manager; of those, adopted are the ones the manager has
      taken over for its own, and withdrawn the ones it has deleted otherwise; and
      left are the ones that it gave up without deleting them. */
  datatype Routes = Routes(entries: map<nat, Entry>, loopback: Option<Route>, table: set<Route>, users: set<Route>,
                           adopted: set<Route>, withdrawn: set<Route>, left: set<Route>) {
    function Tracked(): set<Route> { set ip | ip in entries :: entries[ip].ToRoute() }

    function ForLoopback(): set<Route> { if loopback.Some? then {loopback.value} else {} }

    /** All routes that the manager takes for its own. */
    function Own(): set<Route> { Tracked() + ForLoopback() }
  }

  /** The overrides and the servers of every interface; users are the ones that
      the user has chosen. Some interfaces have been a tunnel's, or could not be
      read as the default interface, or not be restored, or were given other
      servers while they were the default one. */
  datatype Dns = Dns(savedTun: Option<Saved>, savedDefault: Option<Saved>, servers: map<nat, seq<nat>>, users: map<nat, seq<nat>>,
                     tunnels: set<nat>, unread: set<nat>, unrestored: set<nat>, stale: set<nat>)

  /** The tunnel whose TableOff is managed, and the stored settings by folded
      name. held: it may be another tunnel than the target, because releasing it
      failed or the policy was reloaded; unsaved: storing it off failed; lost:
      the tunnels that were forgotten while they were managed, with the setting
      that they had then. */
  datatype Managed = Managed(name: string, original: bool, tableOff: map<string, bool>,
                             held: bool, unsaved: bool, lost: map<string, bool>)

  datatype State = State(policy: Policy, tunnel: TunnelInfo, routes: Routes, dns: Dns, managed: Managed, proxy: bool)

  // ---- What the system answers ---------------------------------------------

  datatype Activation =
    | NoConfig
    | NoInterface
    | Interface(luid: nat, tunDNS: seq<nat>, table: Option<seq<Row>>, dnsRead: bool)

  /** The outcomes of all calls that one step may make: the addresses whose route
      cannot be deleted or added, whether the routes can be listed, and so on.
      allowed are the host addresses in the target's AllowedIPs whose route can be
      deleted, and loopback is the loopback interface, when it is found. */
  datatype Env = Env(saved: bool, stuck: set<nat>, restoreTun: bool, restoreDefault: bool, activation: Activation,
                     setTun: bool, setDefault: bool, proxyStarts: bool, restoreLoads: bool, restoreSaves: bool,
                     targetLoads: bool, targetSaves: bool, tableRead: bool, failing: set<nat>,
                     allowed: set<nat>, loopback: Option<nat>)

  // ---- Routes --------------------------------------------------------------

  function RoutesOf(entries: map<nat, Entry>, ips: set<nat>): set<Route> {
    set ip | ip in ips && ip in entries :: entries[ip].ToRoute()
  }

  /** Every given entry is dropped; a route whose deletion fails stays behind. */
  function DropEntries(r: Routes, ips: set<nat>, stuck: set<nat>): Routes {
    var gone := RoutesOf(r.entries, ips - stuck);
    r.(entries := r.entries - ips, table := r.table - gone,
       left := r.left - gone + RoutesOf(r.entries, ips * stuck) * (r.table - gone))
  }

  function ClearRoutes(r: Routes, stuck: set<nat>): Routes { DropEntries(r, r.entries.Keys, stuck) }

  function Expired(entries: map<nat, Entry>, now: int): set<nat> {
    set ip | ip in entries && entries[ip].expires <= now
  }

  /** The table holds a route for the address on that interface. */
  predicate HasRoute(table: set<Route>, ip: nat, luid: nat) {
    exists route :: route in table && route.ip == ip && route.luid == luid
  }

  /** The entries without a route on one of our interfaces; all of them when the
      table cannot be read. */
  function Missing(r: Routes, t: TunnelInfo, tableRead: bool): set<nat> {
    set ip | ip in r.entries && !(tableRead && (HasRoute(r.table, ip, t.luid) || HasRoute(r.table, ip, t.defaultRoute.luid)))
  }

  const MIN_TTL := 300

  function Expiry(now: int, ttl: nat): int { now + if ttl < MIN_TTL then MIN_TTL else ttl }

  function NewEntry(t: TunnelInfo, ip: nat, target: Target, expires: int): Option<Entry> {
    if target.Tunnel? then
      if t.luid == 0 then None else Some(Entry(ip, target, t.luid, 0, 0, expires))
    else if t.defaultRoute.luid == 0 || t.defaultRoute.nextHop.None? then None
    else Some(Entry(ip, target, t.defaultRoute.luid, t.defaultRoute.nextHop.value, t.defaultRoute.metric, expires))
  }

  /** A tracked route that the table does not hold, as far as it can be read, is
      added again; a failure of that is not reported. */
  function Refreshed(r: Routes, ip: nat, e: Entry, env: Env): Routes {
    r.(entries := r.entries[ip := e],
       table := r.table + if env.tableRead && !HasRoute(r.table, ip, e.luid) && ip !in env.failing then {e.ToRoute()} else {})
  }

  /** A new route; one that the table holds already is adopted. */
  function Entered(r: Routes, e: Entry): Routes {
    r.(entries := r.entries[e.ip := e], table := r.table + {e.ToRoute()},
       adopted := r.adopted + {e.ToRoute()} * r.users * r.table)
  }

  /** The routes after an address has been routed, and whether that worked. */
  function AddRoute(r: Routes, t: TunnelInfo, ip: nat, target: Target, expires: int, env: Env): (Routes, bool) {
    if ip in r.entries then
      (Refreshed(r, ip, r.entries[ip].(target := target, expires := expires), env), true)
    else
      match NewEntry(t, ip, target, expires)
      case None => (r, false)
      case Some(e) => if ip in env.failing then (r, false) else (Entered(r, e), true)
  }

  /** Routes come and go outside of the manager. One that the user adds again
      while it is tracked is adopted. */
  function Changed(r: Routes, lost: set<Route>, gained: set<Route>): Routes {
    var newly := gained - (r.table - lost);
    r.(table := r.table - lost + gained, users := r.users - lost + newly,
       adopted := r.adopted - lost - newly + newly * r.Own(), withdrawn := r.withdrawn - lost - newly, left := r.left - lost)
  }

  function RoutesOn(luid: nat, ips: set<nat>): set<Route> { set ip | ip in ips :: Route(ip, luid, 0) }

  /** Routes are deleted whoever has set them up. */
  function Withdrawn(r: Routes, gone: set<Route>): Routes {
    r.(table := r.table - gone, left := r.left - gone, withdrawn := r.withdrawn + gone * (r.users - r.adopted))
  }

  const LOOPBACK_IP: nat := 0x7F00_0001

  /** The route that keeps 127.0.0.1 out of the tunnel; one that is there already
      is adopted. */
  function AddLoopback(r: Routes, env: Env): Routes {
    if r.loopback.Some? || env.loopback.None? || LOOPBACK_IP in env.failing then r
    else
      var route := Route(LOOPBACK_IP, env.loopback.value, LOOPBACK_IP);
      r.(loopback := Some(route), table := r.table + {route}, adopted := r.adopted + {route} * r.users * r.table)
  }

  /** The interface is looked for again; when it is not found or the deletion
      fails, the route stays. */
  function RemoveLoopback(r: Routes, env: Env): Routes {
    if r.loopback.None? then r
    else if env.loopback.None? || LOOPBACK_IP in env.stuck then GivenUp(r)
    else Withdrawn(GivenUp(r), {Route(LOOPBACK_IP, env.loopback.value, LOOPBACK_IP)})
  }

  function GivenUp(r: Routes): Routes { r.(loopback := None, left := r.left + r.ForLoopback() * r.table) }

  // ---- DNS -----------------------------------------------------------------

  const LOOPBACK_SERVERS: seq<nat> := [LOOPBACK_IP]

  /** Neither unspecified nor loopback. */
  predicate Usable(ip: nat) { ip != 0 && ip / 0x100_0000 != 127 }

  function FilterIPv4(ips: seq<nat>): (out: seq<nat>)
    ensures forall ip :: ip in out <==> ip in ips && Usable(ip)
  {
    if ips == [] then [] else (if Usable(ips[0]) then [ips[0]] else []) + FilterIPv4(ips[1..])
  }

  lemma {:induction false} FilterUsable(ips: seq<nat>)
    requires forall ip :: ip in ips ==> Usable(ip)
    ensures FilterIPv4(ips) == ips
    decreases |ips|
  {
    if ips != [] {
      assert ips[0] in ips;
      FilterUsable(ips[1..]);
    }
  }

  function ServersOf(servers: map<nat, seq<nat>>, luid: nat): seq<nat> {
    if luid in servers then servers[luid] else []
  }

  /** SetDNS for IPv4; a call that fails changes nothing. */
  function SetServers(servers: map<nat, seq<nat>>, luid: nat, list: seq<nat>, ok: bool): map<nat, seq<nat>> {
    if ok then servers[luid := list] else servers
  }

  function RestoreOne(servers: map<nat, seq<nat>>, saved: Option<Saved>, ok: bool): map<nat, seq<nat>> {
    if saved.Some? then SetServers(servers, saved.value.luid, saved.value.servers, ok) else servers
  }

  function Unrestored(saved: Option<Saved>, ok: bool): set<nat> {
    if saved.Some? && !ok then {saved.value.luid} else {}
  }

  function RestoreDns(d: Dns, env: Env): Dns {
    d.(savedTun := None, savedDefault := None,
       servers := RestoreOne(RestoreOne(d.servers, d.savedTun, env.restoreTun), d.savedDefault, env.restoreDefault),
       unrestored := d.unrestored + Unrestored(d.savedTun, env.restoreTun) + Unrestored(d.savedDefault, env.restoreDefault))
  }

  /** The user gives an interface other servers. When it is the default interface
      of the active tunnel, what was read of it is out of date from then on. */
  function Chosen(d: Dns, t: TunnelInfo, luid: nat, list: seq<nat>): Dns {
    var next := d.(servers := d.servers[luid := list], users := d.users[luid := list]);
    if luid == t.defaultRoute.luid then next.(stale := d.stale + {luid})
    else next.(unread := d.unread - {luid}, unrestored := d.unrestored - {luid}, stale := d.stale - {luid})
  }

  /** Saving what is not saved yet, and pointing both interfaces at the proxy. */
  function ApplyDns(d: Dns, t: TunnelInfo, proxy: bool, env: Env): Dns {
    if !proxy || t.active == "" || t.luid == 0 then d
    else
      var tun := if d.savedTun.Some? then d.savedTun else Some(Saved(t.luid, FilterIPv4(t.tunDNS)));
      var def := if t.defaultRoute.luid != 0 && d.savedDefault.None? then Some(Saved(t.defaultRoute.luid, FilterIPv4(t.defaultDNS)))
                 else d.savedDefault;
      var first := SetServers(d.servers, t.luid, LOOPBACK_SERVERS, env.setTun);
      var both := if env.setTun && def.Some? then SetServers(first, def.value.luid, LOOPBACK_SERVERS, env.setDefault) else first;
      d.(savedTun := tun, savedDefault := def, servers := both)
  }

  // ---- The default route ---------------------------------------------------

  /** The choice among the rows so far. */
  function Better(best: Row, row: Row, tunLuid: nat): Row {
    if row.prefixLength != 0 || row.luid == tunLuid || row.loopback then best
    else if best.luid == 0 || row.metric < best.metric then row
    else best
  }

  function Best(table: seq<Row>, tunLuid: nat): Row {
    if table == [] then NO_ROUTE else Better(Best(table[..|table| - 1], tunLuid), table[|table| - 1], tunLuid)
  }

  function BestDefault(table: seq<Row>, tunLuid: nat): Row {
    var best := Best(table, tunLuid);
    if best.luid == 0 then NO_ROUTE else best
  }

  predicate Eligible(row: Row, tunLuid: nat) {
    row.prefixLength == 0 && row.luid != tunLuid && !row.loopback && row.luid != 0
  }

  /** Row k is the first of those with the smallest metric among the eligible. */
  predicate FirstBest(table: seq<Row>, tunLuid: nat, k: int) {
    && 0 <= k < |table| && Eligible(table[k], tunLuid)
    && (forall i :: 0 <= i < |table| && Eligible(table[i], tunLuid) ==> table[k].metric <= table[i].metric)
    && (forall i :: 0 <= i < k && Eligible(table[i], tunLuid) ==> table[k].metric < table[i].metric)
  }

  /** The default route is never on the tunnel, and it is the first of the rows
      with the smallest metric among the eligible. */
  lemma {:induction false} BestIsBest(table: seq<Row>, tunLuid: nat) returns (k: int)
    requires forall i :: 0 <= i < |table| ==> table[i].luid != 0
    ensures var best := Best(table, tunLuid);
            if best.luid == 0 then forall i :: 0 <= i < |table| ==> !Eligible(table[i], tunLuid)
            else FirstBest(table, tunLuid, k) && table[k] == best
    decreases |table|
  {
    k := 0;
    if table != [] {
      var n := |table| - 1;
      var front, row := table[..n], table[n];
      k := BestIsBest(front, tunLuid);
      assert forall i :: 0 <= i < n ==> table[i] == front[i];
      if Best(table, tunLuid) != Best(front, tunLuid) { k := n; }
    }
  }

  lemma {:induction false} BestNotTunnel(table: seq<Row>, tunLuid: nat)
    ensures var best := Best(table, tunLuid); best.luid == 0 || best.luid != tunLuid
    decreases |table|
  {
    if table != [] { BestNotTunnel(table[..|table| - 1], tunLuid); }
  }

  // ---- Steps of the whole manager ------------------------------------------

  predicate HasEffectiveRules(p: Policy) {
    match p.listMode
    case Whitelist => |p.rules.domains| > 0
    case Blacklist => true
    case Disabled => |p.rules.tunnel| > 0 || |p.rules.direct| > 0
  }

  /** Clearing the routes and restoring the servers. */
  function PutBack(s: State, env: Env): State {
    s.(routes := ClearRoutes(s.routes, env.stuck), dns := RestoreDns(s.dns, env))
  }

  function Found(luid: nat, tunDNS: seq<nat>, table: Option<seq<Row>>, dnsRead: bool, name: string,
      servers: map<nat, seq<nat>>): TunnelInfo
  {
    var best := if table.Some? then BestDefault(table.value, luid) else NO_ROUTE;
    var list := if best.luid != 0 && dnsRead then ServersOf(servers, best.luid) else [];
    TunnelInfo(name, luid, best, FilterIPv4(list), FilterIPv4(tunDNS))
  }

  /** A tunnel's interface, and perhaps a default interface that cannot be read. */
  function Noted(d: Dns, t: TunnelInfo, dnsRead: bool): Dns {
    d.(tunnels := d.tunnels + {t.luid}, unread := if dnsRead || t.defaultRoute.luid == 0 then d.unread else d.unread + {t.defaultRoute.luid})
  }

  function Activate(s: State, name: string, env: Env): State {
    if s.tunnel.active == name then s
    else
      var back := PutBack(s, env);
      match env.activation
      case NoConfig => back
      case NoInterface => back
      case Interface(luid, tunDNS, table, dnsRead) =>
        var t := Found(luid, tunDNS, table, dnsRead, name, back.dns.servers);
        var noted := Noted(back.dns, t, dnsRead);
        var dns := if s.policy.mode != Off && HasEffectiveRules(s.policy) then ApplyDns(noted, t, s.proxy, env) else noted;
        back.(tunnel := t, dns := dns,
              routes := if s.policy.excludeLoopback then AddLoopback(back.routes, env) else back.routes)
  }

  /** The step ends with no tunnel, and perhaps with another one. */
  function Deactivate(s: State, env: Env): State {
    var back := PutBack(s, env);
    back.(tunnel := NO_TUNNEL, routes := RemoveLoopback(back.routes, env))
  }

  function ApplyMode(s: State, env: Env): State {
    if s.policy.mode == Off then PutBack(s, env)
    else if s.tunnel.active == "" then s
    else if !s.proxy && !env.proxyStarts then s
    else
      var p := s.(proxy := true);
      if !HasEffectiveRules(s.policy) then PutBack(p, env) else p.(dns := ApplyDns(p.dns, p.tunnel, true, env))
  }

  // ---- The managed tunnel --------------------------------------------------

  /** strings.EqualFold, up to what lower-casing identifies. */
  predicate SameName(a: string, b: string) { Lower(a) == Lower(b) }

  function TargetTunnel(p: Policy): string { if p.mode == Off then "" else p.routeTunnel }

  function Released(m: Managed): Managed { m.(name := "", original := false, held := false, unsaved := false) }

  /** Giving the managed tunnel its own setting back, unless it stays managed. */
  function ReleaseManaged(m: Managed, target: string, env: Env): (Managed, bool) {
    if m.name == "" || SameName(m.name, target) then (m.(held := false), true)
    else if !(Lower(m.name) in m.tableOff && env.restoreLoads) then (m.(held := true), false)
    else if m.tableOff[Lower(m.name)] == m.original then (Released(m), true)
    else if !env.restoreSaves then (m.(held := true), false)
    else (Released(m.(tableOff := m.tableOff[Lower(m.name) := m.original])), true)
  }

  /** The stored setting is to be on. */
  function StoreOn(m: Managed, saves: bool): Managed
    requires Lower(m.name) in m.tableOff
  {
    if m.tableOff[Lower(m.name)] then m.(unsaved := false)
    else if !saves then m.(unsaved := true)
    else m.(unsaved := false, tableOff := m.tableOff[Lower(m.name) := true])
  }

  /** The managed tunnel keeps the setting that it has, and nothing knows of it. */
  function Forgotten(m: Managed): map<string, bool> {
    if m.name != "" && Lower(m.name) in m.tableOff then m.lost[Lower(m.name) := m.tableOff[Lower(m.name)]] else m.lost
  }

  /** A tunnel becomes the managed one; another one that still was is forgotten. */
  function Taken(m: Managed, name: string): Managed
    requires Lower(name) in m.tableOff
  {
    m.(name := name, original := m.tableOff[Lower(name)], held := false, lost := Forgotten(m))
  }

  function TakeOver(m: Managed, target: string, env: Env): Managed {
    if Lower(target) in m.tableOff && env.targetLoads then StoreOn(Taken(m, target), env.targetSaves) else m
  }

  function SyncManaged(m: Managed, target: string, env: Env): Managed {
    var (released, ok) := ReleaseManaged(m, target, env);
    if !ok || target == "" || SameName(m.name, target) then released else TakeOver(released, target, env)
  }

  /** The target becomes the managed tunnel and is stored on. */
  predicate StoresTarget(m: Managed, target: string, env: Env) {
    var (released, ok) := ReleaseManaged(m, target, env);
    ok && target != "" && !SameName(m.name, target) && Lower(target) in released.tableOff && env.targetLoads
    && !released.tableOff[Lower(target)] && env.targetSaves
  }

  /** Synchronizing for the current policy. When the active tunnel is stored on,
      the routes of its AllowedIPs are deleted. */
  function Synced(s: State, env: Env): State {
    var target := TargetTunnel(s.policy);
    s.(managed := SyncManaged(s.managed, target, env),
       routes := if StoresTarget(s.managed, target, env) && SameName(s.tunnel.active, target) && s.tunnel.luid != 0
                 then Withdrawn(s.routes, RoutesOn(s.tunnel.luid, env.allowed)) else s.routes)
  }

  /** The config is loaded, prepared and, when it changed, saved. */
  function PrepareStart(m: Managed, p: Policy, name: string, env: Env): Managed {
    if !(Lower(name) in m.tableOff && env.targetLoads) then m
    else if p.mode == Off || p.routeTunnel == "" || !SameName(name, p.routeTunnel) then m
    else StoreOn(if SameName(m.name, name) then m.(held := false) else Taken(m, name), env.targetSaves)
  }

  /** A reloaded file brings its own note of the managed tunnel. With another one
      the managed tunnel so far is forgotten, and the noted setting counts for the
      one that is managed now. */
  function Reloaded(m: Managed, name: string, original: bool): Managed {
    if name == m.name && original == m.original then m.(held := m.name != "")
    else
      var known := name != "" && Lower(name) in m.tableOff;
      var lost := if SameName(name, m.name) then m.lost else Forgotten(m);
      m.(name := name, original := original, held := name != "", unsaved := known && !m.tableOff[Lower(name)],
         lost := if known then lost[Lower(name) := original] else lost)
  }

  // ---- Actions -------------------------------------------------------------

  datatype Action =
    | SetMode(mode: Mode)
    | SetRules(listMode: ListMode, rules: Rules)
    | SetDNSSettings(routeTunnel: string, next: string)
    | TunnelStarted(name: string)
    | TunnelStopped(name: string, next: string)
    | TunnelPrepared(name: string)
    | AddressAnswered(ip: nat, target: Target, ttl: nat, now: int)
    | RoutesVerified
    | RoutesExpired(now: int)
    | RoutesCleared
    | SetExcludeLoopback(exclude: bool)
    | RoutesChanged(lost: set<Route>, gained: set<Route>)
    | ServersChosen(luid: nat, servers: seq<nat>)
    | ConfigReloaded(policy: Policy, name: string, original: bool)

  /** What the callers of the manager see to. */
  predicate Enabled(a: Action) {
    match a
    case TunnelStarted(name) => name != ""
    case TunnelStopped(name, next) => name != ""
    case AddressAnswered(ip, target, ttl, now) => target == Tunnel || target == Direct
    case _ => true
  }

  function AfterSetMode(s: State, mode: Mode, env: Env): State {
    if mode == s.policy.mode then s
    else
      var policy := s.policy.(mode := mode);
      var next := Synced(s.(routes := ClearRoutes(s.routes, env.stuck), policy := policy), env);
      if env.saved then ApplyMode(next, env) else next
  }

  function AfterSetRules(s: State, listMode: ListMode, rules: Rules, env: Env): State {
    s.(routes := ClearRoutes(s.routes, env.stuck), policy := s.policy.(listMode := listMode, rules := rules))
  }

  function SwitchTo(s: State, name: string, env: Env): State {
    if name == "" then s else Activate(s, name, env)
  }

  function AfterSetDNSSettings(s: State, routeTunnel: string, nextTunnel: string, env: Env): State {
    var policy := s.policy.(routeTunnel := routeTunnel);
    var next := Synced(s.(policy := policy), env);
    if routeTunnel != "" && s.tunnel.active != "" && !SameName(s.tunnel.active, routeTunnel) then
      SwitchTo(Deactivate(next, env), nextTunnel, env)
    else next
  }

  function AfterTunnelStarted(s: State, name: string, env: Env): State {
    if s.policy.routeTunnel != "" && !SameName(name, s.policy.routeTunnel) then s else Activate(s, name, env)
  }

  function AfterTunnelStopped(s: State, name: string, nextTunnel: string, env: Env): State {
    if s.tunnel.active == name then SwitchTo(Deactivate(s, env), nextTunnel, env) else s
  }

  /** The routes after an answer with the address. */
  function Answered(s: State, ip: nat, target: Target, ttl: nat, now: int, env: Env): Routes {
    if s.policy.mode == Off || s.tunnel.active == "" then s.routes
    else AddRoute(s.routes, s.tunnel, ip, target, Expiry(now, ttl), env).0
  }

  function Verified(s: State, env: Env): Routes {
    if s.tunnel.active == "" || s.policy.mode == Off || s.policy.mode == DnsOnly then s.routes
    else s.routes.(table := s.routes.table + RoutesOf(s.routes.entries, Missing(s.routes, s.tunnel, env.tableRead) - env.failing))
  }

  function Step(s: State, a: Action, env: Env): State {
    match a
    case SetMode(mode) => AfterSetMode(s, mode, env)
    case SetRules(listMode, rules) => AfterSetRules(s, listMode, rules, env)
    case SetDNSSettings(routeTunnel, next) => AfterSetDNSSettings(s, routeTunnel, next, env)
    case TunnelStarted(name) => AfterTunnelStarted(s, name, env)
    case TunnelStopped(name, next) => AfterTunnelStopped(s, name, next, env)
    case TunnelPrepared(name) => s.(managed := PrepareStart(s.managed, s.policy, name, env))
    case AddressAnswered(ip, target, ttl, now) => s.(routes := Answered(s, ip, target, ttl, now, env))
    case RoutesVerified => s.(routes := Verified(s, env))
    case RoutesExpired(now) => s.(routes := DropEntries(s.routes, Expired(s.routes.entries, now), env.stuck))
    case RoutesCleared => s.(routes := ClearRoutes(s.routes, env.stuck))
    case SetExcludeLoopback(exclude) => s.(policy := s.policy.(excludeLoopback := exclude))
    case ServersChosen(luid, servers) => s.(dns := Chosen(s.dns, s.tunnel, luid, servers))
    case RoutesChanged(lost, gained) => s.(routes := Changed(s.routes, lost, gained))
    case ConfigReloaded(policy, name, original) => s.(policy := policy, managed := Reloaded(s.managed, name, original))
  }

  // ---- Runs ----------------------------------------------------------------

  datatype Event = Event(action: Action, env: Env)

  predicate AllEnabled(events: seq<Event>) {
    forall i :: 0 <= i < |events| ==> Enabled(events[i].action)
  }

  function Run(s: State, events: seq<Event>): State {
    if events == [] then s
    else
      var last := events[|events| - 1];
      Step(Run(s, events[..|events| - 1]), last.action, last.env)
  }
}
