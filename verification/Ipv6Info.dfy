/**
 What the client knows about IPv6 on an interface: a table of addresses with their types, six
 fields that mirror it, the default routes with the one in use, and the lifetimes.
 */
module Ipv6Info {
  import opened Wrappers
  import opened Words

  const DHCP_INET6_ADDRSTRLEN := 128
  const IPV6_LIFETIME_INFINITY: u32 := 0xFFFF_FFFF

  const DEFAULT := 0
  const GLOBAL := 1
  const SUBNET := 2
  const RAND := 3
  const UNIQUE := 4
  const UNIQUE2 := 5

  const VALID_LIFE := 0
  const PREF_LIFE := 1
  const ROUTE_LIFE := 2
  const TEMP_VALID_LIFE := 3
  const TEMP_PREF_LIFE := 4

  datatype Mirrors = Mirrors(
    linkAddr: string, globalAddr: string, subnetAddr: string, randAddr: string,
    uniqueLocal1: string, uniqueLocal2: string)

  datatype Lifetimes = Lifetimes(
    lifetime: u32, valid: u32, preferred: u32, route: u32, tempValid: u32, tempPreferred: u32)

  datatype Info = Info(mirrors: Mirrors, addrs: map<string, int>, routes: seq<string>, routeAddr: string,
                       life: Lifetimes)

  const EMPTY := Info(
                   Mirrors("", "", "", "", "", ""), map[], [], "",
                   Lifetimes(IPV6_LIFETIME_INFINITY, IPV6_LIFETIME_INFINITY, IPV6_LIFETIME_INFINITY,
                             IPV6_LIFETIME_INFINITY, IPV6_LIFETIME_INFINITY, IPV6_LIFETIME_INFINITY))

  // ----- The mirrors -----

  predicate ValidType(t: int) {
    DEFAULT <= t <= UNIQUE2
  }

  /** The field of a type; an unknown type has none and reads as empty. */
  function Mirror(m: Mirrors, t: int): string {
    if t == DEFAULT then m.linkAddr
    else if t == GLOBAL then m.globalAddr
    else if t == SUBNET then m.subnetAddr
    else if t == RAND then m.randAddr
    else if t == UNIQUE then m.uniqueLocal1
    else if t == UNIQUE2 then m.uniqueLocal2
    else ""
  }

  function WithMirror(m: Mirrors, t: int, addr: string): Mirrors {
    if t == DEFAULT then m.(linkAddr := addr)
    else if t == GLOBAL then m.(globalAddr := addr)
    else if t == SUBNET then m.(subnetAddr := addr)
    else if t == RAND then m.(randAddr := addr)
    else if t == UNIQUE then m.(uniqueLocal1 := addr)
    else if t == UNIQUE2 then m.(uniqueLocal2 := addr)
    else m
  }

  lemma MirrorOfWith(m: Mirrors, t: int, addr: string, u: int)
    ensures Mirror(WithMirror(m, t, addr), u) == if u == t && ValidType(t) then addr else Mirror(m, u)
  {
  }

  function RemoveAddrInline(m: Mirrors, t: int): (Mirrors, bool) {
    (WithMirror(m, t, ""), ValidType(t))
  }

  /** An address that does not fit leaves its field as it was. */
  function UpdateAddrInline(m: Mirrors, addr: string, t: int): (Mirrors, bool) {
    if addr == "" || |addr| >= DHCP_INET6_ADDRSTRLEN || !ValidType(t) then (m, false)
    else (WithMirror(m, t, addr), true)
  }

  // ----- Address operations -----

  predicate Refused(addr: string) {
    addr == "" || |addr| > DHCP_INET6_ADDRSTRLEN
  }

  function Others(s: Info, addr: string): Info {
    s.(addrs := s.addrs - {addr})
  }

  /** Another address can take the place of a removed one. */
  predicate IsFallback(addrs: map<string, int>, t: int, f: string) {
    f in addrs && addrs[f] == t && f != ""
  }

  /** Removing an address. When its field showed it, any other address of its type may take the field. */
  ghost predicate RemovesAddr(s: Info, addr: string, s': Info, ret: bool) {
    if Refused(addr) || addr !in s.addrs then s' == s && !ret
    else
      var t := s.addrs[addr];
      var rest := Others(s, addr);
      if Mirror(s.mirrors, t) == "" || Mirror(s.mirrors, t) != addr then s' == rest && ret
      else if exists f :: IsFallback(rest.addrs, t, f) then
        exists f :: IsFallback(rest.addrs, t, f) &&
                    (s'.mirrors, ret) == UpdateAddrInline(s.mirrors, f, t) && s' == rest.(mirrors := s'.mirrors)
      else
        (s'.mirrors, ret) == RemoveAddrInline(s.mirrors, t) && s' == rest.(mirrors := s'.mirrors)
  }

  /** Recording an address under its type, after removing it from another one. */
  ghost predicate UpdatesAddr(s: Info, addr: string, t: int, s': Info, ret: bool) {
    if Refused(addr) || (addr in s.addrs && s.addrs[addr] == t) then s' == s && !ret
    else
      exists mid :: Cleared(s, addr, mid) && Recorded(mid, addr, t, s', ret)
  }

  /** A known address is removed, whatever that reports. */
  ghost predicate Cleared(s: Info, addr: string, mid: Info) {
    if addr in s.addrs then exists ok :: RemovesAddr(s, addr, mid, ok) else mid == s
  }

  predicate Recorded(s: Info, addr: string, t: int, s': Info, ret: bool) {
    && (s'.mirrors, ret) == UpdateAddrInline(s.mirrors, addr, t)
    && s' == s.(addrs := s.addrs[addr := t], mirrors := s'.mirrors)
  }

  // ----- Agreement of the mirrors with the table -----

  predicate HasType(addrs: map<string, int>, t: int) {
    exists a :: a in addrs && addrs[a] == t
  }

  /** A field is empty exactly if no address has its type, and shows one that has it otherwise. */
  predicate AgreesOn(s: Info, t: int) {
    var m := Mirror(s.mirrors, t);
    if m == "" then !HasType(s.addrs, t) else m in s.addrs && s.addrs[m] == t
  }

  predicate Agrees(s: Info) {
    forall t :: DEFAULT <= t <= UNIQUE2 ==> AgreesOn(s, t)
  }

  /** Every address is one that fits its field. */
  predicate AllShort(s: Info) {
    forall a :: a in s.addrs ==> a != "" && |a| < DHCP_INET6_ADDRSTRLEN
  }

  lemma RemoveAgrees(s: Info, addr: string, s': Info, ret: bool)
    requires Agrees(s) && AllShort(s) && RemovesAddr(s, addr, s', ret)
    ensures Agrees(s') && AllShort(s')
    ensures !Refused(addr) && addr in s.addrs ==>
              s'.addrs == s.addrs - {addr} && (ret || !ValidType(s.addrs[addr]))
    ensures s'.routes == s.routes && s'.routeAddr == s.routeAddr && s'.life == s.life
  {
    hide Mirror, WithMirror;
    if !Refused(addr) && addr in s.addrs {
      var t := s.addrs[addr];
      forall u | ValidType(u)
        ensures AgreesOn(s', u)
      {
        assert AgreesOn(s, u);
        RemovedAgreesOn(s, addr, s', ret, u);
      }
      if !ValidType(t) {
        NoMirror(s.mirrors, t);
      }
    }
  }

  lemma NoMirror(m: Mirrors, t: int)
    requires !ValidType(t)
    ensures Mirror(m, t) == ""
  {
  }

  lemma RemovedAgreesOn(s: Info, addr: string, s': Info, ret: bool, u: int)
    requires AllShort(s) && RemovesAddr(s, addr, s', ret) && !Refused(addr) && addr in s.addrs
    requires ValidType(u) && AgreesOn(s, u)
    ensures AgreesOn(s', u)
  {
    hide Mirror, WithMirror;
    var t := s.addrs[addr];
    if Mirror(s.mirrors, t) == addr {
      if f :| IsFallback(s.addrs - {addr}, t, f) && s'.mirrors == UpdateAddrInline(s.mirrors, f, t).0 {
        MirrorOfWith(s.mirrors, t, f, u);
        assert f in s'.addrs && s'.addrs[f] == t;
      } else {
        MirrorOfWith(s.mirrors, t, "", u);
        assert forall a :: a in s'.addrs && s'.addrs[a] == t ==> IsFallback(s'.addrs, t, a);
      }
    }
  }

  lemma RecordedAgreesIff(s: Info, addr: string, t: int, s': Info, ret: bool)
    requires Agrees(s) && AllShort(s) && Recorded(s, addr, t, s', ret) && addr !in s.addrs && !Refused(addr)
    ensures Agrees(s') <==> |addr| < DHCP_INET6_ADDRSTRLEN || !ValidType(t) || HasType(s.addrs, t)
    ensures ret <==> |addr| < DHCP_INET6_ADDRSTRLEN && ValidType(t)
    ensures ret ==> Mirror(s'.mirrors, t) == addr
  {
    hide Mirror, WithMirror;
    MirrorOfWith(s.mirrors, t, addr, t);
    assert addr in s'.addrs && s'.addrs[addr] == t;
    forall u | ValidType(u) && (ret || u != t || HasType(s.addrs, t))
      ensures AgreesOn(s', u)
    {
      assert AgreesOn(s, u);
      MirrorOfWith(s.mirrors, t, addr, u);
    }
    if ValidType(t) && |addr| >= DHCP_INET6_ADDRSTRLEN && !HasType(s.addrs, t) {
      assert AgreesOn(s, t);
      assert !AgreesOn(s', t);
    }
  }

  /**
   An update keeps the mirrors in agreement if and only if the address is not as long as a
   field, or is not the first one of its type. It succeeds exactly on a new or changed address
   that fits, and then the field shows it.
   */
  lemma UpdateAgreesIff(s: Info, addr: string, t: int, s': Info, ret: bool)
    requires Agrees(s) && AllShort(s) && UpdatesAddr(s, addr, t, s', ret)
    ensures Agrees(s') <==> |addr| != DHCP_INET6_ADDRSTRLEN || !ValidType(t) || HasType(s.addrs, t)
    ensures ret <==> 0 < |addr| < DHCP_INET6_ADDRSTRLEN && ValidType(t) && !(addr in s.addrs && s.addrs[addr] == t)
    ensures ret ==> Mirror(s'.mirrors, t) == addr
    ensures s'.addrs == if Refused(addr) then s.addrs else s.addrs[addr := t]
    ensures s'.routes == s.routes && s'.routeAddr == s.routeAddr && s'.life == s.life
  {
    hide Mirror, WithMirror, Agrees, RemovesAddr, UpdateAddrInline, HasType, Recorded;
    if Refused(addr) {
    } else if addr in s.addrs && s.addrs[addr] == t {
    } else {
      var mid :| Cleared(s, addr, mid) && Recorded(mid, addr, t, s', ret);
      if addr in s.addrs {
        var ok :| RemovesAddr(s, addr, mid, ok);
        RemoveAgrees(s, addr, mid, ok);
      }
      assert mid.addrs == s.addrs - {addr};
      RecordedAgreesIff(mid, addr, t, s', ret);
      RecordedRest(mid, addr, t, s', ret);
      TypeStays(s.addrs, addr, t);
      assert s'.addrs == s.addrs[addr := t];
    }
  }

  lemma RecordedRest(s: Info, addr: string, t: int, s': Info, ret: bool)
    requires Recorded(s, addr, t, s', ret)
    ensures s'.addrs == s.addrs[addr := t]
    ensures s'.routes == s.routes && s'.routeAddr == s.routeAddr && s'.life == s.life
  {
  }

  lemma TypeStays(addrs: map<string, int>, addr: string, t: int)
    requires addr !in addrs || addrs[addr] != t
    ensures HasType(addrs - {addr}, t) <==> HasType(addrs, t)
  {
    if HasType(addrs, t) {
      var a :| a in addrs && addrs[a] == t;
      assert a in addrs - {addr};
    }
  }

  /** An address as long as a field enters the table, but the field of its type stays empty. */
  lemma LongAddressBreaksAgreement(addr: string, t: int, s': Info, ret: bool)
    requires |addr| == DHCP_INET6_ADDRSTRLEN && ValidType(t) && UpdatesAddr(EMPTY, addr, t, s', ret)
    ensures !Agrees(s') && addr in s'.addrs && !ret
  {
    assert Agrees(EMPTY) && AllShort(EMPTY);
    UpdateAgreesIff(EMPTY, addr, t, s', ret);
  }

  // ----- Routes -----

  /** The first route that fits the field. */
  function FirstFitting(routes: seq<string>): Option<string> {
    if routes == [] then None
    else if |routes[0]| >= DHCP_INET6_ADDRSTRLEN then FirstFitting(routes[1..])
    else Some(routes[0])
  }

  function RouteField(routes: seq<string>): string {
    match FirstFitting(routes)
    case None => ""
    case Some(r) => r
  }

  function AddRoute(s: Info, route: string): (Info, bool) {
    if route in s.routes then (s, false)
    else
      var routes := s.routes + [route];
      (s.(routes := routes, routeAddr := RouteField(routes)), FirstFitting(routes).Some?)
  }

  function Without(routes: seq<string>, route: string): seq<string> {
    if routes == [] then []
    else (if routes[0] == route then [] else [routes[0]]) + Without(routes[1..], route)
  }

  function RemoveRoute(s: Info, route: string): (Info, bool) {
    var routes := Without(s.routes, route);
    (s.(routes := routes, routeAddr := RouteField(routes)),
     s.routes != [] && (route in s.routes || FirstFitting(routes).Some?))
  }

  predicate NoDuplicates(routes: seq<string>) {
    forall i, j :: 0 <= i < j < |routes| ==> routes[i] != routes[j]
  }

  predicate RoutesOk(s: Info) {
    NoDuplicates(s.routes) && s.routeAddr == RouteField(s.routes)
  }

  lemma {:induction false} WithoutIff(routes: seq<string>, route: string)
    ensures forall r :: r in Without(routes, route) <==> r in routes && r != route
    ensures NoDuplicates(routes) ==> NoDuplicates(Without(routes, route))
  {
    if routes != [] {
      var rest := routes[1..];
      WithoutIff(rest, route);
      assert routes == [routes[0]] + rest;
      if NoDuplicates(routes) {
        assert forall i, j :: 0 <= i < j < |rest| ==> rest[i] == routes[i + 1] && rest[j] == routes[j + 1];
        assert NoDuplicates(rest);
        var left := Without(rest, route);
        assert forall k :: 0 <= k < |rest| ==> rest[k] != routes[0];
        forall i | 0 <= i < |left|
          ensures left[i] != routes[0]
        {
          assert left[i] in rest;
        }
        assert NoDuplicates([routes[0]] + left);
      }
    }
  }

  lemma {:induction false} WithoutAbsent(routes: seq<string>, route: string)
    requires route !in routes
    ensures Without(routes, route) == routes
  {
    if routes != [] {
      assert routes[0] in routes && forall r <- routes[1..] :: r in routes;
      WithoutAbsent(routes[1..], route);
    }
  }

  lemma FittingHead(routes: seq<string>)
    requires forall r <- routes :: |r| < DHCP_INET6_ADDRSTRLEN
    ensures RouteField(routes) == if routes == [] then "" else routes[0]
  {
    if routes != [] {
      assert routes[0] in routes;
    }
  }

  /** Routes stay free of duplicates with the field in step, whatever is added or removed. */
  lemma RouteOperationsKeep(s: Info, route: string)
    requires RoutesOk(s)
    ensures RoutesOk(AddRoute(s, route).0) && RoutesOk(RemoveRoute(s, route).0)
    ensures forall r :: r in AddRoute(s, route).0.routes <==> r in s.routes || r == route
    ensures forall r :: r in RemoveRoute(s, route).0.routes <==> r in s.routes && r != route
  {
    hide RouteField, FirstFitting;
    WithoutIff(s.routes, route);
  }

  /** A removal that finds nothing reports a change if and only if a route that fits is left. */
  lemma RemovalReportsNothing(s: Info, route: string)
    requires RoutesOk(s) && route !in s.routes
    ensures RemoveRoute(s, route).0 == s
    ensures RemoveRoute(s, route).1 <==> FirstFitting(s.routes).Some?
  {
    WithoutAbsent(s.routes, route);
  }

  /** An added route can be taken back: what remains is the state before. */
  lemma RemoveUndoesAdd(s: Info, route: string)
    requires RoutesOk(s) && route !in s.routes
    ensures RemoveRoute(AddRoute(s, route).0, route).0 == s
  {
    WithoutLast(s.routes, route);
  }

  lemma {:induction false} WithoutLast(routes: seq<string>, route: string)
    requires route !in routes
    ensures Without(routes + [route], route) == routes
  {
    if routes != [] {
      assert routes[0] in routes && forall r <- routes[1..] :: r in routes;
      WithoutLast(routes[1..], route);
      assert (routes + [route])[1..] == routes[1..] + [route];
    }
  }

  // ----- Lifetimes -----

  function Min(a: u32, b: u32): u32 {
    if a < b then a else b
  }

  function AddLifetime(l: Lifetimes, lifetime: u32, t: int): (Lifetimes, bool) {
    if t == VALID_LIFE then
      (if l.valid == lifetime then l else Refreshed(l.(valid := lifetime)), true)
    else if t == PREF_LIFE then
      (if l.preferred == lifetime then l else Refreshed(l.(preferred := lifetime)), true)
    else if t == ROUTE_LIFE then
      (if l.route == lifetime then l else Refreshed(l.(route := lifetime)), true)
    else if t == TEMP_VALID_LIFE then
      (if l.tempValid == lifetime then l else Refreshed(l.(tempValid := lifetime)), true)
    else if t == TEMP_PREF_LIFE then
      (if l.tempPreferred == lifetime then l else Refreshed(l.(tempPreferred := lifetime)), true)
    else (l, false)
  }

  function Refreshed(l: Lifetimes): Lifetimes {
    l.(lifetime := Min(l.tempValid, l.tempPreferred))
  }

  predicate LifeOk(l: Lifetimes) {
    l.lifetime <= l.tempValid && l.lifetime <= l.tempPreferred &&
    (l.lifetime == l.tempValid || l.lifetime == l.tempPreferred)
  }

  // ----- Runs -----

  datatype Operation =
    | Update(addr: string, addrType: int)
    | RemoveA(addr: string)
    | AddR(route: string)
    | RemoveR(route: string)
    | Life(lifetime: u32, lifeType: int)

  ghost predicate Next(s: Info, op: Operation, s': Info) {
    match op
    case Update(addr, t) => exists ret :: UpdatesAddr(s, addr, t, s', ret)
    case RemoveA(addr) => exists ret :: RemovesAddr(s, addr, s', ret)
    case AddR(route) => s' == AddRoute(s, route).0
    case RemoveR(route) => s' == RemoveRoute(s, route).0
    case Life(lifetime, t) => s' == s.(life := AddLifetime(s.life, lifetime, t).0)
  }

  ghost predicate IsRun(states: seq<Info>, ops: seq<Operation>) {
    && |states| == |ops| + 1 && states[0] == EMPTY
    && forall i :: 0 <= i < |ops| ==> Next(states[i], ops[i], states[i + 1])
  }

  predicate Fits(op: Operation) {
    op.Update? ==> |op.addr| < DHCP_INET6_ADDRSTRLEN
  }

  predicate InfoOk(s: Info) {
    Agrees(s) && AllShort(s) && RoutesOk(s) && LifeOk(s.life)
  }

  lemma NextKeeps(s: Info, op: Operation, s': Info)
    requires InfoOk(s) && Fits(op) && Next(s, op, s')
    ensures InfoOk(s')
  {
    hide Mirror, WithMirror, RemovesAddr, UpdatesAddr, AgreesOn, RouteField, NoDuplicates;
    match op
    case Update(addr, t) =>
      var ret :| UpdatesAddr(s, addr, t, s', ret);
      UpdateAgreesIff(s, addr, t, s', ret);
    case RemoveA(addr) =>
      var ret :| RemovesAddr(s, addr, s', ret);
      RemoveAgrees(s, addr, s', ret);
    case AddR(route) =>
      RouteOperationsKeep(s, route);
      SameMirrors(s, s');
    case RemoveR(route) =>
      RouteOperationsKeep(s, route);
      SameMirrors(s, s');
    case Life(lifetime, t) =>
      SameMirrors(s, s');
  }

  lemma SameMirrors(s: Info, s': Info)
    requires Agrees(s) && s.mirrors == s'.mirrors && s.addrs == s'.addrs
    ensures Agrees(s')
  {
    forall t | ValidType(t)
      ensures AgreesOn(s', t)
    {
      assert AgreesOn(s, t);
    }
  }

  /** In every run of updates with addresses that fit, mirrors, routes and lifetime agree with the tables. */
  lemma RunKeepsInfo(states: seq<Info>, ops: seq<Operation>)
    requires IsRun(states, ops) && forall op <- ops :: Fits(op)
    ensures forall s <- states :: InfoOk(s)
    decreases |ops|
  {
    hide Next, InfoOk;
    if ops == [] {
      EmptyOk();
    } else {
      var n := |ops| - 1;
      var earlier, front := states[..n + 1], ops[..n];
      assert forall i :: 0 <= i < n ==> front[i] == ops[i];
      assert forall i :: 0 <= i < n ==> earlier[i] == states[i];
      assert forall i :: 0 <= i < n ==> Next(earlier[i], front[i], earlier[i + 1]);
      assert forall op <- front :: op in ops;
      RunKeepsInfo(earlier, front);
      assert earlier[n] in earlier && ops[n] in ops;
      NextKeeps(states[n], ops[n], states[n + 1]);
      assert states == earlier + [states[n + 1]];
    }
  }

  lemma EmptyOk()
    ensures InfoOk(EMPTY)
  {
  }
}
