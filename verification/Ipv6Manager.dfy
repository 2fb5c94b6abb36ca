/**
 The operations on the IPv6 information of an interface, as they change it in place.
 */
module Ipv6Manager {
  import opened Wrappers
  import opened Words
  import opened Ipv6Info

  class DhcpIpv6Info {
    var mirrors: Mirrors
    var ipAddrMap: map<string, int>
    var defaultRouteAddr: seq<string>
    var routeAddr: string
    var life: Lifetimes

    ghost function State(): Info
      reads this
    {
      Info(mirrors, ipAddrMap, defaultRouteAddr, routeAddr, life)
    }

    constructor ()
      ensures State() == EMPTY && InfoOk(State())
    {
      mirrors, ipAddrMap, defaultRouteAddr, routeAddr := EMPTY.mirrors, map[], [], "";
      life := EMPTY.life;
      new;
      EmptyOk();
    }

    /** Everything goes back to what a new structure holds. */
    method Clear()
      modifies this
      ensures State() == EMPTY
    {
      mirrors, ipAddrMap, defaultRouteAddr, routeAddr := EMPTY.mirrors, map[], [], "";
      life := EMPTY.life;
    }

    /** The table is visited in some order; the last address of the type that is met is the fallback. */
    method FindFallback(t: int) returns (fallback: string)
      ensures fallback != "" ==> IsFallback(ipAddrMap, t, fallback)
      ensures fallback == "" ==> forall f :: !IsFallback(ipAddrMap, t, f)
    {
      fallback := "";
      var todo := ipAddrMap.Keys;
      while todo != {}
        invariant todo <= ipAddrMap.Keys
        invariant fallback != "" ==> IsFallback(ipAddrMap, t, fallback)
        invariant fallback == "" ==> forall f :: IsFallback(ipAddrMap, t, f) ==> f in todo
        decreases |todo|
      {
        var key :| key in todo;
        if ipAddrMap[key] == t && key != "" {
          fallback := key;
        }
        todo := todo - {key};
      }
    }

    method RemoveAddr(addr: string) returns (ret: bool)
      modifies this`mirrors, this`ipAddrMap
      ensures RemovesAddr(old(State()), addr, State(), ret)
    {
      hide Mirror, UpdateAddrInline, RemoveAddrInline;
      if Refused(addr) || addr !in ipAddrMap {
        return false;
      }
      var t := ipAddrMap[addr];
      ipAddrMap := ipAddrMap - {addr};
      var latest := Mirror(mirrors, t);
      if latest != "" && latest == addr {
        var fallback := FindFallback(t);
        if fallback != "" {
          var (m, ok) := UpdateAddrInline(mirrors, fallback, t);
          mirrors := m;
          return ok;
        }
        var (m, ok) := RemoveAddrInline(mirrors, t);
        mirrors := m;
        return ok;
      }
      return true;
    }

    method UpdateAddr(addr: string, t: int) returns (ret: bool)
      modifies this`mirrors, this`ipAddrMap
      ensures UpdatesAddr(old(State()), addr, t, State(), ret)
    {
      hide UpdateAddrInline, RemovesAddr;
      if Refused(addr) {
        return false;
      }
      if addr in ipAddrMap && ipAddrMap[addr] == t {
        return false;
      }
      if addr in ipAddrMap {
        var removed := RemoveAddr(addr);
      }
      ghost var mid := State();
      assert Cleared(old(State()), addr, mid);
      ipAddrMap := ipAddrMap[addr := t];
      var (m, ok) := UpdateAddrInline(mirrors, addr, t);
      mirrors := m;
      assert Recorded(mid, addr, t, State(), ok);
      return ok;
    }

    /** The first route that fits is copied into the field, which has been cleared. */
    method CopyFirstRoute() returns (copied: bool)
      modifies this`routeAddr
      ensures routeAddr == RouteField(defaultRouteAddr)
      ensures copied <==> FirstFitting(defaultRouteAddr).Some?
    {
      routeAddr := "";
      var i := 0;
      while i < |defaultRouteAddr|
        invariant 0 <= i <= |defaultRouteAddr| && routeAddr == ""
        invariant FirstFitting(defaultRouteAddr[i..]) == FirstFitting(defaultRouteAddr)
      {
        assert defaultRouteAddr[i..][1..] == defaultRouteAddr[i + 1..];
        if |defaultRouteAddr[i]| < DHCP_INET6_ADDRSTRLEN {
          routeAddr := defaultRouteAddr[i];
          return true;
        }
        i := i + 1;
      }
      return false;
    }

    method AddRouteAddr(route: string) returns (ret: bool)
      modifies this`routeAddr, this`defaultRouteAddr
      ensures (State(), ret) == AddRoute(old(State()), route)
    {
      hide RouteField, FirstFitting;
      if route in defaultRouteAddr {
        return false;
      }
      defaultRouteAddr := defaultRouteAddr + [route];
      ret := CopyFirstRoute();
    }

    /** Every occurrence of the route is erased, from the end of the list to its start. */
    method EraseRoute(route: string) returns (isChanged: bool)
      modifies this`defaultRouteAddr
      ensures defaultRouteAddr == Without(old(defaultRouteAddr), route)
      ensures isChanged <==> route in old(defaultRouteAddr)
    {
      ghost var routes := defaultRouteAddr;
      isChanged := false;
      var i := |defaultRouteAddr| - 1;
      while i >= 0
        invariant -1 <= i < |routes| && defaultRouteAddr == routes[..i + 1] + Without(routes[i + 1..], route)
        invariant isChanged <==> route in routes[i + 1..]
      {
        assert routes[i..][1..] == routes[i + 1..] && routes[i..] == [routes[i]] + routes[i + 1..];
        assert routes[..i + 1] == routes[..i] + [routes[i]];
        if defaultRouteAddr[i] == route {
          defaultRouteAddr := defaultRouteAddr[..i] + defaultRouteAddr[i + 1..];
          isChanged := true;
        }
        i := i - 1;
      }
    }

    method RemoveRouteAddr(route: string) returns (ret: bool)
      modifies this`routeAddr, this`defaultRouteAddr
      ensures (State(), ret) == RemoveRoute(old(State()), route)
    {
      hide FirstFitting;
      routeAddr := "";
      if defaultRouteAddr == [] {
        NoRouteField();
        return false;
      }
      var isChanged := EraseRoute(route);
      var copied := CopyFirstRoute();
      return copied || isChanged;
    }

    method AddLife(lifetime: u32, t: int) returns (ret: bool)
      modifies this`life
      ensures (life, ret) == AddLifetime(old(life), lifetime, t)
    {
      match t {
        case 0 =>
          if life.valid == lifetime {
            return true;
          }
          life := life.(valid := lifetime);
        case 1 =>
          if life.preferred == lifetime {
            return true;
          }
          life := life.(preferred := lifetime);
        case 2 =>
          if life.route == lifetime {
            return true;
          }
          life := life.(route := lifetime);
        case 3 =>
          if life.tempValid == lifetime {
            return true;
          }
          life := life.(tempValid := lifetime);
        case 4 =>
          if life.tempPreferred == lifetime {
            return true;
          }
          life := life.(tempPreferred := lifetime);
        case _ =>
          return false;
      }
      life := life.(lifetime := Min(life.tempValid, life.tempPreferred));
      return true;
    }
  }

  lemma NoRouteField()
    ensures RouteField([]) == ""
  {
  }
}
