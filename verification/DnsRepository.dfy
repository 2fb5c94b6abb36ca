/**
 The repository of recursive DNS servers learnt from router advertisements (RFC 8106):
 all known servers by expiry, and the few of them in current use.
 */
module DnsRepository {
  const NUM_CURRENT_SERVERS := 3
  const NUM_SERVERS := 12

  type Address = string

  datatype Entry = Entry(address: Address, expiry: nat)

  predicate Distinct(all: seq<Entry>) {
    forall i, j :: 0 <= i < j < |all| ==> all[i].address != all[j].address
  }

  predicate Sorted(all: seq<Entry>) {
    forall i, j :: 0 <= i < j < |all| ==> all[i].expiry >= all[j].expiry
  }

  function Addresses(all: seq<Entry>): set<Address> {
    set i | 0 <= i < |all| :: all[i].address
  }

  // ----- Adding and updating -----

  /** Index of the entry of an address, the length of the list if there is none. */
  function IndexOf(all: seq<Entry>, address: Address): (k: nat)
    ensures k <= |all| && (k < |all| ==> all[k].address == address)
    ensures forall j :: 0 <= j < k ==> all[j].address != address
  {
    if all == [] || all[0].address == address then 0 else 1 + IndexOf(all[1..], address)
  }

  function Upsert(all: seq<Entry>, address: Address, expiry: nat, now: nat): seq<Entry> {
    var k := IndexOf(all, address);
    if k < |all| then all[k := Entry(address, expiry)]
    else if expiry > now then all + [Entry(address, expiry)]
    else all
  }

  function UpsertAll(all: seq<Entry>, addresses: seq<Address>, expiry: nat, now: nat): seq<Entry> {
    if addresses == [] then all
    else
      var n := |addresses| - 1;
      Upsert(UpsertAll(all, addresses[..n], expiry, now), addresses[n], expiry, now)
  }

  lemma UpsertKeeps(all: seq<Entry>, address: Address, expiry: nat, now: nat)
    requires Distinct(all)
    ensures var r := Upsert(all, address, expiry, now);
            && Distinct(r) && Addresses(all) <= Addresses(r) <= Addresses(all) + {address}
            && (forall i :: 0 <= i < |r| && r[i].address == address ==> r[i].expiry == expiry)
            && (forall i :: 0 <= i < |r| && r[i].address != address ==> i < |all| && r[i] == all[i])
  {
    var r := Upsert(all, address, expiry, now);
    var k := IndexOf(all, address);
    forall a | a in Addresses(all)
      ensures a in Addresses(r)
    {
      var i :| 0 <= i < |all| && all[i].address == a;
      assert r[i].address == a;
    }
  }

  /** After an advertisement no address is listed twice, and those it names carry its expiry. */
  lemma {:induction false} UpsertAllKeeps(all: seq<Entry>, addresses: seq<Address>, expiry: nat, now: nat)
    requires Distinct(all)
    ensures var r := UpsertAll(all, addresses, expiry, now);
            && Distinct(r) && Addresses(all) <= Addresses(r)
            && (forall i :: 0 <= i < |r| && r[i].address in addresses ==> r[i].expiry == expiry)
            && (forall i :: 0 <= i < |r| && r[i].address !in addresses ==> i < |all| && r[i] == all[i])
            && (expiry > now ==> forall a <- addresses :: a in Addresses(r))
    decreases |addresses|
  {
    if addresses != [] {
      var n := |addresses| - 1;
      UpsertAllKeeps(all, addresses[..n], expiry, now);
      var r0 := UpsertAll(all, addresses[..n], expiry, now);
      UpsertKeeps(r0, addresses[n], expiry, now);
      var r := Upsert(r0, addresses[n], expiry, now);
      forall a | a in addresses
        ensures a in addresses[..n] || a == addresses[n]
      {
      }
      if expiry > now {
        var k := IndexOf(r0, addresses[n]);
        assert r[k].address == addresses[n];
      }
    }
  }

  // ----- Trimming and choosing -----

  /** The list without its tail of expired or surplus entries. */
  function Trim(all: seq<Entry>, now: nat): (r: seq<Entry>)
    ensures r <= all
  {
    if all != [] && (|all| > NUM_SERVERS || all[|all| - 1].expiry <= now) then Trim(all[..|all| - 1], now) else all
  }

  /**
   On a list sorted by expiry, trimming leaves at most twelve live entries, and what it drops
   had expired or expires no later than anything it keeps.
   */
  lemma {:induction false} TrimKeepsTheBest(all: seq<Entry>, now: nat)
    requires Sorted(all)
    ensures var r := Trim(all, now);
            && |r| <= NUM_SERVERS
            && (forall i :: 0 <= i < |r| ==> r[i].expiry > now)
            && (forall i :: |r| <= i < |all| ==>
                  || all[i].expiry <= now
                  || (|r| == NUM_SERVERS && forall j :: 0 <= j < |r| ==> all[i].expiry <= r[j].expiry))
  {
    if all != [] && (|all| > NUM_SERVERS || all[|all| - 1].expiry <= now) {
      TrimKeepsTheBest(all[..|all| - 1], now);
    }
  }

  /** The servers in use, filled up from the front of the list while there is room. */
  function Fill(current: set<Address>, all: seq<Entry>): set<Address>
    decreases |all|
  {
    if all == [] then current
    else
      var c := Fill(current, all[..|all| - 1]);
      if |c| < NUM_CURRENT_SERVERS then c + {all[|all| - 1].address} else c
  }

  lemma SubsetSize(a: set<Address>, b: set<Address>)
    requires a <= b
    ensures |a| <= |b| && (|a| == |b| ==> a == b)
  {
    if a != {} {
      var x :| x in a;
      SubsetSize(a - {x}, b - {x});
    }
  }

  lemma AddressCount(all: seq<Entry>)
    requires Distinct(all)
    ensures |Addresses(all)| == |all|
  {
    if all == [] {
      assert Addresses(all) == {};
    } else {
      var n := |all| - 1;
      AddressCount(all[..n]);
      assert Addresses(all) == Addresses(all[..n]) + {all[n].address};
    }
  }

  lemma {:induction false} FillProgress(current: set<Address>, all: seq<Entry>)
    requires |current| <= NUM_CURRENT_SERVERS
    ensures var c := Fill(current, all);
            && current <= c <= current + Addresses(all) && |c| <= NUM_CURRENT_SERVERS
            && (|c| == NUM_CURRENT_SERVERS || Addresses(all) <= c)
    decreases |all|
  {
    if all != [] {
      var n := |all| - 1;
      FillProgress(current, all[..n]);
      assert Addresses(all) == Addresses(all[..n]) + {all[n].address};
    }
  }

  /** Filling keeps every server in use, and uses exactly three of the listed ones, or all if there are fewer. */
  lemma {:induction false} FillChooses(current: set<Address>, all: seq<Entry>)
    requires Distinct(all) && current <= Addresses(all) && |current| <= NUM_CURRENT_SERVERS
    ensures var c := Fill(current, all);
            && current <= c <= Addresses(all)
            && |c| == if |all| < NUM_CURRENT_SERVERS then |all| else NUM_CURRENT_SERVERS
  {
    FillProgress(current, all);
    AddressCount(all);
    var c := Fill(current, all);
    SubsetSize(c, Addresses(all));
    if Addresses(all) <= c {
      assert c == Addresses(all);
    }
  }

  // ----- The repository -----

  /** Servers in use are listed, at most three of them, and nothing is listed twice. */
  predicate RepoOk(current: set<Address>, all: seq<Entry>) {
    Distinct(all) && |all| <= NUM_SERVERS && current <= Addresses(all) && |current| <= NUM_CURRENT_SERVERS
  }

  method InsertByExpiry(sorted: seq<Entry>, e: Entry) returns (r: seq<Entry>)
    requires Sorted(sorted)
    ensures Sorted(r) && multiset(r) == multiset(sorted) + multiset{e}
  {
    var k := |sorted|;
    while k > 0 && sorted[k - 1].expiry < e.expiry
      invariant 0 <= k <= |sorted| && forall j :: k <= j < |sorted| ==> sorted[j].expiry < e.expiry
    {
      k := k - 1;
    }
    r := sorted[..k] + [e] + sorted[k..];
    InsertedSorted(sorted, k, e);
    InsertedSame(sorted, k, e);
  }

  lemma InsertedSorted(sorted: seq<Entry>, k: nat, e: Entry)
    requires Sorted(sorted) && k <= |sorted|
    requires k > 0 ==> sorted[k - 1].expiry >= e.expiry
    requires forall j :: k <= j < |sorted| ==> sorted[j].expiry < e.expiry
    ensures Sorted(sorted[..k] + [e] + sorted[k..])
  {
    var r := sorted[..k] + [e] + sorted[k..];
    forall i, j | 0 <= i < j < |r|
      ensures r[i].expiry >= r[j].expiry
    {
      assert r[i] == if i < k then sorted[i] else if i == k then e else sorted[i - 1];
      assert r[j] == if j < k then sorted[j] else if j == k then e else sorted[j - 1];
      assert i < k ==> i == k - 1 || sorted[i].expiry >= sorted[k - 1].expiry;
    }
  }

  lemma InsertedSame(sorted: seq<Entry>, k: nat, e: Entry)
    requires k <= |sorted|
    ensures multiset(sorted[..k] + [e] + sorted[k..]) == multiset(sorted) + multiset{e}
  {
    assert sorted == sorted[..k] + sorted[k..];
  }

  lemma LastAddress(all: seq<Entry>, current: set<Address>)
    requires all != [] && Distinct(all)
    ensures var n := |all| - 1;
            Distinct(all[..n]) && current * Addresses(all[..n]) == current * Addresses(all) - {all[n].address}
  {
  }

  /** Servers given no lifetime are not listed any more. */
  lemma NamedAreGone(addresses: seq<Address>, all: seq<Entry>, kept: seq<Entry>,
                     expiry: nat, now: nat)
    requires forall i :: 0 <= i < |all| && all[i].address in addresses ==> all[i].expiry == expiry
    requires (forall e <- kept :: e in all) && (forall e <- kept :: e.expiry > now) && expiry <= now
    ensures forall a <- addresses :: a !in Addresses(kept)
  {
    forall i | 0 <= i < |kept|
      ensures kept[i].address !in addresses
    {
      assert kept[i] in all;
      var j :| 0 <= j < |all| && all[j] == kept[i];
    }
  }

  class DnsServerRepository {
    var currentServers: set<Address>
    var allServers: seq<Entry>
    const minLifetime: nat

    ghost predicate Valid()
      reads this
    {
      RepoOk(currentServers, allServers)
    }

    constructor (minLifetime: nat)
      ensures Valid() && currentServers == {} && allServers == [] && this.minLifetime == minLifetime
    {
      currentServers, allServers := {}, [];
      this.minLifetime := minLifetime;
    }

    method Clear()
      modifies this
      ensures Valid() && currentServers == {} && allServers == []
    {
      currentServers, allServers := {}, [];
    }

    method UpdateExistingEntry(address: Address, expiry: nat) returns (found: bool)
      modifies this`allServers
      ensures found == (IndexOf(old(allServers), address) < |old(allServers)|)
      ensures allServers == if found then old(allServers)[IndexOf(old(allServers), address) := Entry(address, expiry)]
                            else old(allServers)
    {
      for i := 0 to |allServers|
        invariant allServers == old(allServers) && forall j :: 0 <= j < i ==> allServers[j].address != address
      {
        if allServers[i].address == address {
          allServers := allServers[i := Entry(address, expiry)];
          return true;
        }
      }
      return false;
    }

    /** Any order by falling expiry will do: entries that expire together may end up either way round. */
    method SortByExpiry()
      modifies this`allServers
      ensures Sorted(allServers) && multiset(allServers) == multiset(old(allServers))
    {
      var sorted: seq<Entry> := [];
      for i := 0 to |allServers|
        invariant allServers == old(allServers)
        invariant Sorted(sorted) && multiset(sorted) == multiset(allServers[..i])
      {
        assert allServers[..i + 1] == allServers[..i] + [allServers[i]];
        sorted := InsertByExpiry(sorted, allServers[i]);
      }
      assert allServers[..|allServers|] == allServers;
      allServers := sorted;
    }

    /** Dropping expired and surplus servers from the end of the list, and from use. */
    method DropTail(now: nat) returns (changed: bool)
      requires Distinct(allServers) && currentServers <= Addresses(allServers)
      modifies this
      ensures allServers == Trim(old(allServers), now)
      ensures currentServers == old(currentServers) * Addresses(allServers)
      ensures changed == (currentServers != old(currentServers))
    {
      hide Addresses, Distinct;
      changed := false;
      ghost var all0, current0 := allServers, currentServers;
      assert current0 * Addresses(all0) == current0;
      while allServers != [] && (|allServers| > NUM_SERVERS || allServers[|allServers| - 1].expiry <= now)
        invariant Distinct(allServers) && Trim(all0, now) == Trim(allServers, now)
        invariant currentServers == current0 * Addresses(allServers)
        invariant if changed then |currentServers| < |current0| else currentServers == current0
        decreases |allServers|
      {
        var last := |allServers| - 1;
        var address := allServers[last].address;
        LastAddress(allServers, current0);
        allServers := allServers[..last];
        if address in currentServers {
          currentServers := currentServers - {address};
          changed := true;
        } else {
          assert currentServers == currentServers - {address};
        }
      }
    }

    method FillCurrent() returns (changed: bool)
      requires Distinct(allServers) && currentServers <= Addresses(allServers)
      requires |currentServers| <= NUM_CURRENT_SERVERS
      modifies this`currentServers
      ensures currentServers == Fill(old(currentServers), allServers)
      ensures changed == (currentServers != old(currentServers))
    {
      hide Addresses, Distinct;
      changed := false;
      ghost var current0 := currentServers;
      for i := 0 to |allServers|
        invariant currentServers == Fill(current0, allServers[..i])
        invariant if changed then |currentServers| > |current0| else currentServers == current0
      {
        if |currentServers| >= NUM_CURRENT_SERVERS {
          FillFull(current0, allServers, i);
          return;
        }
        assert allServers[..i + 1][..i] == allServers[..i];
        if allServers[i].address !in currentServers {
          changed := true;
        } else {
          assert currentServers + {allServers[i].address} == currentServers;
        }
        currentServers := currentServers + {allServers[i].address};
      }
      assert allServers[..|allServers|] == allServers;
    }

    /** Dropping the tail and filling up; the flag tells whether the servers in use changed. */
    method UpdateCurrentServers(now: nat) returns (changed: bool)
      requires Sorted(allServers) && Distinct(allServers)
      requires currentServers <= Addresses(allServers) && |currentServers| <= NUM_CURRENT_SERVERS
      modifies this
      ensures allServers == Trim(old(allServers), now)
      ensures currentServers == Fill(old(currentServers) * Addresses(allServers), allServers)
      ensures Valid() && changed == (currentServers != old(currentServers))
    {
      if allServers == [] {
        assert currentServers == {};
        return false;
      }
      changed := DropTail(now);
      ghost var left := currentServers;
      TrimKeepsTheBest(old(allServers), now);
      SubsetSize(left, old(currentServers));
      var filled := FillCurrent();
      FillChooses(left, allServers);
      changed := changed || filled;
      if left != old(currentServers) {
        var gone :| gone in old(currentServers) && gone !in left;
        assert gone !in currentServers;
      }
    }

    method UpdateAll(addresses: seq<Address>, expiry: nat, now: nat)
      modifies this`allServers
      ensures allServers == UpsertAll(old(allServers), addresses, expiry, now)
    {
      for i := 0 to |addresses|
        invariant allServers == UpsertAll(old(allServers), addresses[..i], expiry, now)
      {
        assert addresses[..i + 1][..i] == addresses[..i];
        var found := UpdateExistingEntry(addresses[i], expiry);
        if !found && expiry > now {
          allServers := allServers + [Entry(addresses[i], expiry)];
        }
      }
      assert addresses[..|addresses|] == addresses;
    }

    /** An advertisement: unless its lifetime is too short to be used, it refreshes the repository. */
    method AddServers(lifetime: nat, addresses: seq<Address>, now: nat, later: nat) returns (changed: bool)
      requires Valid() && now <= later
      modifies this
      ensures Valid() && changed == (currentServers != old(currentServers))
      ensures if lifetime != 0 && lifetime < minLifetime
              then currentServers == old(currentServers) && allServers == old(allServers)
              else Refreshed(old(currentServers), old(allServers), currentServers, allServers,
                             lifetime, addresses, now, later)
    {
      hide Fill, Trim, UpsertAll, Sorted, Refreshed, Addresses;
      if lifetime != 0 && lifetime < minLifetime {
        return false;
      }
      var expiry := now + lifetime * 1000;
      UpdateAll(addresses, expiry, now);
      UpsertAllKeeps(old(allServers), addresses, expiry, now);
      ghost var upserted := allServers;
      SortByExpiry();
      SameEntries(upserted, allServers);
      ghost var sorted := allServers;
      changed := UpdateCurrentServers(later);
      AdvertisementRefreshes(old(currentServers), old(allServers), sorted, lifetime, addresses, now, later);
    }
  }

  /**
   What an advertisement leaves: everything listed is live; a server no longer listed had expired
   or made room for twelve that last as long; a lifetime of 0 removes the named servers; three
   servers are in use, or all if there are fewer; and a server in use that is still listed stays so.
   */
  ghost predicate Refreshed(current0: set<Address>, all0: seq<Entry>, current: set<Address>, all: seq<Entry>,
                            lifetime: nat, addresses: seq<Address>, now: nat, later: nat) {
    && (forall e <- all :: e.expiry > later)
    && Listed(UpsertAll(all0, addresses, now + lifetime * 1000, now), all, later)
    && (lifetime == 0 ==> forall a <- addresses :: a !in Addresses(all))
    && |current| == (if |all| < NUM_CURRENT_SERVERS then |all| else NUM_CURRENT_SERVERS)
    && current0 * Addresses(all) <= current <= Addresses(all)
  }

  lemma {:induction false} AdvertisementRefreshes(current0: set<Address>, all0: seq<Entry>, sorted: seq<Entry>,
                                                  lifetime: nat, addresses: seq<Address>, now: nat, later: nat)
    requires RepoOk(current0, all0) && Sorted(sorted) && now <= later
    requires multiset(sorted) == multiset(UpsertAll(all0, addresses, now + lifetime * 1000, now))
    ensures var all := Trim(sorted, later);
            var current := Fill(current0 * Addresses(all), all);
            RepoOk(current, all) && Refreshed(current0, all0, current, all, lifetime, addresses, now, later)
  {
    hide Fill, Trim, UpsertAll, Addresses, Distinct, Listed, Sorted;
    var expiry := now + lifetime * 1000;
    var upserted := UpsertAll(all0, addresses, expiry, now);
    UpsertAllKeeps(all0, addresses, expiry, now);
    SameEntries(upserted, sorted);
    var all := Trim(sorted, later);
    TrimIsLive(sorted, later);
    var left := current0 * Addresses(all);
    SubsetSize(left, current0);
    FillChooses(left, all);
    ListedFromTrim(upserted, sorted, all, later);
    if lifetime == 0 {
      NamedAreGone(addresses, upserted, all, expiry, later);
    }
  }

  lemma {:induction false} TrimIsLive(sorted: seq<Entry>, now: nat)
    requires Sorted(sorted) && Distinct(sorted)
    ensures var all := Trim(sorted, now);
            && Distinct(all) && |all| <= NUM_SERVERS
            && (forall e <- all :: e.expiry > now) && (forall e <- all :: e in sorted)
  {
    hide Trim;
    TrimKeepsTheBest(sorted, now);
  }

  /** `kept` holds entries of `all`; what it leaves out had expired or expires no later than twelve kept ones. */
  ghost predicate Listed(all: seq<Entry>, kept: seq<Entry>, now: nat) {
    && (forall e <- kept :: e in all)
    && (forall e <- all | e !in kept ::
          e.expiry <= now || (|kept| == NUM_SERVERS && forall f <- kept :: e.expiry <= f.expiry))
  }

  lemma {:induction false} FillFull(current: set<Address>, all: seq<Entry>, i: nat)
    requires i <= |all| && |Fill(current, all[..i])| >= NUM_CURRENT_SERVERS
    ensures Fill(current, all) == Fill(current, all[..i])
    decreases |all| - i
  {
    if i < |all| {
      assert all[..i + 1][..i] == all[..i];
      FillFull(current, all, i + 1);
    } else {
      assert all[..i] == all;
    }
  }

  /** Sorting moves entries about and changes none. */
  lemma SameEntries(a: seq<Entry>, b: seq<Entry>)
    requires multiset(a) == multiset(b) && Distinct(a)
    ensures (forall e :: e in a <==> e in b) && Addresses(a) == Addresses(b) && Distinct(b)
  {
    forall e
      ensures e in a <==> e in b
    {
      assert e in multiset(a) <==> e in multiset(b);
    }
    forall x
      ensures x in Addresses(a) <==> x in Addresses(b)
    {
      if x in Addresses(a) {
        var i :| 0 <= i < |a| && a[i].address == x;
        assert a[i] in b;
      }
      if x in Addresses(b) {
        var i :| 0 <= i < |b| && b[i].address == x;
        assert b[i] in a;
      }
    }
    AddressCount(a);
    assert Addresses(a) == Addresses(b);
    assert |multiset(a)| == |a| && |multiset(b)| == |b|;
    AddressesDistinct(b);
  }

  lemma AddressesBound(b: seq<Entry>)
    ensures |Addresses(b)| <= |b|
  {
    if b == [] {
      assert Addresses(b) == {};
    } else {
      var n := |b| - 1;
      AddressesBound(b[..n]);
      assert Addresses(b) == Addresses(b[..n]) + {b[n].address};
    }
  }

  /** As many addresses as entries means no address twice. */
  lemma AddressesDistinct(b: seq<Entry>)
    requires |Addresses(b)| == |b|
    ensures Distinct(b)
  {
    if b != [] {
      var n := |b| - 1;
      assert Addresses(b) == Addresses(b[..n]) + {b[n].address};
      AddressesBound(b[..n]);
      AddressesDistinct(b[..n]);
      forall i | 0 <= i < n
        ensures b[i].address != b[n].address
      {
        assert b[..n][i].address in Addresses(b[..n]);
      }
    }
  }

  lemma {:induction false} ListedFromTrim(all: seq<Entry>, sorted: seq<Entry>, kept: seq<Entry>, now: nat)
    requires (forall e :: e in all <==> e in sorted) && Sorted(sorted) && kept == Trim(sorted, now)
    ensures Listed(all, kept, now)
  {
    TrimKeepsTheBest(sorted, now);
    forall e | e in all && e !in kept
      ensures e.expiry <= now || (|kept| == NUM_SERVERS && forall f <- kept :: e.expiry <= f.expiry)
    {
      var i :| 0 <= i < |sorted| && sorted[i] == e;
      assert i >= |kept|;
    }
  }
}
