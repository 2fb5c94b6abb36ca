/**
 The DHCP result cache: one record per access point in memory and on disk, at most fifty,
 against a view that maps an access point to its record.
 */
module ResultCache {
  import opened Wrappers
  import opened Text
  import opened CacheText

  const MAX_DHCP_CACHE := 50
  const MAC_ADDR_SIZE := 17

  // ----- Limiting the cache -----

  predicate Expired(r: Info, now: int) {
    0 < r.absoluteLeasetime < now
  }

  function Live(items: seq<Info>, now: int): (r: seq<Info>)
    ensures |r| <= |items|
  {
    if items == [] then []
    else (if Expired(items[0], now) then [] else [items[0]]) + Live(items[1..], now)
  }

  predicate Sorted(items: seq<Info>) {
    forall i, j :: 0 <= i < j < |items| ==> items[i].absoluteLeasetime <= items[j].absoluteLeasetime
  }

  function Insert(r: Info, items: seq<Info>): (s: seq<Info>)
    ensures multiset(s) == multiset{r} + multiset(items)
  {
    if items == [] || r.absoluteLeasetime <= items[0].absoluteLeasetime then [r] + items
    else
      assert items == [items[0]] + items[1..];
      [items[0]] + Insert(r, items[1..])
  }

  /** One of the orders `std::sort` may give: which of two records with one lease end comes first is open. */
  function Sort(items: seq<Info>): (s: seq<Info>)
    ensures multiset(s) == multiset(items)
  {
    if items == [] then []
    else
      assert items == [items[0]] + items[1..];
      Insert(items[0], Sort(items[1..]))
  }

  lemma {:induction false} InsertSorted(r: Info, items: seq<Info>)
    requires Sorted(items)
    ensures Sorted(Insert(r, items))
  {
    if items != [] && r.absoluteLeasetime > items[0].absoluteLeasetime {
      var first, rest := items[0], Insert(r, items[1..]);
      InsertSorted(r, items[1..]);
      assert forall x <- items[1..] :: first.absoluteLeasetime <= x.absoluteLeasetime;
      assert Insert(r, items) == [first] + rest;
      hide Insert, Sorted;
      forall x | x in rest
        ensures first.absoluteLeasetime <= x.absoluteLeasetime
      {
        assert x in multiset(rest);
      }
      SortedCons(first, rest);
    }
  }

  lemma SortedCons(first: Info, rest: seq<Info>)
    requires Sorted(rest) && forall x <- rest :: first.absoluteLeasetime <= x.absoluteLeasetime
    ensures Sorted([first] + rest)
  {
  }

  lemma {:induction false} SortSorted(items: seq<Info>)
    ensures Sorted(Sort(items))
  {
    if items != [] {
      SortSorted(items[1..]);
      InsertSorted(items[0], Sort(items[1..]));
    }
  }

  lemma SameSize(a: seq<Info>, b: seq<Info>)
    requires multiset(a) == multiset(b)
    ensures |a| == |b|
  {
    assert |multiset(a)| == |a| && |multiset(b)| == |b|;
  }

  /** Expired records go; of more than fifty others, those whose leases end first. A failed clock changes nothing. */
  function Enforce(items: seq<Info>, now: int): seq<Info> {
    var live := Live(items, now);
    if now == -1 then items
    else if |live| <= MAX_DHCP_CACHE then live
    else
      SameSize(live, Sort(live));
      Sort(live)[|live| - MAX_DHCP_CACHE..]
  }

  /** As many as there is room for are kept, and nothing that is left out ends later than what is kept. */
  predicate KeepsLatest(live: seq<Info>, kept: seq<Info>) {
    && multiset(kept) <= multiset(live)
    && |kept| == (if |live| <= MAX_DHCP_CACHE then |live| else MAX_DHCP_CACHE)
    && forall d <- multiset(live) - multiset(kept), k <- kept :: d.absoluteLeasetime <= k.absoluteLeasetime
  }

  lemma CutKeepsLatest(live: seq<Info>, sorted: seq<Info>, n: nat)
    requires multiset(sorted) == multiset(live) && Sorted(sorted)
    requires |live| > MAX_DHCP_CACHE && |sorted| == |live| && n == |live| - MAX_DHCP_CACHE
    ensures KeepsLatest(live, sorted[n..])
  {
    var early, late := sorted[..n], sorted[n..];
    assert sorted == early + late;
    assert multiset(live) - multiset(late) == multiset(early);
    forall d: Info, k: Info | d in multiset(early) && k in late
      ensures d.absoluteLeasetime <= k.absoluteLeasetime
    {
      assert d in early;
    }
  }

  lemma AllKept(live: seq<Info>)
    requires |live| <= MAX_DHCP_CACHE
    ensures KeepsLatest(live, live)
  {
    assert multiset(live) - multiset(live) == multiset{};
  }

  /** Only expired records go, and what there is no room for. */
  lemma {:induction false} EnforceKeepsTheLatest(items: seq<Info>, now: int)
    requires now != -1
    ensures KeepsLatest(Live(items, now), Enforce(items, now))
  {
    hide Live, Sort, KeepsLatest, Sorted;
    var live := Live(items, now);
    var sorted := Sort(live);
    SortSorted(live);
    SameSize(live, sorted);
    if |live| > MAX_DHCP_CACHE {
      assert Enforce(items, now) == sorted[|live| - MAX_DHCP_CACHE..];
      hide Enforce;
      CutKeepsLatest(live, sorted, |live| - MAX_DHCP_CACHE);
    } else {
      assert Enforce(items, now) == live;
      hide Enforce;
      AllKept(live);
    }
  }

  lemma {:induction false} LiveIff(items: seq<Info>, now: int)
    ensures forall r :: r in Live(items, now) <==> r in items && !Expired(r, now)
  {
    if items != [] {
      LiveIff(items[1..], now);
      assert items == [items[0]] + items[1..];
    }
  }

  // ----- The view of a cache -----

  predicate Distinct(items: seq<Info>) {
    forall i, j :: 0 <= i < j < |items| ==> items[i].bssid != items[j].bssid
  }

  function Lookup(items: seq<Info>, bssid: string): Option<Info> {
    if items == [] then None
    else if items[0].bssid == bssid then Some(items[0])
    else Lookup(items[1..], bssid)
  }

  function RemoveFirst(items: seq<Info>, bssid: string): seq<Info> {
    if items == [] then []
    else if items[0].bssid == bssid then items[1..]
    else [items[0]] + RemoveFirst(items[1..], bssid)
  }

  /** Among distinct records a record is found exactly if it is there. */
  lemma {:induction false} LookupIff(items: seq<Info>, bssid: string)
    ensures Lookup(items, bssid).Some? ==>
              Lookup(items, bssid).value in items && Lookup(items, bssid).value.bssid == bssid
    ensures Lookup(items, bssid).None? ==> forall r <- items :: r.bssid != bssid
    ensures Distinct(items) ==> forall r <- items :: r.bssid == bssid ==> Lookup(items, bssid) == Some(r)
  {
    if items != [] {
      LookupIff(items[1..], bssid);
      assert items == [items[0]] + items[1..];
      if Distinct(items) {
        DistinctTail(items);
      }
    }
  }

  lemma DistinctTail(items: seq<Info>)
    requires Distinct(items) && items != []
    ensures Distinct(items[1..]) && forall r <- items[1..] :: r.bssid != items[0].bssid
  {
  }

  lemma {:induction false} RemoveFirstIff(items: seq<Info>, bssid: string)
    requires Distinct(items)
    ensures var r := RemoveFirst(items, bssid);
            && Distinct(r) && |r| <= |items|
            && forall x :: x in r <==> x in items && x.bssid != bssid
  {
    if items != [] {
      DistinctTail(items);
      RemoveFirstIff(items[1..], bssid);
      assert items == [items[0]] + items[1..];
      var rest := RemoveFirst(items[1..], bssid);
      if items[0].bssid != bssid {
        DistinctCons(items[0], rest);
      }
    }
  }

  lemma DistinctCons(r: Info, items: seq<Info>)
    requires Distinct(items) && forall x <- items :: x.bssid != r.bssid
    ensures Distinct([r] + items) && Distinct(items + [r])
  {
  }

  lemma {:induction false} LiveDistinct(items: seq<Info>, now: int)
    requires Distinct(items)
    ensures Distinct(Live(items, now))
  {
    if items != [] {
      DistinctTail(items);
      LiveDistinct(items[1..], now);
      LiveIff(items[1..], now);
      DistinctCons(items[0], Live(items[1..], now));
    }
  }

  // ----- Distinct records as a multiset -----

  /** Distinctness is about the records, not about their order. */
  lemma {:induction false} InsertDistinct(r: Info, items: seq<Info>)
    requires Distinct(items) && forall x <- items :: x.bssid != r.bssid
    ensures Distinct(Insert(r, items))
  {
    DistinctCons(r, items);
    if items != [] && r.absoluteLeasetime > items[0].absoluteLeasetime {
      DistinctTail(items);
      var rest := Insert(r, items[1..]);
      InsertDistinct(r, items[1..]);
      forall x | x in rest
        ensures x.bssid != items[0].bssid
      {
        assert x in multiset(rest);
      }
      DistinctCons(items[0], rest);
    }
  }

  lemma {:induction false} SortDistinct(items: seq<Info>)
    requires Distinct(items)
    ensures Distinct(Sort(items))
  {
    if items != [] {
      DistinctTail(items);
      SortDistinct(items[1..]);
      var rest := Sort(items[1..]);
      forall x | x in rest
        ensures x.bssid != items[0].bssid
      {
        assert x in multiset(rest);
      }
      InsertDistinct(items[0], rest);
    }
  }

  lemma {:induction false} EnforceDistinct(items: seq<Info>, now: int)
    requires Distinct(items) && now != -1
    ensures Distinct(Enforce(items, now)) && |Enforce(items, now)| <= MAX_DHCP_CACHE
    ensures forall r <- Enforce(items, now) :: r in items && !Expired(r, now)
    ensures |Live(items, now)| <= MAX_DHCP_CACHE ==>
              Enforce(items, now) == Live(items, now) &&
              forall r <- items :: Expired(r, now) || r in Enforce(items, now)
  {
    hide Live, Sort, Distinct, Expired;
    LiveIff(items, now);
    LiveDistinct(items, now);
    var live := Live(items, now);
    SortDistinct(live);
    if |live| > MAX_DHCP_CACHE {
      var sorted := Sort(live);
      SameSize(live, sorted);
      SuffixDistinct(sorted, |live| - MAX_DHCP_CACHE);
      forall r | r in sorted
        ensures r in live
      {
        assert r in multiset(sorted);
      }
    }
  }

  lemma SuffixDistinct(items: seq<Info>, k: nat)
    requires Distinct(items) && k <= |items|
    ensures Distinct(items[k..]) && forall r <- items[k..] :: r in items
  {
  }

  // ----- The store and its operations -----

  /** The file, the records in memory, and whether the file's name is set. */
  datatype Store = Store(file: Option<string>, cache: seq<Info>, named: bool)

  /** Loading replaces the memory by the file; a missing file leaves the memory as it is. */
  function LoadAllIpCached(s: Store, blank: Info, now: int): Store {
    match s.file
    case None => s.(named := true)
    case Some(text) => Store(s.file, Enforce(ReadFile(blank, Lines(text)), now), true)
  }

  /** Saving writes the memory and forgets it; without a name it fails and keeps it. */
  function SaveConfig(s: Store): (Store, int) {
    if s.named then (Store(Some(Content(s.cache)), [], true), 0) else (s, -1)
  }

  function SaveIpInfoInLocalFile(s: Store, r: Info, now: int): (Store, int) {
    SaveConfig(s.(cache := Enforce(RemoveFirst(s.cache, r.bssid) + [r], now)))
  }

  function GetCachedIp(s: Store, blank: Info, bssid: string, now: int): (Store, Option<Info>) {
    var t := LoadAllIpCached(s, blank, now);
    (t, Lookup(t.cache, bssid))
  }

  function WithoutSsid(items: seq<Info>, ssid: string): seq<Info> {
    if items == [] then []
    else (if items[0].ssid == ssid then [] else [items[0]]) + WithoutSsid(items[1..], ssid)
  }

  function RemoveCachedIp(s: Store, blank: Info, ssid: string, now: int): (Store, int) {
    var t := LoadAllIpCached(s, blank, now);
    if ssid == "" || t.cache == [] then (t, -1)
    else SaveConfig(t.(cache := WithoutSsid(t.cache, ssid)))
  }

  /** The name of the network given to the first record of the access point. */
  function Renamed(items: seq<Info>, bssid: string, ssid: string): seq<Info> {
    if items == [] then []
    else if items[0].bssid == bssid then [items[0].(ssid := ssid)] + items[1..]
    else [items[0]] + Renamed(items[1..], bssid, ssid)
  }

  function AddCachedIp(s: Store, blank: Info, bssid: string, ssid: string, now: int): (Store, int) {
    var t := LoadAllIpCached(s, blank, now);
    if t.cache == [] || ssid == "" || |bssid| != MAC_ADDR_SIZE then (t, -1)
    else SaveConfig(t.(cache := Renamed(t.cache, bssid, ssid)))
  }

  // ----- What every run keeps -----

  predicate Clean(r: Info) {
    Storable(r) && AllUntrimmable(r)
  }

  /** At most fifty records, no access point twice, every value fit for the file. */
  predicate Good(items: seq<Info>) {
    |items| <= MAX_DHCP_CACHE && Distinct(items) && forall r <- items :: Clean(r)
  }

  /** The file, if there is one, is the text of good records, and so is the memory. */
  ghost predicate StoreOk(s: Store) {
    Good(s.cache) && (s.file.Some? ==> exists items :: Good(items) && s.file.value == Content(items))
  }

  lemma CleanNormal(r: Info)
    requires Clean(r)
    ensures Normal(r) == r.(absoluteLeasetime := ToInt32(r.absoluteLeasetime)) && Clean(Normal(r))
  {
    var cut := r.(absoluteLeasetime := ToInt32(r.absoluteLeasetime));
    assert Normal(cut) == cut == Normal(r) by {
      hide Trimmed, Untrimmable, IsValue;
      NormalIff(cut);
    }
    assert Clean(cut) by {
      hide IsValue, Untrimmable;
    }
  }

  lemma {:induction false} NormalsGood(items: seq<Info>)
    requires Good(items)
    ensures Good(Normals(items))
  {
    hide Clean, Normal;
    forall r | r in items
      ensures Clean(Normal(r)) && Normal(r).bssid == r.bssid
    {
      CleanNormal(r);
    }
    var n := Normals(items);
    forall r | r in n
      ensures Clean(r)
    {
      var k :| 0 <= k < |n| && n[k] == r;
      assert n[k] == Normal(items[k]);
    }
  }

  /** What a good file decodes to. */
  lemma {:induction false} GoodFileDecodes(items: seq<Info>, blank: Info, now: int)
    requires Good(items) && now != -1
    ensures ReadFile(blank, Lines(Content(items))) == Normals(items) && Good(Normals(items))
    ensures Good(Enforce(Normals(items), now)) && Enforce(Normals(items), now) == Live(Normals(items), now)
    ensures forall r :: r in Enforce(Normals(items), now) <==> r in Normals(items) && !Expired(r, now)
  {
    hide Storable, AllUntrimmable, Normal, ReadFile, Content, Lines, Enforce, Expired;
    SavedTextIsLoaded(blank, items);
    NormalsGood(items);
    EnforceDistinct(Normals(items), now);
  }

  datatype Operation =
    | Save(r: Info)
    | Get(bssid: string)
    | Remove(ssid: string)
    | Add(bssid: string, ssid: string)

  /** The values a caller passes in fit one line each. */
  predicate Acceptable(op: Operation) {
    match op
    case Save(r) => Clean(r)
    case Get(_) => true
    case Remove(_) => true
    case Add(_, ssid) => IsValue(ssid, 900) && Untrimmable(ssid)
  }

  function Step(s: Store, op: Operation, blank: Info, now: int): Store {
    match op
    case Save(r) => SaveIpInfoInLocalFile(s, r, now).0
    case Get(bssid) => GetCachedIp(s, blank, bssid, now).0
    case Remove(ssid) => RemoveCachedIp(s, blank, ssid, now).0
    case Add(bssid, ssid) => AddCachedIp(s, blank, bssid, ssid, now).0
  }

  lemma LoadKeeps(s: Store, blank: Info, now: int)
    requires StoreOk(s) && now != -1
    ensures StoreOk(LoadAllIpCached(s, blank, now))
  {
    hide Good, Enforce, ReadFile, Lines, Content;
    if s.file.Some? {
      var items :| Good(items) && s.file.value == Content(items);
      GoodFileDecodes(items, blank, now);
    }
  }

  lemma SaveConfigKeeps(s: Store, items: seq<Info>)
    requires StoreOk(s) && Good(items)
    ensures StoreOk(SaveConfig(s.(cache := items)).0)
  {
    hide Content, Clean;
    assert Good([]);
  }

  lemma {:induction false} UpdateGood(items: seq<Info>, r: Info, now: int)
    requires Good(items) && Clean(r) && now != -1
    ensures Good(Enforce(RemoveFirst(items, r.bssid) + [r], now))
  {
    hide Clean, Enforce, RemoveFirst;
    RemoveFirstIff(items, r.bssid);
    var rest := RemoveFirst(items, r.bssid);
    DistinctCons(r, rest);
    EnforceDistinct(rest + [r], now);
  }

  lemma {:induction false} WithoutSsidIff(items: seq<Info>, ssid: string)
    requires Distinct(items)
    ensures var r := WithoutSsid(items, ssid);
            && Distinct(r) && |r| <= |items|
            && forall x :: x in r <==> x in items && x.ssid != ssid
  {
    if items != [] {
      DistinctTail(items);
      WithoutSsidIff(items[1..], ssid);
      assert items == [items[0]] + items[1..];
      DistinctCons(items[0], WithoutSsid(items[1..], ssid));
    }
  }

  lemma {:induction false} RenamedIs(items: seq<Info>, bssid: string, ssid: string)
    ensures var r := Renamed(items, bssid, ssid);
            && |r| == |items|
            && (forall i :: 0 <= i < |r| ==> r[i] == items[i] || r[i] == items[i].(ssid := ssid))
            && forall b :: Lookup(r, b) == (if b == bssid && Lookup(items, b).Some?
                                            then Some(Lookup(items, b).value.(ssid := ssid))
                                            else Lookup(items, b))
  {
    if items != [] && items[0].bssid != bssid {
      RenamedIs(items[1..], bssid, ssid);
    }
  }

  lemma {:induction false} RenamedGood(items: seq<Info>, bssid: string, ssid: string)
    requires Good(items) && IsValue(ssid, 900) && Untrimmable(ssid)
    ensures Good(Renamed(items, bssid, ssid))
  {
    var r := Renamed(items, bssid, ssid);
    RenamedIs(items, bssid, ssid);
    hide IsValue, Untrimmable, Renamed, Lookup;
    forall x | x in r
      ensures Clean(x)
    {
      var k :| 0 <= k < |r| && r[k] == x;
      assert items[k] in items;
    }
  }

  lemma StepKeepsStore(s: Store, op: Operation, blank: Info, now: int)
    requires StoreOk(s) && Acceptable(op) && now != -1
    ensures StoreOk(Step(s, op, blank, now))
  {
    hide Enforce, RemoveFirst, LoadAllIpCached, SaveConfig, Clean, Content, Lookup;
    LoadKeeps(s, blank, now);
    var t := LoadAllIpCached(s, blank, now);
    match op
    case Save(r) =>
      UpdateGood(s.cache, r, now);
      SaveConfigKeeps(s, Enforce(RemoveFirst(s.cache, r.bssid) + [r], now));
    case Get(_) =>
    case Remove(ssid) =>
      WithoutSsidIff(t.cache, ssid);
      SaveConfigKeeps(t, WithoutSsid(t.cache, ssid));
    case Add(bssid, ssid) =>
      RenamedGood(t.cache, bssid, ssid);
      SaveConfigKeeps(t, Renamed(t.cache, bssid, ssid));
  }

  function Run(s: Store, ops: seq<(Operation, int)>, blank: Info): Store
    decreases |ops|
  {
    if ops == [] then s else Run(Step(s, ops[0].0, blank, ops[0].1), ops[1..], blank)
  }

  /** From no file at all, every run leaves a file of at most fifty records with distinct access points. */
  lemma {:induction false} RunKeepsStore(s: Store, ops: seq<(Operation, int)>, blank: Info)
    requires StoreOk(s)
    requires forall o <- ops :: Acceptable(o.0) && o.1 != -1
    ensures StoreOk(Run(s, ops, blank))
    ensures var file := Run(s, ops, blank).file;
            file.Some? ==>
              var loaded := ReadFile(blank, Lines(file.value));
              |loaded| <= MAX_DHCP_CACHE && Distinct(loaded)
    decreases |ops|
  {
    hide Step, Acceptable, Clean, ReadFile, Lines, Content;
    if ops == [] {
      if s.file.Some? {
        var items :| Good(items) && s.file.value == Content(items);
        GoodFileDecodes(items, blank, 0);
      }
    } else {
      assert ops[0] in ops && forall o <- ops[1..] :: o in ops;
      StepKeepsStore(s, ops[0].0, blank, ops[0].1);
      RunKeepsStore(Step(s, ops[0].0, blank, ops[0].1), ops[1..], blank);
    }
  }

  // ----- What the operations mean for the view -----

  /** What reading a record from the file shows at a time. */
  function Seen(o: Option<Info>, now: int): Option<Info> {
    if o.Some? && !Expired(Normal(o.value), now) then Some(Normal(o.value)) else None
  }

  /** A lookup through the file sees the record that was written, unless it expired. */
  lemma {:induction false} GetSeesFile(s: Store, items: seq<Info>, blank: Info, bssid: string, now: int)
    requires Good(items) && s.file == Some(Content(items)) && now != -1
    ensures GetCachedIp(s, blank, bssid, now).1 == Seen(Lookup(items, bssid), now)
  {
    hide Clean, Enforce, Normal, Lookup, ReadFile, Lines, Content, Expired, ToInt32;
    GoodFileDecodes(items, blank, now);
    var loaded := Enforce(Normals(items), now);
    LookupIff(items, bssid);
    LookupIff(loaded, bssid);
    forall r | r in items
      ensures Normal(r).bssid == r.bssid && Normal(r) in Normals(items)
    {
      CleanNormal(r);
      var k :| 0 <= k < |items| && items[k] == r;
      assert Normals(items)[k] == Normal(items[k]);
    }
    forall r | r in loaded
      ensures exists k :: 0 <= k < |items| && r == Normal(items[k])
    {
      assert r in Normals(items);
      var k :| 0 <= k < |items| && Normals(items)[k] == r;
    }
  }

  function Unless(o: Option<Info>, now: int): Option<Info> {
    if o.Some? && Expired(o.value, now) then None else o
  }

  /** The memory after a save, before it is written: the new record at the end, and no more than there is room for. */
  function Updated(cache: seq<Info>, r: Info, now: int): seq<Info> {
    Enforce(RemoveFirst(cache, r.bssid) + [r], now)
  }

  /** The record an access point should have after a save, unless it expired. */
  function Expected(cache: seq<Info>, r: Info, bssid: string, now: int): Option<Info> {
    Unless(if bssid == r.bssid then Some(r) else Lookup(cache, bssid), now)
  }

  /**
   What is left of a live record: it is there unless it made room for fifty others, none of which
   ends earlier; and a memory with room keeps it.
   */
  lemma KeptUnlessCrowdedOut(cache: seq<Info>, r: Info, bssid: string, now: int)
    requires Good(cache) && Clean(r) && now != -1
    ensures var kept := Updated(cache, r, now);
            && Good(kept)
            && (forall x <- kept :: x.bssid == bssid ==> Expected(cache, r, bssid, now) == Some(x))
            && (Expected(cache, r, bssid, now).Some? && Expected(cache, r, bssid, now).value !in kept ==>
                  && |cache| == MAX_DHCP_CACHE && |kept| == MAX_DHCP_CACHE
                  && forall k <- kept :: Expected(cache, r, bssid, now).value.absoluteLeasetime <= k.absoluteLeasetime)
  {
    hide Clean, Enforce, Lookup, RemoveFirst, Expired, KeepsLatest, Live;
    var rest := RemoveFirst(cache, r.bssid);
    var all := rest + [r];
    var kept := Updated(cache, r, now);
    RemoveFirstIff(cache, r.bssid);
    DistinctCons(r, rest);
    EnforceDistinct(all, now);
    UpdateGood(cache, r, now);
    LookupIff(cache, bssid);
    var e := Expected(cache, r, bssid, now);
    if e.Some? && e.value !in kept {
      LiveIff(all, now);
      EnforceKeepsTheLatest(all, now);
      LeftOutIsEarliest(Live(all, now), kept, e.value);
    }
  }

  lemma LeftOutIsEarliest(live: seq<Info>, kept: seq<Info>, d: Info)
    requires KeepsLatest(live, kept) && d in live && d !in kept && |live| > MAX_DHCP_CACHE
    ensures |kept| == MAX_DHCP_CACHE && forall k <- kept :: d.absoluteLeasetime <= k.absoluteLeasetime
  {
    assert d in multiset(live) - multiset(kept);
  }

  /**
   Saved and looked up again: the access point has its new record and every other one keeps its
   own, as far as the memory held it, it is kept, and nothing expired.
   */
  lemma SaveThenGet(s: Store, r: Info, blank: Info, bssid: string, now: int, later: int)
    requires s.named && Good(s.cache) && Clean(r) && now != -1 && later != -1
    ensures var e := Expected(s.cache, r, bssid, now);
            GetCachedIp(SaveIpInfoInLocalFile(s, r, now).0, blank, bssid, later).1 ==
            Seen(if e.Some? && e.value in Updated(s.cache, r, now) then e else None, later)
  {
    hide Clean, Enforce, Normal, Lookup, Content, Expired, RemoveFirst, GetCachedIp, Seen;
    var items := Updated(s.cache, r, now);
    KeptUnlessCrowdedOut(s.cache, r, bssid, now);
    LookupIff(items, bssid);
    LookupIff(s.cache, bssid);
    GetSeesFile(SaveIpInfoInLocalFile(s, r, now).0, items, blank, bssid, later);
  }

  /**
   Two saves in a row: the first one emptied the memory, so the second leaves a file with its
   own record alone, and every other access point is forgotten.
   */
  lemma SecondSaveForgets(s: Store, r1: Info, r2: Info, blank: Info, bssid: string,
                          now: int, later: int)
    requires s.named && Clean(r2) && now != -1 && later != -1 && bssid != r2.bssid
    ensures GetCachedIp(SaveIpInfoInLocalFile(SaveIpInfoInLocalFile(s, r1, now).0, r2, now).0,
                        blank, bssid, later).1 == None
  {
    hide Clean, Normal, Content, GetCachedIp, Expired, Updated;
    var t := SaveIpInfoInLocalFile(s, r1, now).0;
    assert t.named && t.cache == [];
    assert Good([]);
    SaveThenGet(t, r2, blank, bssid, now, later);
  }

  /** After a successful removal no record of that network is found any more, and the others stay. */
  lemma {:induction false} RemoveThenGet(s: Store, blank: Info, ssid: string, bssid: string, now: int, later: int)
    requires StoreOk(s) && now != -1 && later != -1
    requires RemoveCachedIp(s, blank, ssid, now).1 == 0
    ensures var before := Lookup(LoadAllIpCached(s, blank, now).cache, bssid);
            GetCachedIp(RemoveCachedIp(s, blank, ssid, now).0, blank, bssid, later).1 ==
            Seen(if before.Some? && before.value.ssid == ssid then None else before, later)
  {
    hide Clean, Normal, Content, GetCachedIp, LoadAllIpCached, Lookup, Seen;
    LoadKeeps(s, blank, now);
    var cache := LoadAllIpCached(s, blank, now).cache;
    var items := WithoutSsid(cache, ssid);
    WithoutSsidIff(cache, ssid);
    LookupIff(cache, bssid);
    LookupIff(items, bssid);
    GetSeesFile(RemoveCachedIp(s, blank, ssid, now).0, items, blank, bssid, later);
  }

  /** After a successful addition the record has the network's name, and nothing else changed. */
  lemma {:induction false} AddThenGet(s: Store, blank: Info, target: string, ssid: string, bssid: string,
                                      now: int, later: int)
    requires StoreOk(s) && now != -1 && later != -1 && IsValue(ssid, 900) && Untrimmable(ssid)
    requires AddCachedIp(s, blank, target, ssid, now).1 == 0
    ensures var before := Lookup(LoadAllIpCached(s, blank, now).cache, bssid);
            GetCachedIp(AddCachedIp(s, blank, target, ssid, now).0, blank, bssid, later).1 ==
            Seen(if before.Some? && bssid == target then Some(before.value.(ssid := ssid)) else before, later)
  {
    hide Clean, Normal, Content, GetCachedIp, LoadAllIpCached, Lookup, Seen, IsValue, Untrimmable;
    LoadKeeps(s, blank, now);
    var cache := LoadAllIpCached(s, blank, now).cache;
    RenamedIs(cache, target, ssid);
    RenamedGood(cache, target, ssid);
    GetSeesFile(AddCachedIp(s, blank, target, ssid, now).0, Renamed(cache, target, ssid), blank, bssid, later);
  }

  /**
   The end of a lease passes through 32 bits: a record that is kept is found again exactly if what
   is left of the end of its lease is not a past time.
   */
  lemma LateLeaseIsFoundIff(s: Store, r: Info, blank: Info, now: int, later: int)
    requires s.named && Good(s.cache) && Clean(r) && 0 <= now <= later && !Expired(r, now)
    ensures GetCachedIp(SaveIpInfoInLocalFile(s, r, now).0, blank, r.bssid, later).1.Some? <==>
            r in Updated(s.cache, r, now) &&
            (ToInt32(r.absoluteLeasetime) <= 0 || later <= ToInt32(r.absoluteLeasetime))
  {
    hide Clean, GetCachedIp, SaveIpInfoInLocalFile, Content, ToInt32, Updated;
    SaveThenGet(s, r, blank, r.bssid, now, later);
  }

  /** A lease of 2^32 - 1 seconds, which never ends, is forgotten as soon as it is saved. */
  lemma InfiniteLeaseIsForgotten(s: Store, r: Info, blank: Info, now: int, later: int)
    requires s.named && Good(s.cache) && Clean(r)
    requires 1 < now <= later && now < TWO31 && r.absoluteLeasetime == now + 0xFFFF_FFFF
    ensures GetCachedIp(SaveIpInfoInLocalFile(s, r, now).0, blank, r.bssid, later).1 == None
  {
    assert ToInt32(r.absoluteLeasetime) == now - 1;
    hide Clean, GetCachedIp, SaveIpInfoInLocalFile, ToInt32, Updated;
    LateLeaseIsFoundIff(s, r, blank, now, later);
  }
}
