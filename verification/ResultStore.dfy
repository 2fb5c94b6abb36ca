/**
 The result store as it runs: the reading loops over the lines of an open file, the writing
 loop, and the manager whose memory and file they change.
 */
module ResultStore {
  import opened Wrappers
  import opened Text
  import opened CacheText
  import opened ResultCache

  /** The loop over the lines of one section. */
  method ReadNetworkSection(item0: Info, lines: seq<string>) returns (item: Info, errors: nat, rest: seq<string>)
    ensures (item, errors, rest) == ReadSection(item0, lines)
  {
    hide Trimmed, IsTag, SetClassKeyValue, EqualsAt;
    item, errors, rest := item0, 0, lines;
    while rest != []
      invariant var all, left := ReadSection(item0, lines), ReadSection(item, rest);
                all.0 == left.0 && all.1 == errors + left.1 && all.2 == left.2
      decreases |rest|
    {
      var line := TrimString(rest[0]);
      rest := rest[1..];
      if line == "" {
        continue;
      }
      if IsTag(line) {
        return;
      }
      var npos := EqualsAt(line);
      if npos < 0 {
        errors := errors + 1;
        continue;
      }
      var key := TrimString(line[..npos]);
      var value := TrimString(line[npos + 1..]);
      var (next, failed) := SetClassKeyValue(item, key, value);
      item := next;
      errors := errors + failed;
    }
    errors := errors + 1;
  }

  /** The loop over the lines between a header and its closing brace. */
  method ReadNetworkLines(item0: Info, lines: seq<string>) returns (item: Info, errors: nat, rest: seq<string>)
    ensures (item, errors, rest) == ReadNetwork(item0, lines)
  {
    hide Trimmed, IsTag, ReadSection;
    item, errors, rest := item0, 0, lines;
    while rest != []
      invariant var all, left := ReadNetwork(item0, lines), ReadNetwork(item, rest);
                all.0 == left.0 && all.1 == errors + left.1 && all.2 == left.2
      decreases |rest|
    {
      var line := TrimString(rest[0]);
      rest := rest[1..];
      if line == "" {
        continue;
      }
      if IsTag(line) {
        var failed;
        item, failed, rest := ReadNetworkSection(item, rest);
        errors := errors + failed;
      } else if line == "}" {
        return;
      } else {
        errors := errors + 1;
      }
    }
    errors := errors + 1;
  }

  /** The loop over a whole file. */
  method ReadRecords(blank: Info, lines: seq<string>) returns (items: seq<Info>)
    ensures items == ReadFile(blank, lines)
  {
    hide Trimmed, IsHeader, ReadNetwork, ClearClass;
    items := [];
    var item, rest := blank, lines;
    while rest != []
      invariant items + ReadFile(item, rest) == ReadFile(blank, lines)
      decreases |rest|
    {
      var line := TrimString(rest[0]);
      if IsHeader(line) {
        var errors;
        ghost var before := rest;
        item := ClearClass(item);
        item, errors, rest := ReadNetworkLines(item, rest[1..]);
        if errors == 0 {
          items := items + [item];
        }
      } else {
        rest := rest[1..];
      }
    }
  }

  /** The loop that writes the records one after the other. */
  method WriteRecords(items: seq<Info>) returns (content: string)
    ensures content == Content(items)
  {
    hide Header, RecordLines, Unlines, FileLines;
    content := "";
    var i := 0;
    NoRecords(items);
    while i < |items|
      invariant 0 <= i <= |items|
      invariant content + Unlines(FileLines(items[i..], i + 1)) == Content(items)
    {
      var before := content;
      ghost var rest := Unlines(FileLines(items[i + 1..], i + 2));
      content := content + Header(i + 1) + "\n";
      content := content + Unlines(RecordLines(items[i]));
      content := content + "}\n";
      RecordText(items[i..], i + 1);
      assert items[i..][1..] == items[i + 1..];
      assert content + rest ==
             before + (Header(i + 1) + "\n" + Unlines(RecordLines(items[i])) + "}\n" + rest);
      i := i + 1;
    }
  }

  lemma {:induction false} NoRecords(items: seq<Info>)
    ensures Unlines(FileLines([], |items| + 1)) == "" && items[0..] == items && items[|items|..] == []
  {
  }

  lemma RecordText(items: seq<Info>, i: nat)
    requires items != []
    ensures Unlines(FileLines(items, i)) ==
            Header(i) + "\n" + Unlines(RecordLines(items[0])) + "}\n" + Unlines(FileLines(items[1..], i + 1))
  {
    hide Header, RecordLines;
    var body, rest := RecordLines(items[0]), FileLines(items[1..], i + 1);
    assert [Header(i)] + body + ["}"] + rest == [Header(i)] + (body + (["}"] + rest));
    UnlinesConcat([Header(i)], body + (["}"] + rest));
    UnlinesConcat(body, ["}"] + rest);
    UnlinesConcat(["}"], rest);
    UnlinesOne(Header(i));
    UnlinesOne("}");
    assert "}" + "\n" == "}\n";
  }

  lemma UnlinesOne(l: string)
    ensures Unlines([l]) == l + "\n"
  {
    assert [l][1..] == [];
  }

  /** The loop that finds the record of an access point and erases it where it stands. */
  method Erased(items: seq<Info>, bssid: string) returns (r: seq<Info>)
    ensures r == RemoveFirst(items, bssid)
  {
    var i := 0;
    while i < |items|
      invariant 0 <= i <= |items|
      invariant items[..i] + RemoveFirst(items[i..], bssid) == RemoveFirst(items, bssid)
    {
      assert items[i..][1..] == items[i + 1..];
      if items[i].bssid == bssid {
        return items[..i] + items[i + 1..];
      }
      i := i + 1;
    }
    r := items;
  }

  lemma {:induction false} RenamedStep(items: seq<Info>, i: nat, bssid: string, ssid: string)
    requires i < |items|
    ensures Renamed(items[i..], bssid, ssid) ==
            if items[i].bssid == bssid then [items[i].(ssid := ssid)] + items[i + 1..]
            else [items[i]] + Renamed(items[i + 1..], bssid, ssid)
  {
    assert items[i..][1..] == items[i + 1..];
  }

  lemma {:induction false} NothingRenamed(bssid: string, ssid: string)
    ensures Renamed([], bssid, ssid) == []
  {
  }

  /** The loop that finds the record of an access point and changes its network's name. */
  method WithName(items: seq<Info>, bssid: string, ssid: string) returns (r: seq<Info>)
    ensures r == Renamed(items, bssid, ssid)
  {
    hide Renamed;
    var i := 0;
    assert items[0..] == items && items[..0] == [];
    while i < |items|
      invariant 0 <= i <= |items|
      invariant items[..i] + Renamed(items[i..], bssid, ssid) == Renamed(items, bssid, ssid)
    {
      RenamedStep(items, i, bssid, ssid);
      if items[i].bssid == bssid {
        r := items[i := items[i].(ssid := ssid)];
        assert r == items[..i] + ([items[i].(ssid := ssid)] + items[i + 1..]);
        return;
      }
      assert items[..i + 1] == items[..i] + [items[i]];
      i := i + 1;
    }
    NothingRenamed(bssid, ssid);
    assert items[i..] == [] && items[..i] + [] == items;
    r := items;
  }

  class DhcpResultStoreManager {
    var file: Option<string>
    var allIpCached: seq<Info>
    var named: bool

    ghost function State(): Store
      reads this
    {
      Store(file, allIpCached, named)
    }

    constructor (onDisk: Option<string>)
      ensures State() == Store(onDisk, [], false)
    {
      file, allIpCached, named := onDisk, [], false;
    }

    method EnforceMaxCache(now: int)
      modifies this`allIpCached
      ensures allIpCached == Enforce(old(allIpCached), now)
    {
      if now == -1 {
        return;
      }
      var live := Live(allIpCached, now);
      allIpCached := live;
      if |live| > MAX_DHCP_CACHE {
        var sorted := Sort(live);
        SameSize(live, sorted);
        allIpCached := sorted[|live| - MAX_DHCP_CACHE..];
      }
    }

    method LoadAll(blank: Info, now: int)
      modifies this
      ensures State() == LoadAllIpCached(old(State()), blank, now)
    {
      hide Enforce, ReadFile, Lines;
      named := true;
      if file.Some? {
        allIpCached := ReadRecords(blank, Lines(file.value));
        EnforceMaxCache(now);
      }
    }

    method Save() returns (ret: int)
      modifies this
      ensures (State(), ret) == SaveConfig(old(State()))
    {
      hide Content;
      if !named {
        return -1;
      }
      var content := WriteRecords(allIpCached);
      file := Some(content);
      allIpCached := [];
      return 0;
    }

    /** The new record goes to the end, after the old one of its access point is erased. */
    method SaveIpInfo(r: Info, now: int) returns (ret: int)
      modifies this
      ensures (State(), ret) == SaveIpInfoInLocalFile(old(State()), r, now)
    {
      hide Enforce, SaveConfig, RemoveFirst;
      allIpCached := Erased(allIpCached, r.bssid);
      allIpCached := allIpCached + [r];
      EnforceMaxCache(now);
      ret := Save();
    }

    method GetIp(blank: Info, bssid: string, now: int) returns (found: Option<Info>)
      modifies this
      ensures (State(), found) == GetCachedIp(old(State()), blank, bssid, now)
    {
      hide LoadAllIpCached;
      LoadAll(blank, now);
      var i := 0;
      while i < |allIpCached|
        invariant 0 <= i <= |allIpCached| && Lookup(allIpCached[i..], bssid) == Lookup(allIpCached, bssid)
      {
        assert allIpCached[i..][1..] == allIpCached[i + 1..];
        if allIpCached[i].bssid == bssid {
          return Some(allIpCached[i]);
        }
        i := i + 1;
      }
      return None;
    }

    method RemoveIp(blank: Info, ssid: string, now: int) returns (ret: int)
      modifies this
      ensures (State(), ret) == RemoveCachedIp(old(State()), blank, ssid, now)
    {
      hide LoadAllIpCached, SaveConfig;
      LoadAll(blank, now);
      if ssid == "" || allIpCached == [] {
        return -1;
      }
      allIpCached := WithoutSsid(allIpCached, ssid);
      ret := Save();
    }

    method AddIp(blank: Info, bssid: string, ssid: string, now: int) returns (ret: int)
      modifies this
      ensures (State(), ret) == AddCachedIp(old(State()), blank, bssid, ssid, now)
    {
      hide LoadAllIpCached, SaveConfig, Renamed;
      LoadAll(blank, now);
      if allIpCached == [] || ssid == "" || |bssid| != MAC_ADDR_SIZE {
        return -1;
      }
      allIpCached := WithName(allIpCached, bssid, ssid);
      ret := Save();
    }
  }
}
