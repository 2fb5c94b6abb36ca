/**
 The text of the result cache file: how records are written as lines, and how the three
 nested reading loops turn lines back into records.
 */
module CacheText {
  import opened Text

  /** A cached result: the eleven values that are saved. */
  datatype Info = Info(
    bssid: string, ssid: string, absoluteLeasetime: int, yiaddr: string, serverId: string, subnet: string,
    dns1: string, dns2: string, router1: string, router2: string, leasetime: int)

  // ----- Lines -----

  /** How many characters `fgets` takes with this much room. */
  function Taken(s: string, room: nat): (n: nat)
    ensures n <= |s| && n <= room && (s != "" && room > 0 ==> n > 0)
  {
    if s == "" || room == 0 then 0
    else if s[0] == '\n' then 1
    else 1 + Taken(s[1..], room - 1)
  }

  /** The successive results of `fgets` into a buffer of 1024. */
  function Lines(s: string): seq<string> {
    if s == "" then [] else
      var n := Taken(s, 1023);
      [s[..n]] + Lines(s[n..])
  }

  function Unlines(ls: seq<string>): string {
    if ls == [] then "" else ls[0] + "\n" + Unlines(ls[1..])
  }

  /** A line that `fgets` reads as one. */
  predicate IsLine(s: string) {
    Lacks(s, '\n') && |s| < 1023
  }

  function Ended(ls: seq<string>): (r: seq<string>)
    ensures |r| == |ls|
  {
    if ls == [] then [] else [ls[0] + "\n"] + Ended(ls[1..])
  }

  lemma {:induction false} TakenLine(l: string, rest: string, room: nat)
    requires Lacks(l, '\n') && |l| < room
    ensures Taken(l + "\n" + rest, room) == |l| + 1
    decreases |l|
  {
    var s := l + "\n" + rest;
    if l != "" {
      TakenLine(l[1..], rest, room - 1);
      assert s[1..] == l[1..] + "\n" + rest;
    }
  }

  lemma {:induction false} LinesOfUnlines(ls: seq<string>)
    requires forall l <- ls :: IsLine(l)
    ensures Lines(Unlines(ls)) == Ended(ls)
  {
    if ls != [] {
      assert ls[0] in ls && forall l <- ls[1..] :: l in ls;
      LinesOfUnlines(ls[1..]);
      var rest := Unlines(ls[1..]);
      TakenLine(ls[0], rest, 1023);
      var s := ls[0] + "\n" + rest;
      assert s[..|ls[0]| + 1] == ls[0] + "\n" && s[|ls[0]| + 1..] == rest;
    }
  }

  lemma {:induction false} UnlinesStep(l: string, ls: seq<string>)
    ensures Unlines([l] + ls) == l + "\n" + Unlines(ls) && Unlines([]) == ""
  {
    assert ([l] + ls)[1..] == ls;
  }

  lemma {:induction false} EndedStep(l: string, ls: seq<string>)
    ensures Ended([l] + ls) == [l + "\n"] + Ended(ls) && Ended([]) == []
  {
    assert ([l] + ls)[1..] == ls;
  }

  lemma {:induction false} UnlinesConcat(a: seq<string>, b: seq<string>)
    ensures Unlines(a + b) == Unlines(a) + Unlines(b)
  {
    hide Unlines;
    if a == [] {
      UnlinesStep("", []);
      assert a + b == b;
    } else {
      var first, rest := a[0], a[1..];
      UnlinesConcat(rest, b);
      UnlinesStep(first, rest);
      UnlinesStep(first, rest + b);
      assert a == [first] + rest && a + b == [first] + (rest + b);
    }
  }

  lemma {:induction false} EndedConcat(a: seq<string>, b: seq<string>)
    ensures Ended(a + b) == Ended(a) + Ended(b)
  {
    hide Ended;
    if a == [] {
      EndedStep("", []);
      assert a + b == b;
    } else {
      var first, rest := a[0], a[1..];
      EndedConcat(rest, b);
      EndedStep(first, rest);
      EndedStep(first, rest + b);
      assert a == [first] + rest && a + b == [first] + (rest + b);
    }
  }

  // ----- Trimming -----

  predicate IsTrimmed(c: char) {
    c == ' ' || c == '\n'
  }

  function TrimLeft(s: string): string {
    if s != "" && IsTrimmed(s[0]) then TrimLeft(s[1..]) else s
  }

  function TrimRight(s: string): string {
    if s != "" && IsTrimmed(s[|s| - 1]) then TrimRight(s[..|s| - 1]) else s
  }

  function Trimmed(s: string): string {
    TrimLeft(TrimRight(s))
  }

  /** The two index loops from both ends. */
  method TrimString(s: string) returns (r: string)
    ensures r == Trimmed(s)
  {
    var i := 0;
    while i < |s| && IsTrimmed(s[i])
      invariant 0 <= i <= |s| && forall k :: 0 <= k < i ==> IsTrimmed(s[k])
    {
      i := i + 1;
    }
    var j := |s| - 1;
    assert s[..|s|] == s;
    while j >= 0 && IsTrimmed(s[j])
      invariant -1 <= j < |s| && TrimRight(s[..j + 1]) == TrimRight(s)
    {
      assert s[..j + 1][..j] == s[..j];
      j := j - 1;
    }
    LeftOf(s[..j + 1], if i > j then j + 1 else i);
    r := if i > j then "" else s[i..j + 1];
  }

  lemma {:induction false} LeftOf(s: string, i: nat)
    requires i <= |s| && (forall k :: 0 <= k < i ==> IsTrimmed(s[k])) && (i < |s| ==> !IsTrimmed(s[i]))
    ensures TrimLeft(s) == s[i..]
  {
    if i > 0 {
      LeftOf(s[1..], i - 1);
    }
  }

  /** A value that trimming leaves alone. */
  predicate Untrimmable(s: string) {
    s == "" || (!IsTrimmed(s[0]) && !IsTrimmed(s[|s| - 1]))
  }

  lemma {:induction false} TrimRightShape(s: string)
    ensures |TrimRight(s)| <= |s| && TrimRight(s) == s[..|TrimRight(s)|]
    ensures TrimRight(s) != "" ==> !IsTrimmed(TrimRight(s)[|TrimRight(s)| - 1])
    ensures TrimRight(TrimRight(s)) == TrimRight(s)
  {
    if s != "" && IsTrimmed(s[|s| - 1]) {
      TrimRightShape(s[..|s| - 1]);
    }
  }

  lemma {:induction false} TrimLeftShape(s: string)
    ensures |TrimLeft(s)| <= |s| && TrimLeft(s) == s[|s| - |TrimLeft(s)|..]
    ensures TrimLeft(s) != "" ==> !IsTrimmed(TrimLeft(s)[0])
  {
    if s != "" && IsTrimmed(s[0]) {
      TrimLeftShape(s[1..]);
    }
  }

  /** Trimming keeps exactly the untrimmable values, and makes every value one. */
  lemma {:induction false} TrimmedIff(s: string)
    ensures Trimmed(s) == s <==> Untrimmable(s)
    ensures Untrimmable(Trimmed(s)) && |Trimmed(s)| <= |s|
    ensures Lacks(s, '\n') ==> Lacks(Trimmed(s), '\n')
    ensures Trimmed(TrimRight(s)) == Trimmed(s)
  {
    var t := TrimRight(s);
    TrimRightShape(s);
    TrimLeftShape(t);
  }

  // ----- Keys and values -----

  const FIELD_SIZE := 16

  /** One key and its value set in a record, and the number of errors: a value too long, or an unknown key. */
  function SetClassKeyValue(item: Info, key: string, value: string): (r: (Info, nat))
    ensures r.1 <= 1
  {
    var fits := |value| < FIELD_SIZE;
    var failed := if fits then 0 else 1;
    if key == "bssid" then (item.(bssid := value), 0)
    else if key == "ssid" then (item.(ssid := value), 0)
    else if key == "absoluteLeasetime" then (item.(absoluteLeasetime := CheckDataLegal(value)), 0)
    else if key == "strYiaddr" then (item.(yiaddr := if fits then value else ""), failed)
    else if key == "strOptServerId" then (item.(serverId := if fits then value else ""), failed)
    else if key == "strOptSubnet" then (item.(subnet := if fits then value else ""), failed)
    else if key == "strOptDns1" then (item.(dns1 := if fits then value else ""), failed)
    else if key == "strOptDns2" then (item.(dns2 := if fits then value else ""), failed)
    else if key == "strOptRouter1" then (item.(router1 := if fits then value else ""), failed)
    else if key == "strOptRouter2" then (item.(router2 := if fits then value else ""), failed)
    else if key == "uOptLeasetime" then (item.(leasetime := CheckDataLegal(value) % TWO32), 0)
    else (item, 1)
  }

  /** The keys in the order in which they are written, with their values. */
  function Pairs(r: Info): seq<(string, string)> {
    [("bssid", r.bssid), ("ssid", r.ssid), ("absoluteLeasetime", Show(r.absoluteLeasetime)),
     ("strYiaddr", r.yiaddr), ("strOptServerId", r.serverId), ("strOptSubnet", r.subnet),
     ("strOptDns1", r.dns1), ("strOptDns2", r.dns2), ("strOptRouter1", r.router1),
     ("strOptRouter2", r.router2), ("uOptLeasetime", Show(r.leasetime))]
  }

  function PairLine(p: (string, string)): string {
    "    " + p.0 + "=" + p.1
  }

  function PairLines(pairs: seq<(string, string)>): (r: seq<string>)
    ensures |r| == |pairs| && forall i :: 0 <= i < |r| ==> r[i] == PairLine(pairs[i])
  {
    if pairs == [] then [] else [PairLine(pairs[0])] + PairLines(pairs[1..])
  }

  // ----- Reading -----

  predicate IsTag(s: string) {
    s != "" && s[0] == '<' && s[|s| - 1] == '>'
  }

  predicate IsHeader(s: string) {
    s != "" && s[0] == '[' && s[|s| - 1] == '{'
  }

  /** Position of the first '=' of a line, or -1. */
  function EqualsAt(s: string): (p: int)
    ensures -1 <= p < |s|
    ensures p >= 0 ==> s[p] == '=' && Lacks(s[..p], '=')
    ensures p < 0 ==> Lacks(s, '=')
  {
    if s == "" then -1
    else if s[0] == '=' then 0
    else
      var p := EqualsAt(s[1..]);
      if p < 0 then -1 else p + 1
  }

  /** One line of a section, already trimmed and neither empty nor a tag. */
  function ReadPair(item: Info, s: string): (Info, nat) {
    var p := EqualsAt(s);
    if p < 0 then (item, 1) else SetClassKeyValue(item, Trimmed(s[..p]), Trimmed(s[p + 1..]))
  }

  /** The record, the number of errors, and the lines left after the closing tag. */
  function ReadSection(item: Info, lines: seq<string>): (r: (Info, nat, seq<string>))
    ensures |r.2| <= |lines|
    decreases |lines|
  {
    if lines == [] then (item, 1, [])
    else
      var s := Trimmed(lines[0]);
      if s == "" then ReadSection(item, lines[1..])
      else if IsTag(s) then (item, 0, lines[1..])
      else
        var (item1, errors) := ReadPair(item, s);
        var (item2, more, rest) := ReadSection(item1, lines[1..]);
        (item2, errors + more, rest)
  }

  function ReadNetwork(item: Info, lines: seq<string>): (r: (Info, nat, seq<string>))
    ensures |r.2| <= |lines|
    decreases |lines|
  {
    if lines == [] then (item, 1, [])
    else
      var s := Trimmed(lines[0]);
      if s == "" then ReadNetwork(item, lines[1..])
      else if IsTag(s) then
        var (item1, errors, rest) := ReadSection(item, lines[1..]);
        var (item2, more, rest2) := ReadNetwork(item1, rest);
        (item2, errors + more, rest2)
      else if s == "}" then (item, 0, lines[1..])
      else
        var (item2, more, rest) := ReadNetwork(item, lines[1..]);
        (item2, 1 + more, rest)
  }

  function ClearClass(item: Info): Info {
    item.(bssid := "", absoluteLeasetime := 0, leasetime := 0)
  }

  /** The records of a file, one structure serving all of them in turn. */
  function ReadFile(item: Info, lines: seq<string>): seq<Info>
    decreases |lines|
  {
    if lines == [] then []
    else if !IsHeader(Trimmed(lines[0])) then ReadFile(item, lines[1..])
    else
      var (next, errors, rest) := ReadNetwork(ClearClass(item), lines[1..]);
      (if errors > 0 then [] else [next]) + ReadFile(next, rest)
  }

  // ----- Writing -----

  const TAG := "    <IpInfoCached>"

  /** The lines of one record, the empty one that follows its closing tag included. */
  function RecordLines(r: Info): seq<string> {
    [TAG] + PairLines(Pairs(r)) + [TAG, ""]
  }

  function Header(i: nat): string {
    "[IpInfoCached_" + Digits(i) + "] {"
  }

  /** The lines of a file whose first record has number `i`. */
  function FileLines(items: seq<Info>, i: nat): seq<string>
    decreases |items|
  {
    if items == [] then [] else [Header(i)] + RecordLines(items[0]) + ["}"] + FileLines(items[1..], i + 1)
  }

  function Content(items: seq<Info>): string {
    Unlines(FileLines(items, 1))
  }

  // ----- Round trip -----

  /** What the structures of the client can hold, on one line each. */
  predicate Storable(r: Info) {
    && IsValue(r.bssid, 900) && IsValue(r.ssid, 900) && IsValue(r.yiaddr, FIELD_SIZE)
    && IsValue(r.serverId, FIELD_SIZE) && IsValue(r.subnet, FIELD_SIZE) && IsValue(r.dns1, FIELD_SIZE)
    && IsValue(r.dns2, FIELD_SIZE) && IsValue(r.router1, FIELD_SIZE) && IsValue(r.router2, FIELD_SIZE)
    && -TWO63 <= r.absoluteLeasetime < TWO63 && 0 <= r.leasetime < TWO32
  }

  predicate IsValue(s: string, size: nat) {
    Lacks(s, '\n') && |s| < size
  }

  /** What the file gives back: values trimmed, and the lease end cut to 32 bits. */
  function Normal(r: Info): Info {
    Info(Trimmed(r.bssid), Trimmed(r.ssid), ToInt32(r.absoluteLeasetime), Trimmed(r.yiaddr),
         Trimmed(r.serverId), Trimmed(r.subnet), Trimmed(r.dns1), Trimmed(r.dns2),
         Trimmed(r.router1), Trimmed(r.router2), r.leasetime)
  }

  function Normals(items: seq<Info>): (r: seq<Info>)
    ensures |r| == |items| && forall i :: 0 <= i < |r| ==> r[i] == Normal(items[i])
  {
    if items == [] then [] else [Normal(items[0])] + Normals(items[1..])
  }

  predicate AllUntrimmable(r: Info) {
    && Untrimmable(r.bssid) && Untrimmable(r.ssid) && Untrimmable(r.yiaddr) && Untrimmable(r.serverId)
    && Untrimmable(r.subnet) && Untrimmable(r.dns1) && Untrimmable(r.dns2) && Untrimmable(r.router1)
    && Untrimmable(r.router2)
  }

  /** A record comes back unchanged exactly if nothing is trimmed and its lease end fits an `int`. */
  lemma NormalIff(r: Info)
    ensures Normal(r) == r <==> AllUntrimmable(r) && -TWO31 <= r.absoluteLeasetime < TWO31
  {
    TrimmedIff(r.bssid);
    TrimmedIff(r.ssid);
    TrimmedIff(r.yiaddr);
    TrimmedIff(r.serverId);
    TrimmedIff(r.subnet);
    TrimmedIff(r.dns1);
    TrimmedIff(r.dns2);
    TrimmedIff(r.router1);
    TrimmedIff(r.router2);
    hide Trimmed, Untrimmable;
  }

  predicate IsKey(k: string) {
    k != "" && |k| < 20 && Lacks(k, '=') && Lacks(k, '\n') && Untrimmable(k) && k[0] != '<'
  }

  /** A written pair is read as its key and its trimmed value. */
  lemma PairLineIsRead(k: string, v: string, item: Info)
    requires IsKey(k) && Lacks(v, '\n')
    ensures var s := Trimmed(PairLine((k, v)) + "\n");
            s != "" && !IsTag(s) && ReadPair(item, s) == SetClassKeyValue(item, k, Trimmed(v))
  {
    hide SetClassKeyValue;
    var s := PairLine((k, v)) + "\n";
    var t := k + "=" + TrimRight(v);
    assert s[..|s| - 1] == "    " + (k + "=") + v;
    TrimRightPrefix("    " + (k + "="), v);
    assert TrimRight(s) == "    " + t by {
      assert "    " + (k + "=") + TrimRight(v) == "    " + t;
    }
    LeftOf("    " + t, 4);
    assert Trimmed(s) == t;
    EqualsAfter(k, TrimRight(v));
    assert t[..|k|] == k && t[|k| + 1..] == TrimRight(v);
    TrimmedIff(k);
    TrimmedIff(v);
  }

  lemma {:induction false} TrimRightPrefix(a: string, v: string)
    requires a != "" && !IsTrimmed(a[|a| - 1])
    ensures TrimRight(a + v) == a + TrimRight(v)
    decreases |v|
  {
    if v == "" {
      assert a + v == a;
    } else if IsTrimmed(v[|v| - 1]) {
      TrimRightPrefix(a, v[..|v| - 1]);
      assert (a + v)[..|a + v| - 1] == a + v[..|v| - 1];
    }
  }

  lemma {:induction false} EqualsAfter(k: string, v: string)
    requires Lacks(k, '=')
    ensures EqualsAt(k + "=" + v) == |k|
  {
    var s := k + "=" + v;
    if k != "" {
      EqualsAfter(k[1..], v);
      assert s[1..] == k[1..] + "=" + v;
    }
  }

  /** All pairs set one after the other. */
  function SetAll(item: Info, pairs: seq<(string, string)>): (Info, nat)
    decreases |pairs|
  {
    if pairs == [] then (item, 0)
    else
      var (item1, errors) := SetClassKeyValue(item, pairs[0].0, Trimmed(pairs[0].1));
      var (item2, more) := SetAll(item1, pairs[1..]);
      (item2, errors + more)
  }

  lemma {:induction false} SectionIsRead(item: Info, pairs: seq<(string, string)>, rest: seq<string>)
    requires forall p <- pairs :: PairOk(p)
    ensures ReadSection(item, Ended(PairLines(pairs) + [TAG]) + rest) ==
            (SetAll(item, pairs).0, SetAll(item, pairs).1, rest)
    decreases |pairs|
  {
    hide PairLine, SetClassKeyValue, IsTag, ReadPair;
    var lines := Ended(PairLines(pairs) + [TAG]) + rest;
    if pairs == [] {
      assert lines == [TAG + "\n"] + rest;
      TagIsRead();
    } else {
      assert pairs[0] in pairs && forall p <- pairs[1..] :: p in pairs;
      var tail := PairLines(pairs[1..]) + [TAG];
      assert PairLines(pairs) + [TAG] == [PairLine(pairs[0])] + tail;
      assert lines == [PairLine(pairs[0]) + "\n"] + (Ended(tail) + rest);
      assert lines[1..] == Ended(tail) + rest;
      PairLineIsRead(pairs[0].0, pairs[0].1, item);
      SectionIsRead(ReadPair(item, Trimmed(lines[0])).0, pairs[1..], rest);
    }
  }

  lemma TagIsRead()
    ensures var s := Trimmed(TAG + "\n"); s != "" && IsTag(s)
  {
    var s := "<IpInfoCached>";
    assert TAG + "\n" == "    " + s + "\n";
    TrimRightPrefix("    " + s, "\n");
    assert TrimRight("\n") == "";
    LeftOf("    " + s, 4);
    assert ("    " + s)[4..] == s;
  }

  /** Each key sets its own field. */
  lemma KnownKeys(item: Info, v: string)
    requires |v| < FIELD_SIZE
    ensures SetClassKeyValue(item, "strYiaddr", v) == (item.(yiaddr := v), 0)
    ensures SetClassKeyValue(item, "strOptServerId", v) == (item.(serverId := v), 0)
    ensures SetClassKeyValue(item, "strOptSubnet", v) == (item.(subnet := v), 0)
    ensures SetClassKeyValue(item, "strOptDns1", v) == (item.(dns1 := v), 0)
    ensures SetClassKeyValue(item, "strOptDns2", v) == (item.(dns2 := v), 0)
    ensures SetClassKeyValue(item, "strOptRouter1", v) == (item.(router1 := v), 0)
    ensures SetClassKeyValue(item, "strOptRouter2", v) == (item.(router2 := v), 0)
  {
    assert "strOptDns1"[9] != "strOptDns2"[9];
    assert "strOptRouter1"[12] != "strOptRouter2"[12];
  }

  lemma NumberKeys(item: Info, v: string)
    ensures SetClassKeyValue(item, "bssid", v) == (item.(bssid := v), 0)
    ensures SetClassKeyValue(item, "ssid", v) == (item.(ssid := v), 0)
    ensures SetClassKeyValue(item, "absoluteLeasetime", v) == (item.(absoluteLeasetime := CheckDataLegal(v)), 0)
    ensures SetClassKeyValue(item, "uOptLeasetime", v) == (item.(leasetime := CheckDataLegal(v) % TWO32), 0)
  {
    hide CheckDataLegal;
    assert "uOptLeasetime"[0] != "strOptRouter1"[0] && "uOptLeasetime"[0] != "strOptRouter2"[0];
  }

  lemma FirstKeys()
    ensures IsKey("bssid") && IsKey("ssid") && IsKey("absoluteLeasetime") && IsKey("uOptLeasetime")
  {
  }

  lemma MiddleKeys()
    ensures IsKey("strYiaddr") && IsKey("strOptServerId") && IsKey("strOptSubnet")
  {
  }

  lemma LastKeys()
    ensures IsKey("strOptDns1") && IsKey("strOptDns2") && IsKey("strOptRouter1") && IsKey("strOptRouter2")
  {
  }

  predicate PairOk(p: (string, string)) {
    IsKey(p.0) && Lacks(p.1, '\n') && |p.1| < 900
  }

  lemma KeysOk(r: Info)
    requires Storable(r)
    ensures forall p <- Pairs(r) :: PairOk(p)
  {
    NumberIsValue(r.absoluteLeasetime);
    NumberIsValue(r.leasetime);
    FirstKeys();
    MiddleKeys();
    LastKeys();
    hide IsKey, Show, Lacks;
    var p := Pairs(r);
    assert PairOk(p[0]) && PairOk(p[1]) && PairOk(p[2]) && PairOk(p[3]) && PairOk(p[4]) && PairOk(p[5]);
    assert PairOk(p[6]) && PairOk(p[7]) && PairOk(p[8]) && PairOk(p[9]) && PairOk(p[10]);
    hide PairOk;
  }

  lemma NumberIsValue(i: int)
    requires -TWO63 <= i < TWO63
    ensures Lacks(Show(i), '\n') && |Show(i)| <= 21 && Trimmed(Show(i)) == Show(i)
  {
    var s := Show(i);
    assert Pow10(10) == 10000000000;
    assert Pow10(20) == Pow10(10) * Pow10(10);
    DigitsLength(if i < 0 then -i else i, 20);
    hide Digits, Pow10, Trimmed;
    forall k | 0 <= k < |s|
      ensures s[k] != '\n' && s[k] != ' '
    {
      if k > 0 {
        assert IsDigit(s[1..][k - 1]);
      }
    }
    TrimmedIff(s);
  }

  lemma AbsoluteIsRead(t: int)
    requires -TWO63 <= t < TWO63
    ensures CheckDataLegal(Trimmed(Show(t))) == ToInt32(t)
  {
    hide CheckDataLegal, Show, ToInt32, Trimmed;
    NumberIsValue(t);
    LegalIsExact(t);
  }

  lemma WrapsBack(t: int)
    requires 0 <= t < TWO32
    ensures ToInt32(t) == if t < TWO31 then t else t - TWO32
    ensures ToInt32(t) % TWO32 == t
  {
    var u := if t < TWO31 then t else t - TWO32;
    assert t + TWO31 == (if t < TWO31 then 0 else TWO32) + (u + TWO31);
    assert ToInt32(t) == u;
  }

  lemma LeasetimeIsRead(t: int)
    requires 0 <= t < TWO32
    ensures CheckDataLegal(Trimmed(Show(t))) % TWO32 == t
  {
    hide CheckDataLegal, Show, Trimmed, ToInt32;
    AbsoluteIsRead(t);
    WrapsBack(t);
  }

  lemma {:induction false} SetAllAt(item: Info, pairs: seq<(string, string)>, i: nat, next: Info)
    requires i < |pairs| && SetClassKeyValue(item, pairs[i].0, Trimmed(pairs[i].1)) == (next, 0)
    ensures SetAll(item, pairs[i..]) == SetAll(next, pairs[i + 1..])
  {
    hide SetClassKeyValue, Trimmed;
    assert pairs[i..][0] == pairs[i] && pairs[i..][1..] == pairs[i + 1..];
  }

  lemma ShortValues(r: Info)
    requires Storable(r)
    ensures |Trimmed(r.yiaddr)| < FIELD_SIZE && |Trimmed(r.serverId)| < FIELD_SIZE && |Trimmed(r.subnet)| < FIELD_SIZE
    ensures |Trimmed(r.dns1)| < FIELD_SIZE && |Trimmed(r.dns2)| < FIELD_SIZE
    ensures |Trimmed(r.router1)| < FIELD_SIZE && |Trimmed(r.router2)| < FIELD_SIZE
  {
    hide Trimmed, Untrimmable, Lacks;
    TrimmedIff(r.yiaddr);
    TrimmedIff(r.serverId);
    TrimmedIff(r.subnet);
    TrimmedIff(r.dns1);
    TrimmedIff(r.dns2);
    TrimmedIff(r.router1);
    TrimmedIff(r.router2);
  }

  /** The first three pairs. */
  function Third(item: Info, r: Info): Info {
    item.(bssid := Trimmed(r.bssid), ssid := Trimmed(r.ssid), absoluteLeasetime := ToInt32(r.absoluteLeasetime))
  }

  /** The first six pairs. */
  function Half(item: Info, r: Info): Info {
    Third(item, r).(yiaddr := Trimmed(r.yiaddr), serverId := Trimmed(r.serverId), subnet := Trimmed(r.subnet))
  }

  lemma {:induction false} BssidSet(item: Info, r: Info)
    ensures SetAll(item, Pairs(r)) == SetAll(item.(bssid := Trimmed(r.bssid)), Pairs(r)[1..])
  {
    NumberKeys(item, Trimmed(r.bssid));
    hide SetClassKeyValue, SetAll, Trimmed, Show;
    SetAllAt(item, Pairs(r), 0, item.(bssid := Trimmed(r.bssid)));
    assert Pairs(r)[0..] == Pairs(r);
  }

  lemma {:induction false} SsidSet(item: Info, r: Info)
    ensures SetAll(item, Pairs(r)[1..]) == SetAll(item.(ssid := Trimmed(r.ssid)), Pairs(r)[2..])
  {
    NumberKeys(item, Trimmed(r.ssid));
    hide SetClassKeyValue, SetAll, Trimmed, Show;
    SetAllAt(item, Pairs(r), 1, item.(ssid := Trimmed(r.ssid)));
  }

  lemma {:induction false} AbsoluteSet(item: Info, r: Info)
    requires -TWO63 <= r.absoluteLeasetime < TWO63
    ensures SetAll(item, Pairs(r)[2..]) ==
            SetAll(item.(absoluteLeasetime := ToInt32(r.absoluteLeasetime)), Pairs(r)[3..])
  {
    var v := Trimmed(Show(r.absoluteLeasetime));
    NumberKeys(item, v);
    AbsoluteIsRead(r.absoluteLeasetime);
    hide SetClassKeyValue, SetAll, Trimmed, Show, CheckDataLegal, ToInt32;
    SetAllAt(item, Pairs(r), 2, item.(absoluteLeasetime := ToInt32(r.absoluteLeasetime)));
  }

  lemma {:induction false} FirstPairsSet(item: Info, r: Info)
    requires Storable(r)
    ensures SetAll(item, Pairs(r)) == SetAll(Third(item, r), Pairs(r)[3..])
  {
    hide SetAll, Trimmed, ToInt32, Pairs;
    var i0 := item.(bssid := Trimmed(r.bssid));
    BssidSet(item, r);
    SsidSet(i0, r);
    AbsoluteSet(i0.(ssid := Trimmed(r.ssid)), r);
  }

  lemma MiddlePairsSet(item: Info, r: Info)
    requires Storable(r)
    ensures SetAll(Third(item, r), Pairs(r)[3..]) == SetAll(Half(item, r), Pairs(r)[6..])
  {
    ShortValues(r);
    hide SetClassKeyValue, SetAll, Trimmed, Show, Storable, Third;
    var p := Pairs(r);
    var i2 := Third(item, r);
    var i3 := i2.(yiaddr := Trimmed(r.yiaddr));
    var i4 := i3.(serverId := Trimmed(r.serverId));
    assert SetAll(i2, p[3..]) == SetAll(i3, p[4..]) by {
      KnownKeys(i2, Trimmed(r.yiaddr));
      SetAllAt(i2, p, 3, i3);
    }
    assert SetAll(i3, p[4..]) == SetAll(i4, p[5..]) by {
      KnownKeys(i3, Trimmed(r.serverId));
      SetAllAt(i3, p, 4, i4);
    }
    assert SetAll(i4, p[5..]) == SetAll(Half(item, r), p[6..]) by {
      KnownKeys(i4, Trimmed(r.subnet));
      SetAllAt(i4, p, 5, Half(item, r));
    }
  }

  lemma LastPairsSet(item: Info, r: Info)
    requires Storable(r)
    ensures SetAll(Half(item, r), Pairs(r)[6..]) == SetAll(Normal(r).(leasetime := item.leasetime), Pairs(r)[10..])
  {
    ShortValues(r);
    hide SetClassKeyValue, SetAll, Trimmed, Show, Storable, ToInt32;
    var p := Pairs(r);
    var i5 := Half(item, r);
    var i6 := i5.(dns1 := Trimmed(r.dns1));
    var i7 := i6.(dns2 := Trimmed(r.dns2));
    var i8 := i7.(router1 := Trimmed(r.router1));
    var i9 := i8.(router2 := Trimmed(r.router2));
    assert SetAll(i5, p[6..]) == SetAll(i6, p[7..]) by {
      KnownKeys(i5, Trimmed(r.dns1));
      SetAllAt(i5, p, 6, i6);
    }
    assert SetAll(i6, p[7..]) == SetAll(i7, p[8..]) by {
      KnownKeys(i6, Trimmed(r.dns2));
      SetAllAt(i6, p, 7, i7);
    }
    assert SetAll(i7, p[8..]) == SetAll(i8, p[9..]) by {
      KnownKeys(i7, Trimmed(r.router1));
      SetAllAt(i7, p, 8, i8);
    }
    assert SetAll(i8, p[9..]) == SetAll(i9, p[10..]) by {
      KnownKeys(i8, Trimmed(r.router2));
      SetAllAt(i8, p, 9, i9);
    }
    assert i9 == Normal(r).(leasetime := item.leasetime);
  }

  lemma {:induction false} LastNumberSet(item: Info, r: Info)
    requires Storable(r)
    ensures SetAll(item, Pairs(r)[10..]) == (item.(leasetime := r.leasetime), 0)
  {
    LeasetimeIsRead(r.leasetime);
    hide SetClassKeyValue, SetAll, Trimmed, CheckDataLegal, Show, Storable;
    var next := item.(leasetime := r.leasetime);
    NumberKeys(item, Trimmed(Show(r.leasetime)));
    SetAllAt(item, Pairs(r), 10, next);
    assert Pairs(r)[11..] == [];
    SetNothing(next);
  }

  /** Setting all pairs of a record makes every field its own, whatever was there before. */
  lemma {:induction false} PairsSet(item: Info, r: Info)
    requires Storable(r)
    ensures SetAll(item, Pairs(r)) == (Normal(r), 0)
  {
    hide SetAll, Pairs, Third, Half, Storable, Trimmed, ToInt32;
    FirstPairsSet(item, r);
    MiddlePairsSet(item, r);
    LastPairsSet(item, r);
    LastNumberSet(Normal(r).(leasetime := item.leasetime), r);
  }

  lemma {:induction false} SetNothing(item: Info)
    ensures SetAll(item, []) == (item, 0)
  {
  }

  lemma BraceIsRead()
    ensures Trimmed("}\n") == "}" && Trimmed("\n") == "" && !IsTag("}")
  {
    assert "}\n"[..1] == "}";
    assert "\n"[..0] == "";
  }

  lemma EndedTwo()
    ensures Ended(["", "}"]) == ["\n", "}\n"]
  {
    var ls := ["", "}"];
    assert ls[1..] == ["}"] && ls[1..][1..] == [];
    assert "" + "\n" == "\n" && "}" + "\n" == "}\n";
    assert Ended(ls[1..]) == ["}\n"];
    assert Ended(ls) == ["\n"] + Ended(ls[1..]);
  }

  /** The lines after a header are read as the record they were written from. */
  lemma {:induction false} NetworkIsRead(item: Info, r: Info, rest: seq<string>)
    requires Storable(r)
    ensures ReadNetwork(item, Ended(RecordLines(r) + ["}"]) + rest) == (Normal(r), 0, rest)
  {
    hide Normal, Pairs, PairLines, Storable, Trimmed, IsTag, SetAll;
    var section := PairLines(Pairs(r)) + [TAG];
    KeysOk(r);
    PairsSet(item, r);
    TagIsRead();
    BraceIsRead();
    var tail := ["\n", "}\n"] + rest;
    SectionIsRead(item, Pairs(r), tail);
    assert RecordLines(r) + ["}"] == [TAG] + (section + ["", "}"]);
    EndedConcat(section, ["", "}"]);
    EndedTwo();
    var lines := Ended(RecordLines(r) + ["}"]) + rest;
    assert lines == [TAG + "\n"] + (Ended(section) + tail);
    assert lines[1..] == Ended(section) + tail;
    assert tail[1..] == ["}\n"] + rest && tail[1..][1..] == rest;
    assert ReadNetwork(Normal(r), tail[1..]) == (Normal(r), 0, rest);
    assert ReadNetwork(Normal(r), tail) == (Normal(r), 0, rest);
  }

  lemma HeaderIsRead(i: nat)
    ensures IsHeader(Trimmed(Header(i) + "\n"))
  {
    hide Digits;
    var s := Header(i);
    assert s + "\n" == s + "\n";
    TrimRightPrefix(s, "\n");
    assert "\n"[..0] == "" && TrimRight("\n") == "";
    assert s + "" == s;
  }

  /** Reading the lines of written records gives the records back, in order. */
  lemma {:induction false} FileIsRead(item: Info, items: seq<Info>, i: nat)
    requires forall r <- items :: Storable(r)
    ensures ReadFile(item, Ended(FileLines(items, i))) == Normals(items)
    decreases |items|
  {
    hide Normal, Storable, RecordLines, IsHeader, Trimmed, Header, ReadNetwork, ClearClass;
    if items != [] {
      assert items[0] in items && forall r <- items[1..] :: r in items;
      var body := RecordLines(items[0]) + ["}"];
      var rest := FileLines(items[1..], i + 1);
      assert FileLines(items, i) == [Header(i)] + (body + rest);
      EndedConcat(body, rest);
      var lines := Ended(FileLines(items, i));
      assert lines == [Header(i) + "\n"] + (Ended(body) + Ended(rest));
      assert lines[1..] == Ended(body) + Ended(rest);
      HeaderIsRead(i);
      NetworkIsRead(ClearClass(item), items[0], Ended(rest));
      FileIsRead(Normal(items[0]), items[1..], i + 1);
    }
  }

  lemma {:induction false} FileLinesAreLines(items: seq<Info>, i: nat)
    requires (forall r <- items :: Storable(r)) && i + |items| < TWO63
    ensures forall l <- FileLines(items, i) :: IsLine(l)
    decreases |items|
  {
    hide Storable, RecordLines, IsLine, Header;
    if items != [] {
      assert items[0] in items && forall r <- items[1..] :: r in items;
      FileLinesAreLines(items[1..], i + 1);
      RecordLinesAreLines(items[0]);
      HeaderIsLine(i);
    }
  }

  lemma HeaderIsLine(i: nat)
    requires i < TWO63
    ensures IsLine(Header(i)) && IsLine("}")
  {
    NumberIsValue(i);
    assert Show(i) == Digits(i);
    hide Digits, Show;
  }

  lemma RecordLinesAreLines(r: Info)
    requires Storable(r)
    ensures forall l <- RecordLines(r) :: IsLine(l)
  {
    KeysOk(r);
    assert IsLine(TAG) && IsLine("");
    var pairs := Pairs(r);
    var lines := PairLines(pairs);
    hide Pairs, PairLines;
    forall i | 0 <= i < |lines|
      ensures IsLine(lines[i])
    {
      PairLineIsLine(pairs[i]);
    }
    hide IsLine;
  }

  lemma PairLineIsLine(p: (string, string))
    requires PairOk(p)
    ensures IsLine(PairLine(p))
  {
  }

  /**
   Loading what was saved gives every record back, in order, each with its eleven values:
   exactly those that trimming and 32 bits leave alone come back unchanged.
   */
  lemma {:induction false} SavedTextIsLoaded(item: Info, items: seq<Info>)
    requires (forall r <- items :: Storable(r)) && |items| < TWO63 - 1
    ensures ReadFile(item, Lines(Content(items))) == Normals(items)
    ensures Normals(items) == items <==>
            forall r <- items :: AllUntrimmable(r) && -TWO31 <= r.absoluteLeasetime < TWO31
  {
    hide Normal, Storable, AllUntrimmable, ReadFile, FileLines;
    FileLinesAreLines(items, 1);
    LinesOfUnlines(FileLines(items, 1));
    FileIsRead(item, items, 1);
    forall r | r in items
      ensures Normal(r) == r <==> AllUntrimmable(r) && -TWO31 <= r.absoluteLeasetime < TWO31
    {
      NormalIff(r);
    }
    assert (forall r <- items :: Normal(r) == r) ==> Normals(items) == items;
    if Normals(items) == items {
      forall r | r in items
        ensures Normal(r) == r
      {
        var k :| 0 <= k < |items| && items[k] == r;
        assert Normals(items)[k] == Normal(items[k]);
      }
    }
  }
}
