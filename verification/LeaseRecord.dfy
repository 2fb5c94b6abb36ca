/**
 Lease records on disk: writing a binding as one line, parsing the line back, and what a
 saved lease table becomes when a server reloads it.
 */
module LeaseRecord {
  import opened Words
  import opened Text
  import opened AddressPool
  import opened LeaseText
  import opened ServerHandlers

  /** A binding with the device name that travels with it. */
  datatype Record = Record(binding: Binding, deviceName: string)

  const NO_CHADDR: Chaddr := [0, 0, 0, 0, 0, 0, 0, 0, 0, 0, 0, 0, 0, 0, 0, 0]

  /** The zeroed structure a line is parsed into. */
  const FRESH := Record(Binding(0, NO_CHADDR, 0, 0, 0, 0, 0, 0, 0), "")

  // ----- Writing -----

  function Fields(b: Binding): (r: seq<string>)
    ensures |r| == 8
  {
    [MacText(b.chaddr), IpText(b.ip), Digits(b.leaseTime), Digits(b.bindingTime), Digits(b.pendingTime),
     Digits(b.pendingInterval), Show(b.mode), Show(b.status)]
  }

  function RecordText(r: Record): string {
    Spaced(Fields(r.binding), r.deviceName)
  }

  /** Writing fails if the buffer is under twenty octets or cannot hold the text and its end. */
  method WriteAddressBinding(r: Record, size: nat) returns (ok: bool, out: string)
    ensures ok <==> size >= 20 && |RecordText(r)| < size
    ensures ok ==> out == RecordText(r)
  {
    var b := r.binding;
    out := MacText(b.chaddr) + " " + (IpText(b.ip) + " " + (Digits(b.leaseTime) + " " + (
      Digits(b.bindingTime) + " " + (Digits(b.pendingTime) + " " + (Digits(b.pendingInterval) + " " + (
      Show(b.mode) + " " + (Show(b.status) + " " + r.deviceName)))))));
    SpacedEight(Fields(b), r.deviceName);
    ok := size >= 20 && |out| < size;
  }

  lemma {:induction false} SpacedEight(f: seq<string>, tail: string)
    requires |f| == 8
    ensures Spaced(f, tail) == f[0] + " " + (f[1] + " " + (f[2] + " " + (f[3] + " " + (
                               f[4] + " " + (f[5] + " " + (f[6] + " " + (f[7] + " " + tail)))))))
  {
    SpacedFour(f, tail);
    SpacedFour(f[4..], tail);
    assert f[4..][4..] == [] && Spaced([], tail) == tail;
  }

  lemma {:induction false} SpacedFour(f: seq<string>, tail: string)
    requires |f| >= 4
    ensures Spaced(f, tail) == f[0] + " " + (f[1] + " " + (f[2] + " " + (f[3] + " " + Spaced(f[4..], tail))))
  {
    assert f[1..][1..] == f[2..] && f[2..][1..] == f[3..] && f[3..][1..] == f[4..];
    assert Spaced(f[3..], tail) == f[3] + " " + Spaced(f[4..], tail);
    assert Spaced(f[2..], tail) == f[2] + " " + Spaced(f[3..], tail);
    assert Spaced(f[1..], tail) == f[1] + " " + Spaced(f[2..], tail);
  }

  // ----- Parsing -----

  /** A name copied over an older one without its end mark. */
  function Overlay(name: string, before: string): string {
    if |name| < |before| then name + before[|name|..] else name
  }

  /** Times from the future are moved so that the record starts now. */
  function Stamped(b: Binding, now: u64): Binding {
    if b.pendingTime > now
    then b.(bindingTime := (b.bindingTime - b.pendingTime + now) % U64_SIZE, pendingTime := now)
    else b
  }

  /** Bound before it was pending: such a record is refused. */
  predicate TimesOk(b: Binding) {
    b.bindingTime == 0 || b.pendingTime <= b.bindingTime
  }

  function FirstFields(b: Binding, strs: seq<string>): Binding
    requires |strs| >= 8
  {
    b.(chaddr := ParsedMac(strs[0], b.chaddr).0, ip := ParseIpAddr(strs[1]),
       leaseTime := CheckDataToUint64(strs[2]), bindingTime := CheckDataToUint64(strs[3]),
       pendingTime := CheckDataToUint64(strs[4]))
  }

  function LastFields(b: Binding, strs: seq<string>): Binding
    requires |strs| >= 8
  {
    var c := b.(pendingInterval := CheckDataToUint64(strs[5]), mode := CheckDataLegal(strs[6]),
                status := CheckDataLegal(strs[7]));
    if c.status == BIND_ASSOCIATED then c.(expireIn := Add64(c.bindingTime, c.leaseTime)) else c
  }

  /** What the pieces of a line make of a record, and whether they are accepted. */
  function FromPieces(r: Record, strs: seq<string>, now: u64): (Record, bool) {
    if |strs| < 8 then (r, false)
    else
      var b := FirstFields(r.binding, strs);
      if !TimesOk(b) then (r.(binding := b), false)
      else
        var name := if |strs| >= 9 then Overlay(strs[8], r.deviceName) else r.deviceName;
        (Record(LastFields(Stamped(b, now), strs), name), true)
  }

  function Parsed(r: Record, buf: string, now: u64): (Record, bool) {
    if CheckValidSplitString(buf, " ") then FromPieces(r, Split(buf, " "), now) else (r, false)
  }

  method ParseAddressBinding(r: Record, buf: string, now: u64) returns (out: Record, ok: bool)
    ensures (out, ok) == Parsed(r, buf, now)
  {
    hide Split, ParsedMac, ParseIpAddr, CheckDataToUint64, CheckDataLegal;
    var split, strs := SplitString(buf, " ");
    out, ok := r, false;
    if split && strs.Length >= 8 {
      ghost var pieces := strs[..];
      var field := new u8[16](i requires 0 <= i < 16 => r.binding.chaddr[i]);
      assert field[..] == r.binding.chaddr;
      var read := ParseMacAddress(strs[0], field);
      var b := r.binding.(chaddr := field[..], ip := ParseIpAddr(strs[1]));
      b := b.(leaseTime := CheckDataToUint64(strs[2]), bindingTime := CheckDataToUint64(strs[3]));
      b := b.(pendingTime := CheckDataToUint64(strs[4]));
      out := out.(binding := b);
      if b.bindingTime != 0 && b.bindingTime < b.pendingTime {
        return;
      }
      if b.pendingTime > now {
        b := b.(bindingTime := (b.bindingTime - b.pendingTime + now) % U64_SIZE);
        b := b.(pendingTime := now);
      }
      b := b.(pendingInterval := CheckDataToUint64(strs[5]));
      b := b.(mode := CheckDataLegal(strs[6]), status := CheckDataLegal(strs[7]));
      if b.status == BIND_ASSOCIATED {
        b := b.(expireIn := Add64(b.bindingTime, b.leaseTime));
      }
      out := Record(b, if strs.Length >= 9 then Overlay(strs[8], r.deviceName) else r.deviceName);
      ok := true;
    }
  }

  // ----- Round trip -----

  /** The `int` fields hold what an `int` can hold. */
  predicate IntFields(b: Binding) {
    -TWO31 <= b.mode < TWO31 && -TWO31 <= b.status < TWO31
  }

  /**
   What a line can give back: the six octets of the MAC, and as expiry only what follows from
   the other times of an associated record.
   */
  function Restored(b: Binding): Binding {
    b.(chaddr := Mac(b.chaddr) + PADDING,
       expireIn := if b.status == BIND_ASSOCIATED then Add64(b.bindingTime, b.leaseTime) else 0)
  }

  function FirstWord(name: string): string {
    var pieces := Split(name, " ");
    if pieces == [] then "" else pieces[0]
  }

  /** A field that splitting keeps in one piece. */
  predicate IsToken(t: string) {
    t != "" && Lacks(t, ' ') && |t| <= 20
  }

  lemma ShowShape(i: int)
    requires -TWO31 <= i < TWO31
    ensures IsToken(Show(i))
  {
    var n := if i < 0 then -i else i;
    assert Pow10(10) == 10000000000;
    DigitsLength(n, 10);
    hide Digits, Pow10;
    forall k | 0 <= k < |Show(i)|
      ensures Show(i)[k] != ' '
    {
      if k > 0 {
        assert IsDigit(Show(i)[1..][k - 1]);
      }
    }
  }

  lemma {:induction false} DigitsShape(n: u64)
    ensures IsToken(Digits(n))
  {
    assert Pow10(20) == Pow10(10) * Pow10(10) by {
      assert Pow10(10) == 10000000000;
    }
    assert Pow10(10) == 10000000000;
    DigitsLength(n, 20);
    DigitsLackSpace(n);
  }

  lemma FieldsShape(b: Binding)
    requires IntFields(b)
    ensures forall t <- Fields(b) :: IsToken(t)
  {
    assert IsToken(MacText(b.chaddr)) && IsToken(IpText(b.ip)) by {
      MacRoundTrip(b.chaddr, b.chaddr);
      IpTextShape(b.ip);
    }
    DigitsShape(b.leaseTime);
    DigitsShape(b.bindingTime);
    DigitsShape(b.pendingTime);
    DigitsShape(b.pendingInterval);
    ShowShape(b.mode);
    ShowShape(b.status);
    hide MacText, IpText, Digits, Show, IsToken;
  }

  lemma {:induction false} SpacedLength(tokens: seq<string>, tail: string)
    requires forall t <- tokens :: |t| <= 20
    ensures |tail| + |tokens| <= |Spaced(tokens, tail)| <= 21 * |tokens| + |tail|
    decreases |tokens|
  {
    if tokens != [] {
      assert forall t <- tokens[1..] :: t in tokens;
      assert tokens[0] in tokens;
      SpacedLength(tokens[1..], tail);
    }
  }

  /** The pieces of a written line: the eight fields, then the words of the device name. */
  lemma PiecesOfText(r: Record)
    requires IntFields(r.binding) && |r.deviceName| <= 64
    ensures CheckValidSplitString(RecordText(r), " ")
    ensures Split(RecordText(r), " ") == Fields(r.binding) + Split(r.deviceName, " ")
  {
    hide Split, Spaced, Fields, Lacks;
    FieldsShape(r.binding);
    assert forall t <- Fields(r.binding) :: t != "" && Lacks(t, ' ') && |t| <= 20;
    SpacedLength(Fields(r.binding), r.deviceName);
    SplitSpaced(Fields(r.binding), r.deviceName);
  }

  lemma FieldsReadBack(b: Binding, before: Binding)
    requires IntFields(b)
    ensures ParsedMac(Fields(b)[0], before.chaddr).0 == Mac(b.chaddr) + before.chaddr[6..]
    ensures ParseIpAddr(Fields(b)[1]) == b.ip && CheckDataToUint64(Fields(b)[2]) == b.leaseTime
    ensures CheckDataToUint64(Fields(b)[3]) == b.bindingTime && CheckDataToUint64(Fields(b)[4]) == b.pendingTime
    ensures CheckDataToUint64(Fields(b)[5]) == b.pendingInterval
    ensures CheckDataLegal(Fields(b)[6]) == b.mode && CheckDataLegal(Fields(b)[7]) == b.status
  {
    hide CheckDataToUint64, CheckDataLegal, Digits, Show, MacText, IpText, ParsedMac, ParseIpAddr, ToInt32;
    MacRoundTrip(b.chaddr, before.chaddr);
    IpRoundTrip(b.ip);
    Uint64IsExact(b.leaseTime);
    Uint64IsExact(b.bindingTime);
    Uint64IsExact(b.pendingTime);
    Uint64IsExact(b.pendingInterval);
    LegalIsExact(b.mode);
    LegalIsExact(b.status);
  }

  /**
   Parsing what was written accepts exactly the records whose times are in order, and gives
   back all their fields and the first word of the name.
   */
  lemma WrittenRecordIsRead(r: Record, now: u64)
    requires IntFields(r.binding) && |r.deviceName| <= 64
    ensures var (out, ok) := Parsed(FRESH, RecordText(r), now);
            (ok <==> TimesOk(r.binding)) &&
            (ok ==> out == Record(Restored(Stamped(r.binding, now)), FirstWord(r.deviceName)))
  {
    hide Split, Fields, RecordText, ParsedMac, ParseIpAddr, CheckDataToUint64, CheckDataLegal;
    var b := r.binding;
    PiecesOfText(r);
    FieldsReadBack(b, FRESH.binding);
    var strs := Split(RecordText(r), " ");
    var words := Split(r.deviceName, " ");
    assert strs[..8] == Fields(b) && strs[8..] == words;
    assert forall i :: 0 <= i < 8 ==> strs[i] == Fields(b)[i];
    assert NO_CHADDR[6..] == PADDING;
    assert words != [] ==> strs[8] == words[0];
  }

  /** The round trip is exact if and only if the times are in order and not in the future. */
  lemma RoundTripIff(r: Record, now: u64)
    requires IntFields(r.binding) && |r.deviceName| <= 64
    ensures Parsed(FRESH, RecordText(r), now) == (Record(Restored(r.binding), FirstWord(r.deviceName)), true) <==>
            TimesOk(r.binding) && r.binding.pendingTime <= now
  {
    hide Parsed, RecordText, FirstWord;
    WrittenRecordIsRead(r, now);
  }

  lemma {:induction false} WordsLackSpace(s: string)
    ensures forall w <- Split(s, " ") :: Lacks(w, ' ')
    decreases |s|
  {
    hide Split, Find;
    SplitStep(s, " ");
    var p := Find(s, " ");
    FindFirst(s);
    if p >= 0 {
      WordsLackSpace(s[p + 1..]);
    }
  }

  lemma FindFirst(s: string)
    ensures var p := Find(s, " ");
            if p < 0 then Lacks(s, ' ') else p < |s| && Lacks(s[..p], ' ')
  {
    forall q: nat | q < |s|
      ensures OccursAt(s, " ", q) <==> s[q] == ' '
    {
      SpaceAt(s, q);
    }
  }

  /** The device name survives if and only if there is no space in it. */
  lemma NameSurvivesIff(name: string)
    ensures FirstWord(name) == name <==> Lacks(name, ' ')
  {
    if name == "" {
      SplitStep(name, " ");
    } else {
      WordsLackSpace(name);
      if Lacks(name, ' ') {
        SplitWord(name);
      }
    }
  }

  // ----- The verdict on expiry -----

  /** A record restored exactly expires when it would have, at every later time. */
  lemma VerdictKept(b: Binding, t: u64)
    requires b.status == BIND_PENDING || b.status == BIND_ASSOCIATED
    ensures ExpiredAt(Restored(b), t) == ExpiredAt(b, t)
  {
  }

  /**
   The expiry of a record in any other status is lost: it comes back expired at every time but 0,
   which is the same verdict only once it had expired.
   */
  lemma OtherVerdictKeptIff(b: Binding, t: u64)
    requires b.status != BIND_PENDING && b.status != BIND_ASSOCIATED
    ensures ExpiredAt(Restored(b), t) == ExpiredAt(b, t) <==> t == 0 || t > b.expireIn
  {
  }

  function LeaseOf(b: Binding): u64 {
    if b.leaseTime == 0 then DHCP_LEASE_TIME else b.leaseTime
  }

  /**
   A record from the future is moved, and is judged at the time of loading as before: not
   expired, unless it is associated without a binding time. Such a record wraps around, and
   the verdict is kept exactly under the stated relation of its lease to its times.
   */
  lemma MovedVerdict(b: Binding, now: u64)
    requires b.status == BIND_PENDING || b.status == BIND_ASSOCIATED
    requires TimesOk(b) && b.pendingTime > now
    requires b.bindingTime + LeaseOf(b) < U64_SIZE && b.pendingTime + LeaseOf(b) < U64_SIZE
    ensures ExpiredAt(Restored(Stamped(b, now)), now) == ExpiredAt(b, now) <==>
            b.status == BIND_PENDING || b.bindingTime > 0 ||
            (LeaseOf(b) < now <==> b.pendingTime - now <= LeaseOf(b) < b.pendingTime)
  {
    if b.status == BIND_ASSOCIATED {
      var moved := b.bindingTime - b.pendingTime + now;
      Wrap64(moved);
      Wrap64((moved % U64_SIZE) + LeaseOf(b));
      Wrap64(b.bindingTime + LeaseOf(b));
    } else {
      Wrap64(b.pendingTime + LeaseOf(b));
      Wrap64(now + LeaseOf(b));
    }
  }

  lemma Wrap64(x: int)
    ensures 0 <= x < U64_SIZE ==> x % U64_SIZE == x
    ensures -U64_SIZE <= x < 0 ==> x % U64_SIZE == x + U64_SIZE
    ensures U64_SIZE <= x < 2 * U64_SIZE ==> x % U64_SIZE == x - U64_SIZE
  {
  }

  /** An expired record without binding time that parsing brings back to life. */
  lemma FutureRecordRevived()
    ensures var b := FRESH.binding.(status := BIND_ASSOCIATED, leaseTime := 10, pendingTime := 150);
            TimesOk(b) && ExpiredAt(b, 100) && !ExpiredAt(Restored(Stamped(b, 100)), 100)
  {
    var b := FRESH.binding.(status := BIND_ASSOCIATED, leaseTime := 10, pendingTime := 150);
    MovedVerdict(b, 100);
  }

  // ----- The lease file -----

  function TrimLeft(s: string): string {
    if s != "" && (s[0] == ' ' || s[0] == '\t') then TrimLeft(s[1..]) else s
  }

  function TrimRight(s: string): string {
    if s != "" && (s[|s| - 1] == ' ' || s[|s| - 1] == '\t') then TrimRight(s[..|s| - 1]) else s
  }

  /** A line as the loader sees it: `fgets` keeps the newline, and trimming does not touch it. */
  function LoadedLine(r: Record): string {
    TrimLeft(TrimRight(RecordText(r) + "\n"))
  }

  lemma {:induction false} SpacedTail(tokens: seq<string>, a: string, b: string)
    ensures Spaced(tokens, a) + b == Spaced(tokens, a + b)
    decreases |tokens|
  {
    if tokens != [] {
      SpacedTail(tokens[1..], a, b);
    }
  }

  lemma HexStart(c: Chaddr)
    ensures MacText(c)[0] != ' ' && MacText(c)[0] != '\t'
  {
    assert MacText(c)[0] == HexPair(c[0])[0];
  }

  /** Through the file the record comes back with a newline at the end of its name. */
  lemma LoadedLineIsRead(r: Record, now: u64)
    requires IntFields(r.binding) && |r.deviceName| < 64
    ensures LoadedLine(r) == RecordText(r.(deviceName := r.deviceName + "\n"))
    ensures Parsed(FRESH, LoadedLine(r), now).1 <==> TimesOk(r.binding)
    ensures TimesOk(r.binding) ==>
              Parsed(FRESH, LoadedLine(r), now) ==
              (Record(Restored(Stamped(r.binding, now)), FirstWord(r.deviceName + "\n")), true)
    ensures Lacks(r.deviceName, ' ') ==> FirstWord(r.deviceName + "\n") == r.deviceName + "\n"
  {
    hide Fields, FirstWord, Parsed;
    var named := r.(deviceName := r.deviceName + "\n");
    var s := RecordText(named);
    SpacedTail(Fields(r.binding), r.deviceName, "\n");
    FieldsStart(r.binding);
    SpacedStart(Fields(r.binding), named.deviceName);
    assert s[|s| - 1] == '\n' by {
      assert RecordText(r) + "\n" == s;
    }
    assert s[0] != ' ' && s[0] != '\t';
    WrittenRecordIsRead(named, now);
    NameSurvivesIff(named.deviceName);
  }

  lemma {:induction false} SpacedStart(tokens: seq<string>, tail: string)
    requires tokens != [] && tokens[0] != ""
    ensures Spaced(tokens, tail) != "" && Spaced(tokens, tail)[0] == tokens[0][0]
  {
  }

  lemma FieldsStart(b: Binding)
    ensures Fields(b)[0] != "" && Fields(b)[0][0] != ' ' && Fields(b)[0][0] != '\t'
  {
    hide MacText;
    HexStart(b.chaddr);
  }

  /** What a loader makes of one line: the record, or nothing if parsing refuses the line. */
  function LineRecord(r: Record, now: u64): seq<Binding> {
    var (out, ok) := Parsed(FRESH, LoadedLine(r), now);
    if ok then [out.binding] else []
  }

  /** The records a server reads from the file another one wrote, leases visited in `order`. */
  function ReadRecords(leases: map<u32, Binding>, names: map<u32, string>, order: seq<u32>, now: u64): seq<Binding>
    requires forall ip <- order :: ip in leases && ip in names
  {
    if order == [] then []
    else
      var ip := order[|order| - 1];
      ReadRecords(leases, names, order[..|order| - 1], now) + LineRecord(Record(leases[ip], names[ip]), now)
  }

  /** A lease as every table holds it, filed under its own address in the range. */
  predicate Filed(cfg: Config, ip: u32, b: Binding) {
    b.ip == ip && InRange(cfg, ip) && IntFields(b)
  }

  /**
   A lease table saved and loaded again keeps exactly the leases whose times are in order, each
   under its address and with its owner, moved to the present if its times lie in the future.
   */
  lemma {:induction false} SavedTableReloads(cfg: Config, leases: map<u32, Binding>, names: map<u32, string>,
                                             order: seq<u32>, now: u64)
    requires forall ip <- order :: ip in leases && ip in names && |names[ip]| < 64 && Filed(cfg, ip, leases[ip])
    ensures LoadLeases(cfg, ReadRecords(leases, names, order, now)) ==
            map ip | ip in order && TimesOk(leases[ip]) :: Restored(Stamped(leases[ip], now))
    decreases |order|
  {
    hide LineRecord, InRange, Restored, Stamped, TimesOk, LoadLeases, ReadRecords;
    ReadRecordsStep(leases, names, order, now);
    LoadStep(cfg, []);
    if order != [] {
      var n := |order| - 1;
      var ip := order[n];
      assert ip in order;
      var front := order[..n];
      assert forall i <- front :: i in order;
      SavedTableReloads(cfg, leases, names, front, now);
      LineRecordIs(Record(leases[ip], names[ip]), now);
      assert forall i :: i in order <==> i in front || i == ip;
      var records := ReadRecords(leases, names, front, now);
      if TimesOk(leases[ip]) {
        var b := Restored(Stamped(leases[ip], now));
        LoadStep(cfg, records + [b]);
        assert (records + [b])[..|records|] == records;
      } else {
        assert records + [] == records;
      }
    }
  }

  lemma LineRecordIs(r: Record, now: u64)
    requires IntFields(r.binding) && |r.deviceName| < 64
    ensures LineRecord(r, now) == if TimesOk(r.binding) then [Restored(Stamped(r.binding, now))] else []
    ensures Restored(Stamped(r.binding, now)).ip == r.binding.ip
  {
    hide Parsed, LoadedLine, Restored, Stamped, TimesOk, FirstWord;
    LoadedLineIsRead(r, now);
    RestoredIp(Stamped(r.binding, now));
    StampedIp(r.binding, now);
  }

  lemma StampedIp(b: Binding, now: u64)
    ensures Stamped(b, now).ip == b.ip && Stamped(b, now).chaddr == b.chaddr
  {
  }

  lemma {:induction false} ReadRecordsStep(leases: map<u32, Binding>, names: map<u32, string>, order: seq<u32>,
                                           now: u64)
    requires forall ip <- order :: ip in leases && ip in names
    ensures ReadRecords(leases, names, order, now) ==
            if order == [] then [] else
              var ip := order[|order| - 1];
              ReadRecords(leases, names, order[..|order| - 1], now) + LineRecord(Record(leases[ip], names[ip]), now)
  {
  }

  lemma {:induction false} LoadStep(cfg: Config, records: seq<Binding>)
    ensures LoadLeases(cfg, records) ==
            if records == [] then map[] else
              var earlier := LoadLeases(cfg, records[..|records| - 1]);
              var b := records[|records| - 1];
              if InRange(cfg, b.ip) then earlier[b.ip := b] else earlier
  {
  }

  lemma RestoredIp(b: Binding)
    ensures Restored(b).ip == b.ip
  {
  }
}
