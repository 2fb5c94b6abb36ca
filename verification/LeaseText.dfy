/**
 The text fields of a lease record: splitting a line, the MAC address in hexadecimal and the
 address as a dotted quad, each with its reader.
 */
module LeaseText {
  import opened Words
  import opened Text
  import opened AddressPool

  // ----- Splitting -----

  predicate OccursAt(s: string, sep: string, p: int) {
    0 <= p <= |s| - |sep| && s[p..p + |sep|] == sep
  }

  /** Where the separator occurs first from `i` on, or -1. */
  function FindFrom(s: string, sep: string, i: nat): (p: int)
    ensures p >= 0 ==> p >= i && OccursAt(s, sep, p)
    ensures forall q :: i <= q && (p < 0 || q < p) ==> !OccursAt(s, sep, q)
    decreases |s| - i
  {
    if OccursAt(s, sep, i) then i else if i >= |s| then -1 else FindFrom(s, sep, i + 1)
  }

  /** `strstr`. */
  function Find(s: string, sep: string): int {
    FindFrom(s, sep, 0)
  }

  /** The non-empty pieces between separators. */
  function Split(s: string, sep: string): (r: seq<string>)
    requires sep != ""
    decreases |s|
  {
    var p := Find(s, sep);
    if p < 0 then (if s == "" then [] else [s])
    else (if p == 0 then [] else [s[..p]]) + Split(s[p + |sep|..], sep)
  }

  predicate CheckValidSplitString(buf: string, sep: string) {
    buf != "" && sep != "" && |sep| <= |buf| <= 4096
  }

  lemma {:induction false} SplitStep(s: string, sep: string)
    requires sep != ""
    ensures var p := Find(s, sep);
            if p >= 0 then
              p + |sep| <= |s| &&
              Split(s, sep) == (if p == 0 then [] else [s[..p]]) + Split(s[p + |sep|..], sep)
            else Split(s, sep) == if s == "" then [] else [s]
  {
  }

  /** The first pass: how many pieces there are. */
  method CountPieces(buf: string, sep: string) returns (num: nat)
    requires sep != ""
    ensures num == |Split(buf, sep)|
  {
    hide Split, Find;
    num := 0;
    var pos := buf;
    SplitStep(pos, sep);
    var p := Find(pos, sep);
    while p >= 0
      invariant p == Find(pos, sep)
      invariant num + |Split(pos, sep)| == |Split(buf, sep)|
      decreases |pos|
    {
      SplitStep(pos, sep);
      if p != 0 {
        num := num + 1;
      }
      pos := pos[p + |sep|..];
      p := Find(pos, sep);
    }
    SplitStep(pos, sep);
    if pos != "" {
      num := num + 1;
    }
  }

  /** The second pass fills exactly an array of that size. */
  method FillPieces(buf: string, sep: string, strs: array<string>)
    requires sep != "" && strs.Length == |Split(buf, sep)|
    modifies strs
    ensures strs[..] == Split(buf, sep)
  {
    hide Split, Find;
    ghost var all := Split(buf, sep);
    var pos := buf;
    var num := 0;
    var p := Find(pos, sep);
    while p >= 0
      invariant p == Find(pos, sep) && 0 <= num <= |all|
      invariant all[num..] == Split(pos, sep) && strs[..num] == all[..num]
      decreases |pos|
    {
      SplitStep(pos, sep);
      if p != 0 {
        assert all[num..][0] == pos[..p] && all[num..][1..] == all[num + 1..];
        strs[num] := pos[..p];
        num := num + 1;
      }
      pos := pos[p + |sep|..];
      p := Find(pos, sep);
    }
    SplitStep(pos, sep);
    if pos != "" {
      assert all[num..] == [pos] && all[num..][0] == all[num];
      strs[num] := pos;
    }
  }

  /** Both passes; a refused line and a line without pieces give no array. */
  method SplitString(buf: string, sep: string) returns (ok: bool, strs: array<string>)
    ensures ok <==> CheckValidSplitString(buf, sep) && Split(buf, sep) != []
    ensures fresh(strs)
    ensures ok ==> strs[..] == Split(buf, sep)
  {
    ok := CheckValidSplitString(buf, sep);
    var total := 0;
    if ok {
      total := CountPieces(buf, sep);
      ok := total > 0;
    }
    strs := new string[total];
    if ok {
      FillPieces(buf, sep, strs);
    }
  }

  /** Tokens with a space after each, then the tail. */
  function Spaced(tokens: seq<string>, tail: string): string {
    if tokens == [] then tail else tokens[0] + " " + Spaced(tokens[1..], tail)
  }

  lemma SpaceAt(s: string, q: nat)
    requires q < |s|
    ensures OccursAt(s, " ", q) <==> s[q] == ' '
  {
    assert s[q..q + 1] == [s[q]];
  }

  lemma FindAfter(token: string, rest: string)
    requires Lacks(token, ' ')
    ensures Find(token + " " + rest, " ") == |token|
  {
    var s := token + " " + rest;
    SpaceAt(s, |token|);
    forall q | 0 <= q < |token|
      ensures !OccursAt(s, " ", q)
    {
      SpaceAt(s, q);
      assert s[q] == token[q];
    }
  }

  lemma {:induction false} SplitOff(token: string, rest: string)
    requires token != "" && Lacks(token, ' ')
    ensures Split(token + " " + rest, " ") == [token] + Split(rest, " ")
  {
    hide Split, Find;
    var s := token + " " + rest;
    FindAfter(token, rest);
    SplitStep(s, " ");
    assert s[..|token|] == token && s[|token| + 1..] == rest;
  }

  /** Splitting undoes joining. */
  lemma {:induction false} SplitSpaced(tokens: seq<string>, tail: string)
    requires forall t <- tokens :: t != "" && Lacks(t, ' ')
    ensures Split(Spaced(tokens, tail), " ") == tokens + Split(tail, " ")
    decreases |tokens|
  {
    hide Split;
    if tokens != [] {
      assert forall t <- tokens[1..] :: t in tokens;
      assert tokens[0] in tokens;
      var rest := Spaced(tokens[1..], tail);
      SplitSpaced(tokens[1..], tail);
      SplitOff(tokens[0], rest);
      assert tokens == [tokens[0]] + tokens[1..];
    }
  }

  lemma {:induction false} SplitWord(word: string)
    requires Lacks(word, ' ') && word != ""
    ensures Split(word, " ") == [word]
  {
    forall q | 0 <= q < |word|
      ensures !OccursAt(word, " ", q)
    {
      SpaceAt(word, q);
    }
  }

  // ----- MAC addresses -----

  function HexChar(d: nat): char
    requires d < 16
  {
    if d < 10 then ('0' as int + d) as char else ('a' as int + d - 10) as char
  }

  /** The value of a hexadecimal digit of either case, or -1. */
  function HexValue(c: char): (v: int)
    ensures -1 <= v < 16
  {
    if '0' <= c <= '9' then c as int - '0' as int
    else if 'a' <= c <= 'f' then c as int - 'a' as int + 10
    else if 'A' <= c <= 'F' then c as int - 'A' as int + 10
    else -1
  }

  function HexPair(b: u8): string {
    [HexChar(b / 16), HexChar(b % 16)]
  }

  /** `%02x` six times, with colons between. */
  function MacText(c: Chaddr): (s: string)
    ensures |s| == 17
  {
    HexPair(c[0]) + ":" + HexPair(c[1]) + ":" + HexPair(c[2]) + ":" +
    HexPair(c[3]) + ":" + HexPair(c[4]) + ":" + HexPair(c[5])
  }

  /** Group `k` of a MAC text: two hexadecimal digits, and a colon before the next group. */
  predicate GroupOk(s: string, k: nat)
    requires |s| == 17 && k < 6
  {
    HexValue(s[3 * k]) >= 0 && HexValue(s[3 * k + 1]) >= 0 && (k < 5 ==> s[3 * k + 2] == ':')
  }

  function GroupValue(s: string, k: nat): u8
    requires |s| == 17 && k < 6 && GroupOk(s, k)
  {
    16 * HexValue(s[3 * k]) + HexValue(s[3 * k + 1])
  }

  /** The octets after reading groups from `k` on: a bad group ends the reading. */
  function ReadGroups(s: string, k: nat, mac: Chaddr): (r: (Chaddr, bool))
    requires |s| == 17 && k <= 6
    ensures r.1 <==> forall j :: k <= j < 6 ==> GroupOk(s, j)
    ensures forall j :: 0 <= j < 16 && !(k <= j < 6) ==> r.0[j] == mac[j]
    ensures r.1 ==> forall j :: k <= j < 6 ==> r.0[j] == GroupValue(s, j)
    decreases 6 - k
  {
    if k == 6 then (mac, true)
    else if !GroupOk(s, k) then (mac, false)
    else ReadGroups(s, k + 1, mac[k := GroupValue(s, k)])
  }

  function ParsedMac(s: string, mac: Chaddr): (Chaddr, bool) {
    if |s| != 17 then (mac, false) else ReadGroups(s, 0, mac)
  }

  lemma ReadGroupStep(s: string, k: nat, mac: Chaddr)
    requires |s| == 17 && k < 6
    ensures !GroupOk(s, k) ==> ReadGroups(s, k, mac) == (mac, false)
    ensures GroupOk(s, k) ==> ReadGroups(s, k, mac) == ReadGroups(s, k + 1, mac[k := GroupValue(s, k)])
    ensures ReadGroups(s, 6, mac) == (mac, true)
  {
  }

  /** The loop over single characters, with its two counters and its shifted octet. */
  method ParseMacAddress(s: string, mac: array<u8>) returns (ok: bool)
    requires mac.Length == 16
    modifies mac
    ensures (mac[..], ok) == ParsedMac(s, old(mac[..]))
  {
    hide ReadGroups, HexValue;
    if |s| != 17 {
      return false;
    }
    ghost var result := ReadGroups(s, 0, mac[..]);
    var tmp: u8 := 0;
    var i, j := 0, 0;
    ghost var k := 0;
    while i < 17
      invariant 0 <= i <= 17 && i == 3 * k + j && 0 <= j <= 2 && 0 <= k < 6
      invariant ReadGroups(s, k, mac[..]) == result
      invariant j == 0 ==> tmp == 0
      invariant j >= 1 ==> HexValue(s[3 * k]) >= 0
      invariant j == 1 ==> tmp == HexValue(s[3 * k])
      invariant j == 2 ==> HexValue(s[3 * k + 1]) >= 0 && tmp == 16 * HexValue(s[3 * k]) + HexValue(s[3 * k + 1])
    {
      ReadGroupStep(s, k, mac[..]);
      if j == 0 || j == 1 {
        var v := HexValue(s[i]);
        if v < 0 {
          return false;
        }
        tmp := 16 * tmp % 256 + v;
        j := j + 1;
      } else {
        if s[i] != ':' {
          return false;
        }
        ghost var before := mac[..];
        mac[i / 3] := tmp;
        assert mac[..] == before[k := tmp];
        j := 0;
        k := k + 1;
        tmp := 0;
      }
      i := i + 1;
    }
    ghost var before := mac[..];
    ReadGroupStep(s, 5, before);
    mac[17 / 3] := tmp;
    assert mac[..] == before[5 := tmp];
    ReadGroupStep(s, 5, mac[..]);
    return true;
  }

  lemma HexPairValue(b: u8)
    ensures HexValue(HexPair(b)[0]) == b / 16 && HexValue(HexPair(b)[1]) == b % 16
    ensures Lacks(HexPair(b), ' ')
  {
  }

  /** The six octets come back from their text, whatever was in the field before. */
  lemma MacRoundTrip(c: Chaddr, before: Chaddr)
    ensures ParsedMac(MacText(c), before) == (c[..6] + before[6..], true)
    ensures Lacks(MacText(c), ' ')
  {
    var s := MacText(c);
    forall k | 0 <= k < 6
      ensures s[3 * k] == HexPair(c[k])[0] && s[3 * k + 1] == HexPair(c[k])[1]
      ensures k < 5 ==> s[3 * k + 2] == ':'
      ensures GroupOk(s, k) && GroupValue(s, k) == c[k]
      ensures s[3 * k] != ' ' && s[3 * k + 1] != ' '
    {
      assert k == 0 || k == 1 || k == 2 || k == 3 || k == 4 || k == 5;
      HexPairValue(c[k]);
    }
    forall i | 0 <= i < 17
      ensures s[i] != ' '
    {
      var k := i / 3;
      assert i == 3 * k || i == 3 * k + 1 || i == 3 * k + 2;
    }
    assert ReadGroups(s, 0, before).0 == c[..6] + before[6..];
  }

  // ----- Dotted quads -----

  /** `inet_ntop`: the octets in the order they have in memory. */
  function IpText(ip: u32): string {
    Quad(Octet(ip, 0), Octet(ip, 1), Octet(ip, 2), Octet(ip, 3))
  }

  function Quad(a: u8, b: u8, c: u8, d: u8): string {
    Digits(a) + ("." + (Digits(b) + ("." + (Digits(c) + ("." + Digits(d))))))
  }

  /** `count` decimal octets with dots between; `None` for anything else. */
  datatype Octets = NoOctets | SomeOctets(octets: seq<u8>)

  function ReadQuad(s: string, count: nat): (r: Octets)
    requires count > 0
    ensures r.SomeOctets? ==> |r.octets| == count
    decreases count
  {
    var ds := LeadingDigits(s);
    if ds == "" || Value(ds) > 255 then NoOctets
    else if count == 1 then (if |s| == |ds| then SomeOctets([Value(ds)]) else NoOctets)
    else if |s| == |ds| || s[|ds|] != '.' then NoOctets
    else match ReadQuad(s[|ds| + 1..], count - 1)
      case NoOctets => NoOctets
      case SomeOctets(rest) => var first: u8 := Value(ds); SomeOctets([first] + rest)
  }

  /** `inet_aton` on dotted quads; a text that is none gives 0. */
  function ParseIpAddr(s: string): u32 {
    match ReadQuad(s, 4)
    case NoOctets => 0
    case SomeOctets(o) => Join(o[3], o[2], o[1], o[0])
  }

  lemma {:induction false} ReadLast(d: u8)
    ensures ReadQuad(Digits(d), 1) == SomeOctets([d])
  {
    DigitsValue(d);
    LeadingOf(Digits(d), "");
    assert Digits(d) + "" == Digits(d);
  }

  lemma ReadFirst(d: u8, rest: string, count: nat, octets: seq<u8>)
    requires count > 0 && ReadQuad(rest, count) == SomeOctets(octets)
    ensures ReadQuad(Digits(d) + ("." + rest), count + 1) == SomeOctets([d] + octets)
  {
    var s := Digits(d) + ("." + rest);
    DigitsValue(d);
    LeadingOf(Digits(d), "." + rest);
    hide Digits, Value, LeadingDigits;
    assert s[|Digits(d)|] == '.' && s[|Digits(d)| + 1..] == rest;
  }

  lemma IpRoundTrip(ip: u32)
    ensures ParseIpAddr(IpText(ip)) == ip
  {
    hide Octet, Join, Digits, ReadQuad;
    var a, b, c, d := Octet(ip, 0), Octet(ip, 1), Octet(ip, 2), Octet(ip, 3);
    ReadLast(d);
    ReadFirst(c, Digits(d), 1, [d]);
    ReadFirst(b, Digits(c) + ("." + Digits(d)), 2, [c, d]);
    ReadFirst(a, Digits(b) + ("." + (Digits(c) + ("." + Digits(d)))), 3, [b, c, d]);
    assert [a] + ([b] + [c, d]) == [a, b, c, d];
    JoinOctets(ip);
  }

  lemma {:induction false} DigitsLackSpace(n: nat)
    ensures Lacks(Digits(n), ' ')
  {
    hide Digits;
  }

  lemma IpTextShape(ip: u32)
    ensures Lacks(IpText(ip), ' ') && 0 < |IpText(ip)| <= 15
  {
    hide Octet, Digits;
    forall i: nat | i < 4
      ensures |Digits(Octet(ip, i))| <= 3
    {
      DigitsLength(Octet(ip, i), 3);
    }
    assert |Digits(Octet(ip, 0))| <= 3 && |Digits(Octet(ip, 1))| <= 3;
    assert |Digits(Octet(ip, 2))| <= 3 && |Digits(Octet(ip, 3))| <= 3;
  }
}
