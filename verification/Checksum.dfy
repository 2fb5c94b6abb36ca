/**
 The Internet checksum of the client's raw socket (RFC 1071): the summing and folding loops
 against the one's-complement sum, and what sender and receiver agree on.
 */
module Checksum {
  import opened Words

  type u16 = x: int | 0 <= x < 0x1_0000

  // ----- One's-complement arithmetic -----

  /** One's-complement addition: the carry out of bit 15 comes back in at bit 0. */
  function OcAdd(a: u16, b: u16): u16 {
    if a + b > 0xFFFF then a + b - 0xFFFF else a + b
  }

  function OcSum(words: seq<u16>): u16 {
    if words == [] then 0 else OcAdd(OcSum(words[..|words| - 1]), words[|words| - 1])
  }

  function Sum(words: seq<u16>): nat {
    if words == [] then 0 else Sum(words[..|words| - 1]) + words[|words| - 1]
  }

  /** Adding the high half to the low half until nothing is left above 16 bits. */
  function Fold(x: nat): u16 {
    if x < 0x1_0000 then x else Fold(x % 0x1_0000 + x / 0x1_0000)
  }

  /** Folding keeps the value modulo 65535, and keeps nonzero values nonzero. */
  lemma FoldMeaning(x: nat) returns (q: nat)
    ensures x == Fold(x) + 0xFFFF * q
    ensures x > 0 ==> Fold(x) > 0
  {
    if x < 0x1_0000 {
      q := 0;
    } else {
      q := FoldMeaning(x % 0x1_0000 + x / 0x1_0000);
      q := q + x / 0x1_0000;
    }
  }

  /** Folding is determined by its meaning. */
  lemma {:induction false} FoldUnique(x: nat, r: u16, q: int)
    requires x == r + 0xFFFF * q && (x > 0 ==> r > 0) && (x == 0 ==> r == 0)
    ensures Fold(x) == r
  {
    var p := FoldMeaning(x);
    hide Fold;
    var d: int := q - p;
    assert Fold(x) - r == 0xFFFF * d;
    assert -1 <= d <= 1;
  }

  lemma {:induction false} FoldAdd(x: nat, w: u16)
    ensures Fold(x + w) == OcAdd(Fold(x), w)
  {
    var q := FoldMeaning(x);
    var s := OcAdd(Fold(x), w);
    FoldUnique(x + w, s, if Fold(x) + w > 0xFFFF then q + 1 else q);
  }

  /** The folded plain sum is the one's-complement sum. */
  lemma {:induction false} FoldedSum(words: seq<u16>)
    ensures Fold(Sum(words)) == OcSum(words)
  {
    if words != [] {
      FoldedSum(words[..|words| - 1]);
      FoldAdd(Sum(words[..|words| - 1]), words[|words| - 1]);
    }
  }

  lemma {:induction false} SumConcat(a: seq<u16>, b: seq<u16>)
    ensures Sum(a + b) == Sum(a) + Sum(b)
  {
    if b == [] {
      assert a + b == a;
    } else {
      SumConcat(a, b[..|b| - 1]);
      assert (a + b)[..|a + b| - 1] == a + b[..|b| - 1];
    }
  }

  lemma SumSingle(w: u16)
    ensures Sum([w]) == w
  {
    assert [w][..0] == [];
  }

  // ----- The checksum of octets -----

  function WordOf(low: u8, high: u8): u16 {
    low + 256 * high
  }

  /**
   Octets taken two by two as a little-endian host reads them. The last octet of an odd
   number shares its word with whatever was on the stack.
   */
  function WordsOf(data: seq<u8>, garbage: u8): seq<u16> {
    if data == [] then []
    else if |data| == 1 then [WordOf(data[0], garbage)]
    else [WordOf(data[0], data[1])] + WordsOf(data[2..], garbage)
  }

  function CheckSumOf(words: seq<u16>): u16 {
    0xFFFF - OcSum(words)
  }

  lemma {:induction false} SumBound(words: seq<u16>)
    ensures Sum(words) <= |words| * 0xFFFF
  {
    if words != [] {
      SumBound(words[..|words| - 1]);
    }
  }

  lemma {:induction false} WordCount(data: seq<u8>, garbage: u8)
    ensures |WordsOf(data, garbage)| == (|data| + 1) / 2
  {
    if |data| >= 2 {
      WordCount(data[2..], garbage);
    }
  }

  lemma SumEmpty()
    ensures Sum([]) == 0
  {
  }

  lemma {:induction false} SumSnoc(words: seq<u16>, w: u16)
    ensures Sum(words + [w]) == Sum(words) + w
    ensures Sum(words + [w]) <= (|words| + 1) * 0xFFFF
  {
    assert (words + [w])[..|words|] == words;
    SumBound(words + [w]);
  }

  /** The summing loop: the 32-bit total never loses a carry. */
  method AddWords(data: seq<u8>, garbage: u8) returns (total: u32)
    requires |data| <= 0x2_0000
    ensures total == Sum(WordsOf(data, garbage))
  {
    hide Sum;
    total := 0;
    ghost var done: seq<u16> := [];
    var rest := data;
    SumEmpty();
    assert done + WordsOf(rest, garbage) == WordsOf(data, garbage);
    while |rest| >= 2
      invariant done + WordsOf(rest, garbage) == WordsOf(data, garbage)
      invariant 2 * |done| + |rest| == |data|
      invariant total == Sum(done)
    {
      var w := WordOf(rest[0], rest[1]);
      SumSnoc(done, w);
      assert (done + [w]) + WordsOf(rest[2..], garbage) == done + WordsOf(rest, garbage);
      total := total + w;
      done := done + [w];
      rest := rest[2..];
    }
    if |rest| > 0 {
      var w := WordOf(rest[0], garbage);
      SumSnoc(done, w);
      total := total + w;
      done := done + [w];
    }
    assert done == WordsOf(data, garbage);
  }

  /** The loops over a 32-bit total: the folding ends, and the result is the checksum. */
  method GetCheckSum(data: seq<u8>, garbage: u8) returns (r: u16)
    requires |data| <= 0x2_0000
    ensures r == CheckSumOf(WordsOf(data, garbage))
  {
    hide Sum, WordsOf, OcSum;
    var total := AddWords(data, garbage);
    ghost var sum := total;
    while total / 0x1_0000 != 0
      invariant Fold(total) == Fold(sum)
      decreases total
    {
      total := total % 0x1_0000 + total / 0x1_0000;
    }
    FoldedSum(WordsOf(data, garbage));
    r := 0xFFFF - total;
  }

  // ----- Sender and receiver -----

  /** A word of the header replaced: the sum changes by what was put in place of a zero. */
  lemma SumUpdate(words: seq<u16>, k: nat, w: u16)
    requires k < |words| && words[k] == 0
    ensures Sum(words[k := w]) == Sum(words) + w
  {
    var a, b := words[..k], words[k + 1..];
    assert words == a + [0] + b && words[k := w] == a + [w] + b;
    SumConcat(a + [0], b);
    SumConcat(a + [w], b);
    SumConcat(a, [0]);
    SumConcat(a, [w]);
    SumSingle(0);
    SumSingle(w);
  }

  /** A header summed with its checksum in place verifies: the sum is all ones. */
  lemma HeaderVerifies(words: seq<u16>, k: nat)
    requires k < |words| && words[k] == 0
    ensures OcSum(words[k := CheckSumOf(words)]) == 0xFFFF
    ensures CheckSumOf(words[k := CheckSumOf(words)]) == 0
  {
    var c := CheckSumOf(words);
    SumUpdate(words, k, c);
    FoldAdd(Sum(words), c);
    FoldedSum(words);
    FoldedSum(words[k := c]);
  }

  /** The receiver recomputes with the field cleared, and accepts exactly an undamaged checksum. */
  predicate CheckPacketIpSum(header: seq<u16>, k: nat)
    requires k < |header|
  {
    header[k] == CheckSumOf(header[k := 0])
  }

  /** Two values that fold to the same word differ by a multiple of 65535. */
  lemma SameFold(x: nat, a: u16, b: u16)
    requires Fold(x + a) == Fold(x + b) && a != b
    ensures {a, b} == {0, 0xFFFF}
  {
    var p := FoldMeaning(x + a);
    var q := FoldMeaning(x + b);
    var d: int := p as int - q;
    assert a as int - b == 0xFFFF * d;
    assert d == 1 || d == -1;
  }

  /** Damage to one other word of the header is noticed, unless it swaps all zeros for all ones. */
  lemma OneWordDamageIsNoticed(header: seq<u16>, k: nat, j: nat, w: u16)
    requires k < |header| && j < |header| && j != k && CheckPacketIpSum(header, k)
    requires w != header[j]
    ensures CheckPacketIpSum(header[j := w], k) ==> {w, header[j]} == {0, 0xFFFF}
  {
    hide OcSum, Sum, Fold;
    var clean := header[k := 0];
    var base := clean[j := 0];
    SumUpdate(base, j, header[j]);
    SumUpdate(base, j, w);
    assert base[j := header[j]] == clean && base[j := w] == header[j := w][k := 0];
    FoldedSum(clean);
    FoldedSum(base[j := w]);
    if CheckPacketIpSum(header[j := w], k) {
      SameFold(Sum(base), header[j], w);
    }
  }

  /** Zero words after the data do not change the sum. */
  lemma {:induction false} ZerosDoNotCount(words: seq<u16>, zeros: seq<u16>)
    requires forall i :: 0 <= i < |zeros| ==> zeros[i] == 0
    ensures OcSum(words + zeros) == OcSum(words)
  {
    if zeros == [] {
      assert words + zeros == words;
    } else {
      var n := |zeros| - 1;
      ZerosDoNotCount(words, zeros[..n]);
      assert (words + zeros)[..|words + zeros| - 1] == words + zeros[..n];
    }
  }

  lemma {:induction false} WordsConcat(a: seq<u8>, b: seq<u8>, garbage: u8)
    requires |a| % 2 == 0
    ensures WordsOf(a + b, garbage) == WordsOf(a, garbage) + WordsOf(b, garbage)
  {
    if a == [] {
      assert a + b == b;
    } else {
      var w := WordOf(a[0], a[1]);
      hide WordOf;
      WordsConcat(a[2..], b, garbage);
      assert (a + b)[2..] == a[2..] + b && (a + b)[0] == a[0] && (a + b)[1] == a[1];
      assert WordsOf(a, garbage) == [w] + WordsOf(a[2..], garbage);
    }
  }

  lemma {:induction false} ZeroWords(b: seq<u8>)
    requires forall i :: 0 <= i < |b| ==> b[i] == 0
    ensures forall i :: 0 <= i < |WordsOf(b, 0)| ==> WordsOf(b, 0)[i] == 0
  {
    if |b| >= 2 {
      ZeroWords(b[2..]);
    }
  }

  lemma {:induction false} EvenNeedsNoGarbage(data: seq<u8>, garbage: u8)
    requires |data| % 2 == 0
    ensures WordsOf(data, garbage) == WordsOf(data, 0)
  {
    if data != [] {
      EvenNeedsNoGarbage(data[2..], garbage);
    }
  }

  /**
   The sender sums the whole zero-padded structure, the receiver the datagram that was sent:
   over an even number of octets they agree whatever the receiver's stack holds, and over an
   odd number exactly if the stray octet is 0.
   */
  lemma {:induction false} SenderAndReceiverAgree(data: seq<u8>, padding: seq<u8>, garbage: u8)
    requires forall i :: 0 <= i < |padding| ==> padding[i] == 0
    requires (|data| + |padding|) % 2 == 0
    ensures CheckSumOf(WordsOf(data + padding, 0)) == CheckSumOf(WordsOf(data, garbage)) <==>
            (|data| % 2 == 0 || garbage == 0)
  {
    hide WordsOf, OcSum;
    if |data| % 2 == 0 {
      WordsConcat(data, padding, 0);
      ZeroWords(padding);
      ZerosDoNotCount(WordsOf(data, 0), WordsOf(padding, 0));
      EvenNeedsNoGarbage(data, garbage);
    } else {
      var n := |data| - 1;
      var front, last := data[..n], data[n];
      PaddedOdd(front, last, padding);
      assert data == front + [last];
      WordsConcat(front, [last], garbage);
      EvenNeedsNoGarbage(front, garbage);
      LastWord(last, garbage);
      ZeroWords(padding[1..]);
      ZerosDoNotCount(WordsOf(front, 0) + [last], WordsOf(padding[1..], 0));
      StrayOctet(WordsOf(front, 0), last, garbage);
    }
  }

  lemma {:induction false} LastWord(last: u8, garbage: u8)
    ensures WordsOf([last], garbage) == [last + 256 * garbage]
  {
  }

  /** In the padded structure the odd octet shares its word with the first octet of the padding. */
  lemma {:induction false} PaddedOdd(front: seq<u8>, last: u8, padding: seq<u8>)
    requires |front| % 2 == 0 && padding != [] && padding[0] == 0
    ensures WordsOf(front + [last] + padding, 0) == (WordsOf(front, 0) + [last]) + WordsOf(padding[1..], 0)
  {
    hide WordsOf;
    assert padding == [0] + padding[1..];
    assert front + [last] + padding == front + ([last, 0] + padding[1..]);
    WordsConcat(front, [last, 0] + padding[1..], 0);
    WordsConcat([last, 0], padding[1..], 0);
    OneWord(last);
  }

  lemma OneWord(last: u8)
    ensures WordsOf([last, 0], 0) == [last]
  {
    assert [last, 0][2..] == [];
  }

  lemma {:induction false} StrayOctet(words: seq<u16>, last: u8, garbage: u8)
    ensures OcSum(words + [last]) == OcSum(words + [last + 256 * garbage]) <==> garbage == 0
  {
    hide Sum, OcSum, Fold;
    SumConcat(words, [last]);
    SumConcat(words, [last + 256 * garbage]);
    SumSingle(last);
    SumSingle(last + 256 * garbage);
    FoldedSum(words + [last]);
    FoldedSum(words + [last + 256 * garbage]);
    if garbage > 0 && Fold(Sum(words) + last) == Fold(Sum(words) + (last + 256 * garbage)) {
      SameFold(Sum(words), last, last + 256 * garbage);
      assert false;
    }
  }

  // ----- Byte order -----

  function Swap16(w: u16): u16 {
    w % 256 * 256 + w / 256
  }

  lemma SwapLaws(w: u16)
    ensures Swap16(w) == 256 * w - 0xFFFF * (w / 256)
    ensures Swap16(0xFFFF - w) == 0xFFFF - Swap16(w)
    ensures Swap16(w) > 0 <==> w > 0
  {
    assert (0xFFFF - w) % 256 == 255 - w % 256 && (0xFFFF - w) / 256 == 255 - w / 256;
  }

  function SwapAll(words: seq<u16>): seq<u16> {
    if words == [] then [] else SwapAll(words[..|words| - 1]) + [Swap16(words[|words| - 1])]
  }

  lemma SwapAllSum(words: seq<u16>) returns (q: int)
    ensures Sum(SwapAll(words)) == 256 * Sum(words) - 0xFFFF * q
    ensures Sum(SwapAll(words)) == 0 <==> Sum(words) == 0
  {
    if words == [] {
      q := 0;
    } else {
      var n := |words| - 1;
      q := SwapAllSum(words[..n]);
      assert SwapAll(words)[..|SwapAll(words)| - 1] == SwapAll(words[..n]);
      q := q + words[n] / 256;
    }
  }

  /**
   Byte order does not matter: summing the words as a little-endian host reads them gives, when
   stored back, the octets that summing in network order gives (section 2 of RFC 1071).
   */
  lemma {:induction false} ByteOrderIndependent(words: seq<u16>)
    ensures CheckSumOf(SwapAll(words)) == Swap16(CheckSumOf(words))
  {
    hide Sum, OcSum, Fold, SwapAll;
    var q := SwapAllSum(words);
    var p := FoldMeaning(Sum(words));
    var s := Fold(Sum(words));
    FoldedSum(words);
    FoldedSum(SwapAll(words));
    SwapLaws(s);
    FoldUnique(Sum(SwapAll(words)), Swap16(s), 256 * p + s / 256 - q);
  }

  // ----- Whole packets -----

  /** The octets in which a word is stored. */
  function Stored(w: u16): (r: seq<u8>)
    ensures |r| == 2 && WordOf(r[0], r[1]) == w
  {
    [w % 256, w / 256]
  }

  /** What sits where the IP header will be while the UDP checksum is taken: length, protocol, addresses. */
  function PseudoHeader(length: seq<u8>, addresses: seq<u8>): (r: seq<u8>)
    requires |length| == 2 && |addresses| == 8
    ensures |r| == 20
  {
    [0, 0] + length + [0, 0, 0, 0, 0, 17, 0, 0] + addresses
  }

  /** The IP header: version and length of header, total length, time to live, protocol, checksum, addresses. */
  function IpHeader(total: seq<u8>, check: seq<u8>, addresses: seq<u8>): (r: seq<u8>)
    requires |total| == 2 && |check| == 2 && |addresses| == 8
    ensures |r| == 20
  {
    [0x45, 0] + total + [0, 0, 0, 0, 64, 17] + check + addresses
  }

  /**
   The packet handed to the socket. `tail` is the rest of the structure, which the UDP checksum
   covers but which is not sent.
   */
  function SentPacket(ports: seq<u8>, length: seq<u8>, total: seq<u8>, addresses: seq<u8>,
                      body: seq<u8>, tail: seq<u8>): (r: seq<u8>)
    requires |ports| == 4 && |length| == 2 && |total| == 2 && |addresses| == 8
    ensures |r| == 28 + |body|
  {
    var udp := CheckSumOf(WordsOf(
                            PseudoHeader(length, addresses) + (ports + length + [0, 0] + body) + tail, 0));
    var ip := CheckSumOf(WordsOf(IpHeader(total, [0, 0], addresses), 0));
    IpHeader(total, Stored(ip), addresses) + (ports + length + Stored(udp) + body)
  }

  /** The receiver clears the field and sums the twenty octets of the header again. */
  predicate IpSumAccepted(packet: seq<u8>)
    requires |packet| >= 28
  {
    WordOf(packet[10], packet[11]) == CheckSumOf(WordsOf(packet[..20][10 := 0][11 := 0], 0))
  }

  /** The receiver rebuilds the pseudo header in place; a checksum of 0 is not compared. */
  predicate UdpSumAccepted(packet: seq<u8>, garbage: u8)
    requires |packet| >= 28
  {
    var check := WordOf(packet[26], packet[27]);
    var rebuilt := PseudoHeader(packet[24..26], packet[12..20]) + (packet[20..26] + [0, 0] + packet[28..]);
    check == 0 || check == CheckSumOf(WordsOf(rebuilt, garbage))
  }

  /**
   What the client puts on the wire passes the client's own IP check, and passes its UDP check
   exactly if the sent part has even length, the stray octet is 0, or the checksum came out as 0.
   */
  lemma SentPacketIsAccepted(ports: seq<u8>, length: seq<u8>, total: seq<u8>, addresses: seq<u8>,
                             body: seq<u8>, tail: seq<u8>, garbage: u8)
    requires |ports| == 4 && |length| == 2 && |total| == 2 && |addresses| == 8
    requires forall i :: 0 <= i < |tail| ==> tail[i] == 0
    requires (|body| + |tail|) % 2 == 0
    ensures var packet := SentPacket(ports, length, total, addresses, body, tail);
            IpSumAccepted(packet) &&
            (UdpSumAccepted(packet, garbage) <==>
             |body| % 2 == 0 || garbage == 0 || (packet[26] == 0 && packet[27] == 0))
  {
    hide WordsOf, OcSum;
    var packet := SentPacket(ports, length, total, addresses, body, tail);
    var summed := PseudoHeader(length, addresses) + (ports + length + [0, 0] + body);
    SenderAndReceiverAgree(summed, tail, garbage);
    var udp := Stored(CheckSumOf(WordsOf(summed + tail, 0)));
    var ip := Stored(CheckSumOf(WordsOf(IpHeader(total, [0, 0], addresses), 0)));
    assert packet == IpHeader(total, ip, addresses) + (ports + length + udp + body);
    assert packet[..20][10 := 0][11 := 0] == IpHeader(total, [0, 0], addresses);
    assert packet[10..12] == ip && packet[26..28] == udp;
    assert packet[10] == ip[0] && packet[11] == ip[1] && packet[26] == udp[0] && packet[27] == udp[1];
    assert packet[24..26] == length && packet[12..20] == addresses;
    assert packet[20..26] == ports + length && packet[28..] == body;
    assert ports + length + [0, 0] + body == packet[20..26] + [0, 0] + packet[28..];
  }
}
