/**
 The options area of a message: how the client writes it, how the client reads it back
 (with option overload, section 9.3 of RFC 2132), and how the server walks the same bytes.
 */
module OptionCodec {
  import opened Words
  import opened OptionList

  const PAD_OPTION: u8 := 0
  const TIME_OFFSET_OPTION: u8 := 2
  const OPTION_OVERLOAD_OPTION: u8 := 52
  const END_OPTION: u8 := 255

  const DHCP_OPT_SIZE: nat := 1780
  const DHCP_BOOT_FILE_LENGTH: nat := 128
  const DHCP_HOST_NAME_LENGTH: nat := 64

  // ----- Areas and what they hold -----

  predicate Real(o: Opt) {
    o.code != PAD_OPTION && o.code != END_OPTION && |o.data| <= 255
  }

  /** A pad octet, kept in the list of options as one without length and data. */
  const PAD := Opt(PAD_OPTION, [])

  predicate AllItems(opts: seq<Opt>) {
    forall i :: 0 <= i < |opts| ==> Real(opts[i]) || opts[i] == PAD
  }

  predicate NoPads(opts: seq<Opt>) {
    forall i :: 0 <= i < |opts| ==> Real(opts[i])
  }

  function OneOption(o: Opt): seq<u8>
    requires Real(o) || o == PAD
  {
    if o == PAD then [PAD_OPTION] else [o.code, |o.data|] + o.data
  }

  /** The octets of a list of options, one after the other. */
  function Encode(opts: seq<Opt>): seq<u8>
    requires AllItems(opts)
  {
    if opts == [] then [] else Encode(opts[..|opts| - 1]) + OneOption(opts[|opts| - 1])
  }

  /** An area that holds these options: their octets, the end mark, and whatever follows. */
  ghost predicate Holds(area: seq<u8>, opts: seq<Opt>) {
    AllItems(opts) && |Encode(opts)| < |area| && Encode(opts) + [END_OPTION] <= area
  }

  lemma {:induction false} EncodeSnoc(opts: seq<Opt>, o: Opt)
    requires AllItems(opts) && (Real(o) || o == PAD)
    ensures AllItems(opts + [o]) && Encode(opts + [o]) == Encode(opts) + OneOption(o)
  {
    assert (opts + [o])[..|opts|] == opts;
  }

  lemma {:induction false} EncodePrefix(opts: seq<Opt>, k: nat)
    requires AllItems(opts) && k <= |opts|
    ensures Encode(opts[..k]) <= Encode(opts)
    decreases |opts|
  {
    if k == |opts| {
      assert opts[..k] == opts;
    } else {
      var front := opts[..|opts| - 1];
      EncodePrefix(front, k);
      assert front[..k] == opts[..k];
    }
  }

  /** In an area, option `k` stands where the earlier ones end, and the end mark after the last. */
  lemma OptionAt(area: seq<u8>, opts: seq<Opt>, k: nat)
    requires Holds(area, opts) && k <= |opts|
    ensures var i := |Encode(opts[..k])|;
            && i < |area|
            && (k == |opts| ==> area[i] == END_OPTION)
            && (k < |opts| && opts[k] == PAD ==>
                  area[i] == PAD_OPTION && i + 1 == |Encode(opts[..k + 1])| && i + 1 < |area|)
            && (k < |opts| && opts[k] != PAD ==>
                  && i + 2 + |opts[k].data| == |Encode(opts[..k + 1])|
                  && i + 2 + |opts[k].data| < |area|
                  && area[i] == opts[k].code && area[i + 1] == |opts[k].data|
                  && area[i + 2..i + 2 + |opts[k].data|] == opts[k].data)
  {
    hide Encode;
    EncodePrefix(opts, k);
    var i := |Encode(opts[..k])|;
    assert (Encode(opts) + [END_OPTION])[|Encode(opts)|] == END_OPTION;
    if k == |opts| {
      assert opts[..k] == opts;
    } else {
      EncodePrefix(opts, k + 1);
      assert opts[..k + 1] == opts[..k] + [opts[k]];
      EncodeSnoc(opts[..k], opts[k]);
      PartOfPrefix(area, Encode(opts[..k]), OneOption(opts[k]));
    }
  }

  lemma PartOfPrefix(area: seq<u8>, front: seq<u8>, part: seq<u8>)
    requires front + part <= area
    ensures forall j :: 0 <= j < |part| ==> area[|front| + j] == part[j]
    ensures forall j :: 0 <= j <= |part| ==> area[|front| + j..|front| + |part|] == part[j..]
  {
    assert forall j :: 0 <= j < |part| ==> (front + part)[|front| + j] == part[j];
  }

  lemma SubSlice(s: seq<u8>, a: nat, n: nat, i: nat, j: nat)
    requires i <= j <= n && a + n <= |s|
    ensures s[a..a + n][i..j] == s[a + i..a + j]
  {
    var part := s[a..a + n][i..j];
    assert |part| == j - i;
    assert forall k :: 0 <= k < j - i ==> part[k] == s[a + i..a + j][k];
  }

  // ----- The client's reader -----

  datatype Field = OptionsField | FileField | SnameField

  /** The three places of a packet where options may stand. */
  datatype Areas = Areas(options: seq<u8>, file: seq<u8>, sname: seq<u8>)

  predicate RightSizes(p: Areas) {
    |p.options| == DHCP_OPT_SIZE && |p.file| == DHCP_BOOT_FILE_LENGTH && |p.sname| == DHCP_HOST_NAME_LENGTH
  }

  function AreaOf(p: Areas, f: Field): seq<u8> {
    match f
    case OptionsField => p.options
    case FileField => p.file
    case SnameField => p.sname
  }

  function FieldsLeft(f: Field): nat {
    match f
    case OptionsField => 2
    case FileField => 1
    case SnameField => 0
  }

  datatype Lookup = NotFound | Found(field: Field, offset: nat, length: nat)

  predicate FileOverloaded(over: u8) {
    over % 2 == 1
  }

  predicate SnameOverloaded(over: u8) {
    over / 2 % 2 == 1
  }

  /** The search from octet `index` of a field, with the overload octet seen so far. */
  function Search(p: Areas, code: u8, f: Field, index: nat, over: u8): Lookup
    decreases FieldsLeft(f), |AreaOf(p, f)| - index
  {
    var area := AreaOf(p, f);
    if index + 2 >= |area| then NotFound
    else if area[index] == code then
      if index + 1 + area[index + 1] >= |area| then NotFound else Found(f, index + 2, area[index + 1])
    else if area[index] == PAD_OPTION then Search(p, code, f, index + 1, over)
    else if area[index] == OPTION_OVERLOAD_OPTION then
      if index + 1 + area[index + 1] >= |area| then NotFound
      else Search(p, code, f, index + area[1] + 2, area[index + 2])
    else if area[index] == END_OPTION then
      if f == OptionsField && FileOverloaded(over) then Search(p, code, FileField, 0, over)
      else if f == FileField && SnameOverloaded(over) then Search(p, code, SnameField, 0, over)
      else NotFound
    else Search(p, code, f, index + 2 + area[index + 1], over)
  }

  /** The loop of the reader: it ends on every packet, and agrees with the search. */
  method GetDhcpOption(p: Areas, code: u8) returns (r: Lookup)
    requires RightSizes(p)
    ensures r == Search(p, code, OptionsField, 0, 0)
    ensures r.Found? ==>
              && r.offset + r.length <= |AreaOf(p, r.field)|
              && 2 <= r.offset && AreaOf(p, r.field)[r.offset - 2] == code
              && AreaOf(p, r.field)[r.offset - 1] == r.length
  {
    var field, over := OptionsField, 0;
    var index: nat := 0;
    var pOption := p.options;
    while true
      invariant pOption == AreaOf(p, field) && 0 <= over < 256
      invariant Search(p, code, OptionsField, 0, 0) == Search(p, code, field, index, over)
      decreases FieldsLeft(field), |pOption| - index
    {
      if index + 2 >= |pOption| {
        return NotFound;
      }
      if pOption[index] == code {
        if index + 1 + pOption[index + 1] >= |pOption| {
          return NotFound;
        }
        return Found(field, index + 2, pOption[index + 1]);
      }
      if pOption[index] == PAD_OPTION {
        index := index + 1;
      } else if pOption[index] == OPTION_OVERLOAD_OPTION {
        if index + 1 + pOption[index + 1] >= |pOption| {
          return NotFound;
        }
        over := pOption[index + 2];
        index := index + pOption[1] + 2;
      } else if pOption[index] == END_OPTION {
        if field == OptionsField && FileOverloaded(over) {
          pOption, index, field := p.file, 0, FileField;
        } else if field == FileField && SnameOverloaded(over) {
          pOption, index, field := p.sname, 0, SnameField;
        } else {
          return NotFound;
        }
      } else {
        index := index + 2 + pOption[index + 1];
      }
    }
  }

  /** What is found lies wholly inside one field, after the code asked for and its own length. */
  predicate Inside(p: Areas, code: u8, r: Lookup) {
    r.Found? ==>
      && r.offset + r.length <= |AreaOf(p, r.field)|
      && 2 <= r.offset && AreaOf(p, r.field)[r.offset - 2] == code
      && AreaOf(p, r.field)[r.offset - 1] == r.length
  }

  lemma {:induction false} FoundHere(p: Areas, code: u8, f: Field, index: nat, over: u8)
    requires index + 2 >= |AreaOf(p, f)| || AreaOf(p, f)[index] == code
    ensures Inside(p, code, Search(p, code, f, index, over))
  {
  }

  /** This holds on any octets whatever, from any place in any field. */
  lemma {:induction false} SearchStaysInside(p: Areas, code: u8, f: Field, index: nat, over: u8)
    ensures Inside(p, code, Search(p, code, f, index, over))
    decreases FieldsLeft(f), |AreaOf(p, f)| - index
  {
    var area := AreaOf(p, f);
    assert Inside(p, code, NotFound);
    hide Inside, FileOverloaded, SnameOverloaded;
    if index + 2 >= |area| || area[index] == code {
      FoundHere(p, code, f, index, over);
    } else if area[index] == PAD_OPTION {
      SearchStaysInside(p, code, f, index + 1, over);
    } else if area[index] == OPTION_OVERLOAD_OPTION {
      if index + 1 + area[index + 1] < |area| {
        SearchStaysInside(p, code, f, index + area[1] + 2, area[index + 2]);
      }
    } else if area[index] == END_OPTION {
      if f == OptionsField && FileOverloaded(over) {
        SearchStaysInside(p, code, FileField, 0, over);
      } else if f == FileField && SnameOverloaded(over) {
        SearchStaysInside(p, code, SnameField, 0, over);
      }
    } else {
      SearchStaysInside(p, code, f, index + 2 + area[index + 1], over);
    }
  }

  predicate NoOverload(opts: seq<Opt>) {
    forall i :: 0 <= i < |opts| ==> opts[i].code != OPTION_OVERLOAD_OPTION
  }

  /** Where the data of option `k` stands in the area. */
  function DataOffset(opts: seq<Opt>, k: nat): nat
    requires AllItems(opts) && k < |opts|
  {
    |Encode(opts[..k])| + 2
  }

  /** What the reader does at the end mark of the options field. */
  function AtEnd(p: Areas, code: u8, end: nat, over: u8): Lookup {
    if end + 2 < |p.options| && FileOverloaded(over) then Search(p, code, FileField, 0, over) else NotFound
  }

  /** The overload octet in force after the first `k` options, 0 if there was none. */
  function OverAfter(opts: seq<Opt>, k: nat): u8
    requires k <= |opts|
  {
    if k == 0 then 0
    else if opts[k - 1].code == OPTION_OVERLOAD_OPTION && opts[k - 1].data != [] then opts[k - 1].data[0]
    else OverAfter(opts, k - 1)
  }

  /**
   The reader steps over an overload option by the second octet of the area, which is the length
   of the first option, and so comes to the next option if both carry one octet.
   */
  predicate StepsOver(p: Areas, o: Opt) {
    o.code == OPTION_OVERLOAD_OPTION ==> |o.data| == 1 && |p.options| > 1 && p.options[1] == 1
  }

  /** From option `k` on the reader goes to the first match, or to the end, if it steps over what is between. */
  lemma {:induction false} SearchFrom(p: Areas, opts: seq<Opt>, code: u8, k: nat, i: nat)
    requires Holds(p.options, opts) && code != PAD_OPTION && code != END_OPTION
    requires k <= i <= |opts| && (i < |opts| ==> opts[i].code == code)
    requires forall j :: k <= j < i ==> opts[j].code != code && StepsOver(p, opts[j])
    ensures Search(p, code, OptionsField, |Encode(opts[..k])|, OverAfter(opts, k)) ==
              if i < |opts| then Found(OptionsField, DataOffset(opts, i), |opts[i].data|)
              else AtEnd(p, code, |Encode(opts)|, OverAfter(opts, |opts|))
    decreases |opts| - k
  {
    hide Encode;
    OptionAt(p.options, opts, k);
    if k < i {
      SearchFrom(p, opts, code, k + 1, i);
      if opts[k].code == OPTION_OVERLOAD_OPTION {
        var at := |Encode(opts[..k])|;
        assert p.options[at + 2] == p.options[at + 2..at + 3][0];
      }
    } else if k == |opts| {
      assert opts[..k] == opts;
    }
  }

  /** The search from the start finds the first option with the code. */
  predicate FindsFirst(p: Areas, opts: seq<Opt>, code: u8) {
    var i, r := FirstIndex(opts, code), Search(p, code, OptionsField, 0, 0);
    i < |opts| && r.Found? && r.field == OptionsField && r.offset + r.length <= |p.options|
    && p.options[r.offset..r.offset + r.length] == opts[i].data
  }

  lemma {:induction false} SearchFromStart(p: Areas, opts: seq<Opt>, code: u8)
    requires Holds(p.options, opts) && code != PAD_OPTION && code != END_OPTION
    requires forall j :: 0 <= j < |opts| ==> StepsOver(p, opts[j])
    ensures if FirstIndex(opts, code) < |opts| then FindsFirst(p, opts, code)
            else Search(p, code, OptionsField, 0, 0) == AtEnd(p, code, |Encode(opts)|, OverAfter(opts, |opts|))
  {
    hide Search, Encode, StepsOver, AtEnd;
    var i := FirstIndex(opts, code);
    SearchFrom(p, opts, code, 0, i);
    EncodeNothing();
    assert opts[..0] == [];
    OptionAt(p.options, opts, i);
  }

  /**
   On an area that holds a list of options without overload, the reader returns exactly the
   first option with the code asked for, and nothing if there is none.
   */
  lemma {:induction false} ReaderFindsFirst(p: Areas, opts: seq<Opt>, code: u8)
    requires Holds(p.options, opts) && NoOverload(opts)
    requires code != PAD_OPTION && code != END_OPTION
    ensures if FirstIndex(opts, code) < |opts| then FindsFirst(p, opts, code)
            else Search(p, code, OptionsField, 0, 0) == NotFound
  {
    hide Search, Encode, FindsFirst;
    SearchFromStart(p, opts, code);
    NothingInForce(opts, |opts|);
  }

  lemma {:induction false} NothingInForce(opts: seq<Opt>, k: nat)
    requires NoOverload(opts) && k <= |opts|
    ensures OverAfter(opts, k) == 0
  {
    if k > 0 {
      NothingInForce(opts, k - 1);
    }
  }

  /**
   Overload options anywhere, each of one octet, behind a first option of one octet, such as the
   message type: the reader still finds the first option with the code, and looks for one that is
   not in the options field in the file field exactly if bit 0 of the last overload octet is set.
   Value 2, which section 9.3 of RFC 2132 gives to the server name field alone, leads nowhere.
   */
  lemma {:induction false} OverloadLeadsToFile(p: Areas, opts: seq<Opt>, code: u8)
    requires Holds(p.options, opts) && code != PAD_OPTION && code != END_OPTION
    requires |p.options| > 1 && p.options[1] == 1
    requires forall j :: 0 <= j < |opts| && opts[j].code == OPTION_OVERLOAD_OPTION ==> |opts[j].data| == 1
    ensures var over, r := OverAfter(opts, |opts|), Search(p, code, OptionsField, 0, 0);
            if FirstIndex(opts, code) < |opts| then FindsFirst(p, opts, code)
            else if |Encode(opts)| + 2 < |p.options| && FileOverloaded(over)
            then r == Search(p, code, FileField, 0, over)
            else r == NotFound
    ensures FirstIndex(opts, code) == |opts| && OverAfter(opts, |opts|) == 2 ==>
              Search(p, code, OptionsField, 0, 0) == NotFound
  {
    hide Search, Encode, FindsFirst, OverAfter;
    SearchFromStart(p, opts, code);
  }

  // ----- When an overload option hides what follows it -----

  /** An area whose first option carries `n` octets, followed by an overload option and a lease time. */
  function Shadowed(n: nat): seq<Opt> {
    [Opt(53, seq(n, _ => 9)), Opt(OPTION_OVERLOAD_OPTION, [2]), Opt(51, [7])]
  }

  function ShadowedArea(n: nat): (area: seq<u8>)
    requires n <= 255
    ensures |area| == DHCP_OPT_SIZE
    ensures area[0] == 53 && area[1] == n && area[n + 2] == OPTION_OVERLOAD_OPTION && area[n + 3] == 1
    ensures area[n + 4] == 2 && area[n + 5] == 51 && area[n + 6] == 1 && area[n + 7] == 7 && area[n + 8] == END_OPTION
    ensures forall j :: n + 9 <= j < |area| ==> area[j] == PAD_OPTION
  {
    var first: seq<u8> := [53, n] + seq(n, _ => 9);
    first + [OPTION_OVERLOAD_OPTION, 1, 2] + [51, 1, 7] + [END_OPTION] + seq(DHCP_OPT_SIZE - n - 9, _ => PAD_OPTION)
  }

  lemma ShadowedHolds(n: nat)
    requires n <= 255
    ensures Holds(ShadowedArea(n), Shadowed(n))
  {
    hide Encode;
    var o := Shadowed(n);
    EncodeNothing();
    EncodeSnoc([], o[0]);
    EncodeSnoc([o[0]], o[1]);
    EncodeSnoc([o[0], o[1]], o[2]);
    assert [] + [o[0]] == [o[0]] && [o[0]] + [o[1]] == [o[0], o[1]] && [o[0], o[1]] + [o[2]] == o;
    assert Encode(o) == [] + OneOption(o[0]) + OneOption(o[1]) + OneOption(o[2]);
    assert [] + OneOption(o[0]) == [53, n] + seq(n, _ => 9);
  }

  lemma {:induction false} PadsHoldNothing(p: Areas, code: u8, k: nat, over: u8)
    requires code != PAD_OPTION && forall j :: k <= j < |p.options| ==> p.options[j] == PAD_OPTION
    ensures Search(p, code, OptionsField, k, over) == NotFound
    decreases |p.options| - k
  {
    if k < |p.options| {
      PadsHoldNothing(p, code, k + 1, over);
    }
  }

  /** From the overload option the reader jumps to a place that depends on `n`, past the lease time unless `n` is 1. */
  lemma {:induction false} ShadowedIsMissed(n: nat, p: Areas)
    requires n <= 255 && n != 1 && p.options == ShadowedArea(n)
    ensures Search(p, 51, OptionsField, 0, 0) == NotFound
  {
    hide ShadowedArea;
    var jump := 2 * n + 4;
    assert Search(p, 51, OptionsField, 0, 0) == Search(p, 51, OptionsField, n + 2, 0);
    assert Search(p, 51, OptionsField, n + 2, 0) == Search(p, 51, OptionsField, jump, 2);
    if n == 0 {
      PadsHoldNothing(p, 51, 57, 2);
    } else if n == 2 {
      PadsHoldNothing(p, 51, 17, 2);
    } else if n == 3 {
      PadsHoldNothing(p, 51, 267, 2);
    } else if n >= 5 {
      PadsHoldNothing(p, 51, jump, 2);
    }
  }

  /** Every option of every well-formed area with a first option of `n` octets is found. */
  ghost predicate FindsPastOverload(n: nat) {
    forall p: Areas, opts: seq<Opt>, code: u8 |
      && RightSizes(p) && Holds(p.options, opts) && |opts| > 0 && Real(opts[0]) && |opts[0].data| == n
      && (forall j :: 0 <= j < |opts| && opts[j].code == OPTION_OVERLOAD_OPTION ==> |opts[j].data| == 1)
      && code != PAD_OPTION && code != END_OPTION && FirstIndex(opts, code) < |opts| ::
      FindsFirst(p, opts, code)
  }

  /** With overload options about, the reader finds what is there if and only if the first option carries one octet. */
  lemma OverloadIsReadIff(n: nat)
    requires n <= 255
    ensures FindsPastOverload(n) <==> n == 1
  {
    hide Search, Encode, ShadowedArea;
    if n == 1 {
      forall p: Areas, opts: seq<Opt>, code: u8 |
        && RightSizes(p) && Holds(p.options, opts) && |opts| > 0 && Real(opts[0]) && |opts[0].data| == n
        && (forall j :: 0 <= j < |opts| && opts[j].code == OPTION_OVERLOAD_OPTION ==> |opts[j].data| == 1)
        && code != PAD_OPTION && code != END_OPTION && FirstIndex(opts, code) < |opts|
        ensures FindsFirst(p, opts, code)
      {
        OptionAt(p.options, opts, 0);
        assert opts[..0] == [] && |Encode([])| == 0 by { EncodeNothing(); }
        OverloadLeadsToFile(p, opts, code);
      }
    } else {
      var p := Areas(ShadowedArea(n), seq(DHCP_BOOT_FILE_LENGTH, _ => 0), seq(DHCP_HOST_NAME_LENGTH, _ => 0));
      ShadowedHolds(n);
      ShadowedIsMissed(n, p);
      assert Shadowed(n)[2].code == 51;
      assert FirstIndex(Shadowed(n), 51) < 3;
      assert !FindsFirst(p, Shadowed(n), 51);
    }
  }

  /** From the file field the reader goes on to the server name field exactly if bit 1 is set as well. */
  lemma {:induction false} FileLeadsToSname(p: Areas, opts: seq<Opt>, over: u8, code: u8)
    requires Holds(p.file, opts) && |Encode(opts)| + 2 < |p.file|
    requires forall j :: 0 <= j < |opts| ==> opts[j].code != OPTION_OVERLOAD_OPTION && opts[j].code != code
    requires code != PAD_OPTION && code != END_OPTION
    ensures Search(p, code, FileField, 0, over) ==
            if SnameOverloaded(over) then Search(p, code, SnameField, 0, over) else NotFound
  {
    FileFrom(p, opts, over, code, 0);
    assert opts[..0] == [];
  }

  lemma {:induction false} FileFrom(p: Areas, opts: seq<Opt>, over: u8, code: u8, k: nat)
    requires Holds(p.file, opts) && |Encode(opts)| + 2 < |p.file| && k <= |opts|
    requires forall j :: 0 <= j < |opts| ==> opts[j].code != OPTION_OVERLOAD_OPTION && opts[j].code != code
    requires code != PAD_OPTION && code != END_OPTION
    ensures Search(p, code, FileField, |Encode(opts[..k])|, over) ==
            if SnameOverloaded(over) then Search(p, code, SnameField, 0, over) else NotFound
    decreases |opts| - k
  {
    hide Encode;
    OptionAt(p.file, opts, k);
    if k < |opts| {
      EncodePrefix(opts, k + 1);
      FileFrom(p, opts, over, code, k + 1);
    } else {
      assert opts[..k] == opts;
    }
  }

  // ----- The client's writer -----

  /** Stepping from option to option from octet `i` on comes to an end mark inside the area. */
  predicate EndIsMet(area: seq<u8>, i: nat)
    decreases |area| - i
  {
    && i < |area|
    && (|| area[i] == END_OPTION
        || (area[i] == PAD_OPTION && EndIsMet(area, i + 1))
        || (area[i] != PAD_OPTION && i + 1 < |area| && EndIsMet(area, i + 2 + area[i + 1])))
  }

  lemma {:induction false} HeldEndIsMet(area: seq<u8>, opts: seq<Opt>, k: nat)
    requires Holds(area, opts) && k <= |opts|
    ensures EndIsMet(area, |Encode(opts[..k])|)
    decreases |opts| - k
  {
    hide Encode;
    OptionAt(area, opts, k);
    if k < |opts| {
      HeldEndIsMet(area, opts, k + 1);
    }
  }

  lemma {:induction false} Collected(area: seq<u8>, front: seq<Opt>) returns (opts: seq<Opt>)
    requires AllItems(front) && Encode(front) <= area && EndIsMet(area, |Encode(front)|)
    ensures Holds(area, opts)
    decreases |area| - |Encode(front)|
  {
    hide Encode, Holds;
    var i := |Encode(front)|;
    if area[i] == END_OPTION {
      opts := front;
      Extended(area, Encode(front), [END_OPTION]);
      HeldList(area, front);
    } else {
      var o := NextItem(area, i);
      EncodeSnoc(front, o);
      Extended(area, Encode(front), OneOption(o));
      hide AllItems, NextItem;
      opts := Collected(area, front + [o]);
    }
  }

  /** The item that starts at octet `i`. */
  function NextItem(area: seq<u8>, i: nat): (o: Opt)
    requires EndIsMet(area, i) && area[i] != END_OPTION
    ensures Real(o) || o == PAD
    ensures i + |OneOption(o)| <= |area| && area[i..i + |OneOption(o)|] == OneOption(o)
    ensures EndIsMet(area, i + |OneOption(o)|)
  {
    if area[i] == PAD_OPTION then PAD
    else
      var len := area[i + 1];
      assert EndIsMet(area, i + 2 + len);
      assert area[i..i + 2 + len] == [area[i], len] + area[i + 2..i + 2 + len];
      Opt(area[i], area[i + 2..i + 2 + len])
  }

  lemma Extended(area: seq<u8>, front: seq<u8>, part: seq<u8>)
    requires front <= area && |front| + |part| <= |area| && area[|front|..|front| + |part|] == part
    ensures front + part <= area
  {
    assert area[..|front| + |part|] == area[..|front|] + part;
  }

  lemma HeldList(area: seq<u8>, opts: seq<Opt>)
    requires AllItems(opts) && Encode(opts) + [END_OPTION] <= area
    ensures Holds(area, opts)
  {
    hide Encode;
  }

  /** An area holds a list of options exactly if the loop that looks for its end mark stays inside it. */
  lemma HoldsIffEndIsMet(area: seq<u8>)
    ensures EndIsMet(area, 0) <==> exists opts :: Holds(area, opts)
  {
    EncodeNothing();
    hide EndIsMet, Encode;
    if EndIsMet(area, 0) {
      var opts := Collected(area, []);
    }
    forall opts | Holds(area, opts)
      ensures EndIsMet(area, 0)
    {
      HeldEndIsMet(area, opts, 0);
      assert opts[..0] == [];
    }
  }

  /** Where the next option goes: past everything the area holds. */
  method GetEndOptionIndex(a: array<u8>, ghost opts: seq<Opt>) returns (end: nat)
    requires Holds(a[..], opts)
    ensures end == |Encode(opts)|
  {
    hide Encode;
    end := 0;
    ghost var k := 0;
    OptionAt(a[..], opts, 0);
    assert opts[..0] == [] && |Encode([])| == 0 by { EncodeNothing(); }
    while a[end] != END_OPTION
      invariant k <= |opts| && end == |Encode(opts[..k])| && end < a.Length
      invariant k == |opts| ==> a[end] == END_OPTION
      invariant k < |opts| ==> a[end] == opts[k].code && end + 1 < a.Length
      decreases |opts| - k
    {
      OptionAt(a[..], opts, k);
      if a[end] != PAD_OPTION {
        end := end + a[end + 1] + 2;
      } else {
        end := end + 1;
      }
      k := k + 1;
      OptionAt(a[..], opts, k);
    }
    assert opts[..|opts|] == opts;
  }

  lemma EncodeNothing()
    ensures Encode([]) == []
  {
  }

  lemma {:induction false} HoldsPrefix(area: seq<u8>, opts: seq<Opt>)
    requires Holds(area, opts)
    ensures area[..|Encode(opts)|] == Encode(opts)
  {
    hide Encode;
    assert (Encode(opts) + [END_OPTION])[..|Encode(opts)|] == Encode(opts);
  }

  lemma {:induction false} WrittenHolds(before: seq<u8>, after: seq<u8>, opts: seq<Opt>, o: Opt)
    requires Holds(before, opts) && Real(o) && |after| == |before|
    requires var end, n := |Encode(opts)|, 2 + |o.data|;
             && end + n + 1 < |after|
             && after[..end] == before[..end] && after[end..end + n] == [o.code, |o.data|] + o.data
             && after[end + n] == END_OPTION
    ensures Holds(after, opts + [o])
  {
    hide Encode;
    HoldsPrefix(before, opts);
    EncodeSnoc(opts, o);
    AfterThree(after, Encode(opts), OneOption(o));
  }

  lemma AfterThree(s: seq<u8>, a: seq<u8>, b: seq<u8>)
    requires |a| + |b| < |s| && s[..|a|] == a && s[|a|..|a| + |b|] == b && s[|a| + |b|] == END_OPTION
    ensures a + b + [END_OPTION] <= s
  {
    assert s[..|a| + |b|] == a + b;
    assert s[..|a| + |b| + 1] == a + b + [END_OPTION];
  }

  /**
   Appending one option in place, given with its total length. If the length is right and the
   end mark still fits after it, its octets and the end mark stand where the end mark was, so
   that the area holds a real option more; otherwise nothing is written.
   */
  method AddOptStrToOpts(a: array<u8>, o: Opt, optLen: nat, ghost opts: seq<Opt>) returns (written: nat)
    requires a.Length == DHCP_OPT_SIZE && Holds(a[..], opts) && |o.data| <= 255
    modifies a
    ensures var end, n := |Encode(opts)|, 2 + |o.data|;
            if optLen == n && end + n + 1 < DHCP_OPT_SIZE then
              && written == n
              && a[..] == old(a[..])[..end] + ([o.code, |o.data|] + o.data) + [END_OPTION] + old(a[..])[end + n + 1..]
              && (Real(o) ==> Holds(a[..], opts + [o]))
            else written == 0 && a[..] == old(a[..])
  {
    hide Encode;
    var n := 2 + |o.data|;
    if optLen != n {
      return 0;
    }
    var end := GetEndOptionIndex(a, opts);
    if end + n + 1 >= DHCP_OPT_SIZE {
      return 0;
    }
    ghost var before := a[..];
    var bytes := [o.code, |o.data|] + o.data;
    CopyOctets(a, end, bytes);
    a[end + n] := END_OPTION;
    ghost var after := a[..];
    assert after[..end] == before[..end] && after[end..end + n] == bytes;
    assert after[end + n + 1..] == before[end + n + 1..];
    hide Holds, AllItems;
    assert after == before[..end] + bytes + [END_OPTION] + before[end + n + 1..];
    if Real(o) {
      WrittenHolds(before, after, opts, o);
    }
    written := n;
  }

  /** `memcpy_s` into the area. */
  method CopyOctets(a: array<u8>, at: nat, bytes: seq<u8>)
    requires at + |bytes| <= a.Length
    modifies a
    ensures a[..at] == old(a[..at]) && a[at..at + |bytes|] == bytes && a[at + |bytes|..] == old(a[at + |bytes|..])
  {
    for i := 0 to |bytes|
      invariant forall j :: 0 <= j < a.Length && !(at <= j < at + i) ==> a[j] == old(a[j])
      invariant forall j :: 0 <= j < i ==> a[at + j] == bytes[j]
    {
      a[at + i] := bytes[i];
    }
  }

  datatype DataType = Invalid | U8 | U16 | U32 | Ip | IpList | Text

  /** The kind of data each known code carries. */
  function GetDhcpOptionCodeType(code: u8): DataType {
    if code in {53, 145} then U8
    else if code in {26, 57} then U16
    else if code == 51 then U32
    else if code in {1, 28, 50, 54} then Ip
    else if code in {3, 6, 42} then IpList
    else if code in {12, 15, 56} then Text
    else Invalid
  }

  function GetDhcpOptionDataLen(code: u8): nat {
    match GetDhcpOptionCodeType(code)
    case U8 => 1
    case U16 => 2
    case U32 => 4
    case Ip => 4
    case _ => 0
  }

  /** The octets of a value: 16-bit numbers in network order, 32-bit ones as they lie in memory. */
  function ValueOctets(len: nat, value: u32): seq<u8>
    requires len in {1, 2, 4}
  {
    if len == 1 then [value % 256]
    else if len == 2 then [value / 256 % 256, value % 256]
    else [Octet(value, 0), Octet(value, 1), Octet(value, 2), Octet(value, 3)]
  }

  method AddOptValueToOpts(a: array<u8>, code: u8, value: u32, ghost opts: seq<Opt>) returns (written: nat)
    requires a.Length == DHCP_OPT_SIZE && Holds(a[..], opts)
    modifies a
    ensures var len := GetDhcpOptionDataLen(code);
            if len == 0 || |Encode(opts)| + len + 3 >= DHCP_OPT_SIZE then written == 0 && a[..] == old(a[..])
            else written == len + 2 && Holds(a[..], opts + [Opt(code, ValueOctets(len, value))])
  {
    hide Encode, Holds, AllItems;
    var len := GetDhcpOptionDataLen(code);
    if len == 0 {
      return 0;
    }
    written := AddOptStrToOpts(a, Opt(code, ValueOctets(len, value)), len + 2, opts);
  }

  // ----- The server's walker -----

  const DHCP_MSG_HEADER_SIZE: nat := 234
  const MAGIC_COOKIE_LENGTH: nat := 4
  const MAGIC_COOKIE: seq<u8> := [0x63, 0x82, 0x53, 0x63]
  const MAX_POS: nat := 253

  datatype Parsed = Refused | Accepted(opts: seq<Opt>)

  /** The walk from octet `cur`, with `pos` counting accepted octets and `acc` the options kept so far. */
  function WalkOptions(mem: seq<u8>, cur: nat, end: nat, pos: nat, acc: seq<Opt>): Parsed
    requires end < |mem|
    decreases end - cur
  {
    if cur >= end then Refused
    else if mem[cur] == END_OPTION then Accepted(acc)
    else
      var len := mem[cur + 1];
      if end - cur - len < 2 then Refused
      else if mem[cur] == PAD_OPTION then WalkOptions(mem, cur + 1, end, pos, acc)
      else if mem[cur] == TIME_OFFSET_OPTION then WalkOptions(mem, cur + 2 + len, end, pos, acc)
      else if pos + 2 + len >= MAX_POS then Refused
      else
        var o := Opt(mem[cur], mem[cur + 2..cur + 2 + len]);
        WalkOptions(mem, cur + 2 + len, end, pos + 2 + len, if len == 0 then acc else acc + [o])
  }

  /** The server's view of a message: `mem` is its memory from the options field on. */
  function ServerParses(mem: seq<u8>, length: nat): Parsed
    requires length >= DHCP_MSG_HEADER_SIZE && length - DHCP_MSG_HEADER_SIZE < |mem|
  {
    if length < DHCP_MSG_HEADER_SIZE + MAGIC_COOKIE_LENGTH || mem[..4] != MAGIC_COOKIE then Refused
    else WalkOptions(mem, 4, length - DHCP_MSG_HEADER_SIZE, 8, [])
  }

  /** One turn of the walk, whatever the octets are. */
  lemma WalkTurn(mem: seq<u8>, cur: nat, end: nat, pos: nat, acc: seq<Opt>)
    requires cur < end < |mem|
    ensures WalkOptions(mem, cur, end, pos, acc) ==
            if mem[cur] == END_OPTION then Accepted(acc)
            else if end - cur - mem[cur + 1] < 2 then Refused
            else if mem[cur] == PAD_OPTION then WalkOptions(mem, cur + 1, end, pos, acc)
            else
              var next := cur + 2 + mem[cur + 1];
              if mem[cur] == TIME_OFFSET_OPTION then WalkOptions(mem, next, end, pos, acc)
              else if pos + 2 + mem[cur + 1] >= MAX_POS then Refused
              else
                WalkOptions(mem, next, end, pos + 2 + mem[cur + 1],
                            if mem[cur + 1] == 0 then acc else acc + [Opt(mem[cur], mem[cur + 2..next])])
  {
  }

  lemma {:induction false} WalkedOut(mem: seq<u8>, cur: nat, end: nat, pos: nat, acc: seq<Opt>)
    requires end < |mem| && cur >= end
    ensures WalkOptions(mem, cur, end, pos, acc) == Refused
  {
  }

  /** The walking loop, pushing what it keeps onto the option list of the message. */
  method ParseMessageOptions(mem: seq<u8>, length: nat, list: List) returns (ok: bool)
    requires length >= DHCP_MSG_HEADER_SIZE && length - DHCP_MSG_HEADER_SIZE < |mem|
    requires list.Valid() && list.Contents() == []
    modifies list, list.nodes
    ensures list.Valid()
    ensures ok == ServerParses(mem, length).Accepted?
    ensures ok ==> list.Contents() == ServerParses(mem, length).opts
  {
    if length < DHCP_MSG_HEADER_SIZE + MAGIC_COOKIE_LENGTH || mem[..4] != MAGIC_COOKIE {
      return false;
    }
    ghost var all := ServerParses(mem, length);
    hide WalkOptions, ServerParses;
    var end := length - DHCP_MSG_HEADER_SIZE;
    var cur: nat, pos: nat := 4, 8;
    while cur < end && mem[cur] != END_OPTION
      invariant list.Valid() && fresh(set n | n in list.nodes && n !in old(list.nodes))
      invariant all == WalkOptions(mem, cur, end, pos, list.Contents())
      decreases end - cur
    {
      WalkTurn(mem, cur, end, pos, list.Contents());
      var len := mem[cur + 1];
      if end - cur - len < 2 {
        return false;
      }
      if mem[cur] == PAD_OPTION {
        cur := cur + 1;
        continue;
      }
      if mem[cur] == TIME_OFFSET_OPTION {
        cur := cur + 2 + len;
        continue;
      }
      pos := pos + 2 + len;
      if pos >= MAX_POS {
        return false;
      }
      var _ := list.PushBackOption(Opt(mem[cur], mem[cur + 2..cur + 2 + len]));
      cur := cur + 2 + len;
    }
    ok := cur < end;
    if ok {
      WalkTurn(mem, cur, end, pos, list.Contents());
    } else {
      WalkedOut(mem, cur, end, pos, list.Contents());
    }
  }

  // ----- Client to server -----

  /** The options the server keeps: those with data, other than the time offset. */
  function Kept(opts: seq<Opt>): seq<Opt> {
    if opts == [] then []
    else
      var o := opts[|opts| - 1];
      Kept(opts[..|opts| - 1]) + if o.data == [] || o.code == TIME_OFFSET_OPTION then [] else [o]
  }

  /** The octets the server counts against its limit. */
  function Cost(opts: seq<Opt>): nat {
    if opts == [] then 0
    else
      var o := opts[|opts| - 1];
      Cost(opts[..|opts| - 1]) + if o.code == TIME_OFFSET_OPTION then 0 else 2 + |o.data|
  }

  lemma {:induction false} CostMonotone(opts: seq<Opt>, k: nat)
    requires k <= |opts|
    ensures Cost(opts[..k]) <= Cost(opts)
    decreases |opts|
  {
    if k == |opts| {
      assert opts[..k] == opts;
    } else {
      CostMonotone(opts[..|opts| - 1], k);
      assert opts[..|opts| - 1][..k] == opts[..k];
    }
  }

  /** One turn of the walk over a real option. */
  lemma WalkOne(mem: seq<u8>, cur: nat, end: nat, pos: nat, acc: seq<Opt>, o: Opt)
    requires end < |mem| && Real(o) && cur + 2 + |o.data| <= end
    requires mem[cur] == o.code && mem[cur + 1] == |o.data| && mem[cur + 2..cur + 2 + |o.data|] == o.data
    ensures var next := cur + 2 + |o.data|;
            WalkOptions(mem, cur, end, pos, acc) ==
              if o.code == TIME_OFFSET_OPTION then WalkOptions(mem, next, end, pos, acc)
              else if pos + 2 + |o.data| >= MAX_POS then Refused
              else WalkOptions(mem, next, end, pos + 2 + |o.data|, if o.data == [] then acc else acc + [o])
  {
  }

  lemma KeptCostSnoc(opts: seq<Opt>, k: nat)
    requires k < |opts|
    ensures var o := opts[k];
            && Cost(opts[..k + 1]) == Cost(opts[..k]) + (if o.code == TIME_OFFSET_OPTION then 0 else 2 + |o.data|)
            && Kept(opts[..k + 1]) ==
               if o.data == [] || o.code == TIME_OFFSET_OPTION then Kept(opts[..k]) else Kept(opts[..k]) + [o]
  {
    assert opts[..k + 1][..k] == opts[..k];
  }

  lemma WalkFrom(mem: seq<u8>, area: seq<u8>, opts: seq<Opt>, end: nat, k: nat)
    requires Holds(area, opts) && NoPads(opts) && end < |mem| && |Encode(opts)| + 5 < end
    requires 4 + |area| <= |mem| && mem[4..4 + |area|] == area
    requires k <= |opts| && Cost(opts[..k]) <= 244
    ensures WalkOptions(mem, 4 + |Encode(opts[..k])|, end, 8 + Cost(opts[..k]), Kept(opts[..k])) ==
            if Cost(opts) <= 244 then Accepted(Kept(opts)) else Refused
    decreases |opts| - k
  {
    hide Encode, Kept, Cost, WalkOptions;
    OptionAt(area, opts, k);
    var i := |Encode(opts[..k])|;
    assert mem[4 + i] == area[i];
    if k == |opts| {
      assert opts[..k] == opts;
      WalkStops(mem, 4 + i, end, 8 + Cost(opts), Kept(opts));
    } else {
      EncodePrefix(opts, k + 1);
      CostMonotone(opts, k + 1);
      KeptCostSnoc(opts, k);
      assert mem[4 + i + 1] == area[i + 1];
      SubSlice(mem, 4, |area|, i + 2, i + 2 + |opts[k].data|);
      WalkOne(mem, 4 + i, end, 8 + Cost(opts[..k]), Kept(opts[..k]), opts[k]);
      if Cost(opts[..k + 1]) <= 244 {
        WalkFrom(mem, area, opts, end, k + 1);
      }
    }
  }

  lemma {:induction false} WalkStops(mem: seq<u8>, cur: nat, end: nat, pos: nat, acc: seq<Opt>)
    requires cur < end < |mem| && mem[cur] == END_OPTION
    ensures WalkOptions(mem, cur, end, pos, acc) == Accepted(acc)
  {
  }

  /**
   Whatever options the client writes, the server reads them back: it accepts the message
   exactly if the options other than the time offset take at most 244 octets, and then its
   list is the client's, in order, without the empty ones and the time offset.
   */
  lemma {:induction false} ServerReadsWhatClientWrote(mem: seq<u8>, area: seq<u8>, opts: seq<Opt>, length: nat)
    requires Holds(area, opts) && NoPads(opts) && length == 236 + 4 + |Encode(opts)| + 2
    requires 4 + |area| <= |mem| && mem[..4] == MAGIC_COOKIE && mem[4..4 + |area|] == area
    requires length - DHCP_MSG_HEADER_SIZE < |mem|
    ensures ServerParses(mem, length) == if Cost(opts) <= 244 then Accepted(Kept(opts)) else Refused
  {
    hide Encode, Cost, Kept, WalkOptions, Holds, NoPads, AllItems, Real;
    NothingWalked();
    assert opts[..0] == [];
    WalkFrom(mem, area, opts, length - DHCP_MSG_HEADER_SIZE, 0);
  }

  lemma NothingWalked()
    ensures Encode([]) == [] && Cost([]) == 0 && Kept([]) == []
  {
  }

  predicate Plain(o: Opt) {
    Real(o) && o.data != [] && o.code != TIME_OFFSET_OPTION && o.code != OPTION_OVERLOAD_OPTION
  }

  lemma {:induction false} KeptPlain(opts: seq<Opt>)
    requires forall i :: 0 <= i < |opts| ==> Plain(opts[i])
    ensures Kept(opts) == opts
  {
    if opts != [] {
      KeptPlain(opts[..|opts| - 1]);
      assert opts == opts[..|opts| - 1] + [opts[|opts| - 1]];
    }
  }

  /**
   For plain options client and server agree, when the server has what the client wrote up to the
   end mark: what the client finds is the server's first option of that code.
   */
  lemma {:induction false} ReadersAgree(p: Areas, mem: seq<u8>, opts: seq<Opt>, length: nat, code: u8)
    requires Holds(p.options, opts) && (forall i :: 0 <= i < |opts| ==> Plain(opts[i])) && Cost(opts) <= 244
    requires length == 236 + 4 + |Encode(opts)| + 2 && length - DHCP_MSG_HEADER_SIZE < |mem|
    requires var n := |Encode(opts)| + 1; mem[..4] == MAGIC_COOKIE && mem[4..4 + n] == p.options[..n]
    requires code != PAD_OPTION && code != END_OPTION
    ensures ServerParses(mem, length) == Accepted(opts)
    ensures if FirstIndex(opts, code) < |opts| then FindsFirst(p, opts, code)
            else Search(p, code, OptionsField, 0, 0) == NotFound
  {
    hide Encode, Search, WalkOptions, Kept, Cost, FindsFirst;
    var n := |Encode(opts)| + 1;
    assert p.options[..n] == Encode(opts) + [END_OPTION];
    ServerReadsWhatClientWrote(mem, p.options[..n], opts, length);
    KeptPlain(opts);
    ReaderFindsFirst(p, opts, code);
  }
}
