/**
 The server's option list: a doubly linked list behind a sentinel node, proved to behave
 as a plain sequence of options.
 */
module OptionList {
  import opened Words

  /** An option: a code and up to 255 octets of data. */
  datatype Opt = Opt(code: u8, data: seq<u8>)

  type ListResult = r: int | r == RET_SUCCESS || r == RET_FAILED witness 0

  const RET_SUCCESS := 0
  const RET_FAILED := 1

  /** Index of the first option with this code, the length of the list if there is none. */
  function FirstIndex(opts: seq<Opt>, code: u8): (k: nat)
    ensures k <= |opts|
    ensures k < |opts| ==> opts[k].code == code
    ensures forall j :: 0 <= j < k ==> opts[j].code != code
  {
    if opts == [] || opts[0].code == code then 0 else 1 + FirstIndex(opts[1..], code)
  }

  lemma {:induction false} FirstIndexUnique(opts: seq<Opt>, code: u8, k: nat)
    requires k <= |opts| && (k < |opts| ==> opts[k].code == code)
    requires forall j :: 0 <= j < k ==> opts[j].code != code
    ensures FirstIndex(opts, code) == k
  {
  }

  /** The list without its first option with this code. */
  function Removed(opts: seq<Opt>, code: u8): seq<Opt> {
    var k := FirstIndex(opts, code);
    if k < |opts| then opts[..k] + opts[k + 1..] else opts
  }

  class Node {
    var previous: Node?
    var next: Node?
    const option: Opt

    constructor (option: Opt)
      ensures this.option == option && previous == null && next == null
    {
      this.option := option;
      previous, next := null, null;
    }
  }

  ghost function Options(nodes: seq<Node>): (r: seq<Opt>)
    ensures |r| == |nodes|
    ensures forall i :: 0 <= i < |nodes| ==> r[i] == nodes[i].option
  {
    seq(|nodes|, i requires 0 <= i < |nodes| => nodes[i].option)
  }

  /** Taking a node out of a chain takes its option out of the list behind the sentinel. */
  lemma OptionsCut(nodes: seq<Node>, k: nat)
    requires 1 <= k < |nodes|
    ensures var all := Options(nodes[1..]);
            Options((nodes[..k] + nodes[k + 1..])[1..]) == all[..k - 1] + all[k..]
  {
    assert (nodes[..k] + nodes[k + 1..])[1..] == nodes[1..k] + nodes[k + 1..];
  }

  class List {
    var first: Node?
    var last: Node?
    var size: nat
    ghost var nodes: seq<Node>

    /** Sentinel first, forward and backward links agree, no node twice, and `size` counts the options. */
    ghost predicate Valid()
      reads this, nodes
    {
      && nodes != [] && first == nodes[0] && last == nodes[|nodes| - 1] && size == |nodes| - 1
      && (forall i, j :: 0 <= i < j < |nodes| ==> nodes[i] != nodes[j])
      && first.previous == null && last.next == null
      && (forall i :: 0 <= i < |nodes| - 1 ==> nodes[i].next == nodes[i + 1])
      && (forall i :: 0 < i < |nodes| ==> nodes[i].previous == nodes[i - 1])
    }

    ghost function Contents(): seq<Opt>
      requires nodes != []
      reads this
    {
      Options(nodes[1..])
    }

    constructor ()
      ensures Valid() && Contents() == [] && fresh(nodes)
    {
      var sentinel := new Node(Opt(0, []));
      first, last, size := sentinel, sentinel, 0;
      nodes := [sentinel];
    }

    /** Appending; an option without data is refused and changes nothing. */
    method PushBackOption(o: Opt) returns (r: ListResult)
      requires Valid()
      modifies this, nodes
      ensures Valid() && fresh(set n | n in nodes && n !in old(nodes))
      ensures r == if o.data == [] then RET_FAILED else RET_SUCCESS
      ensures Contents() == if o.data == [] then old(Contents()) else old(Contents()) + [o]
    {
      if o.data == [] {
        return RET_FAILED;
      }
      var node := new Node(o);
      node.previous := last;
      last.next := node;
      last := node;
      size := size + 1;
      nodes := nodes + [node];
      r := RET_SUCCESS;
    }

    method PushFrontOption(o: Opt) returns (r: ListResult)
      requires Valid()
      modifies this, nodes
      ensures Valid() && fresh(set n | n in nodes && n !in old(nodes))
      ensures r == if o.data == [] then RET_FAILED else RET_SUCCESS
      ensures Contents() == if o.data == [] then old(Contents()) else [o] + old(Contents())
    {
      if o.data == [] {
        return RET_FAILED;
      }
      var node := new Node(o);
      LinkFront(node);
      r := RET_SUCCESS;
    }

    /** Putting a new node behind the sentinel. */
    method LinkFront(node: Node)
      requires Valid() && node !in nodes && node.previous == null && node.next == null
      modifies this, nodes, node
      ensures Valid() && nodes == [old(nodes)[0], node] + old(nodes)[1..]
    {
      if first == last {
        node.previous := first;
        first.next := node;
        last := node;
      } else {
        assert first.next == nodes[1];
        node.next := first.next;
        node.next.previous := node;
        node.previous := first;
        first.next := node;
      }
      size := size + 1;
      nodes := [nodes[0], node] + nodes[1..];
    }

    /** The node of the first option with this code. */
    method GetOptionNode(code: u8) returns (node: Node?)
      requires Valid()
      ensures var k := FirstIndex(Contents(), code);
              node == if k < |Contents()| then nodes[k + 1] else null
    {
      node := first.next;
      ghost var i := 0;
      while node != null && node.option.code != code
        invariant 0 <= i <= |Contents()|
        invariant node == if i + 1 < |nodes| then nodes[i + 1] else null
        invariant forall j :: 0 <= j < i ==> Contents()[j].code != code
        decreases |nodes| - i
      {
        node := node.next;
        i := i + 1;
      }
      FirstIndexUnique(Contents(), code, i);
    }

    method GetOption(code: u8) returns (found: bool, o: Opt)
      requires Valid()
      ensures found == (exists k :: 0 <= k < |Contents()| && Contents()[k].code == code)
      ensures found ==> o == Contents()[FirstIndex(Contents(), code)]
    {
      var node := GetOptionNode(code);
      ghost var k := FirstIndex(Contents(), code);
      if node == null {
        return false, Opt(0, []);
      }
      assert Contents()[k].code == code;
      return true, node.option;
    }

    /** Removing deletes exactly the first option with this code. */
    method RemoveOption(code: u8) returns (r: ListResult)
      requires Valid()
      modifies this, nodes
      ensures Valid() && forall n <- nodes :: n in old(nodes)
      ensures r == if FirstIndex(old(Contents()), code) < |old(Contents())| then RET_SUCCESS else RET_FAILED
      ensures Contents() == Removed(old(Contents()), code)
    {
      if size == 0 {
        return RET_FAILED;
      }
      var node := GetOptionNode(code);
      if node == null {
        return RET_FAILED;
      }
      ghost var k := FirstIndex(Contents(), code) + 1;
      ghost var chain := nodes;
      hide FirstIndex, Options;
      Unlink(node, k);
      OptionsCut(chain, k);
      r := RET_SUCCESS;
    }

    /** Taking node `k` out of the chain. */
    method Unlink(node: Node, ghost k: nat)
      requires Valid() && 1 <= k < |nodes| && node == nodes[k]
      modifies this, nodes
      ensures Valid() && nodes == old(nodes)[..k] + old(nodes)[k + 1..]
    {
      assert node.previous == nodes[k - 1];
      if node == last {
        last := node.previous;
        last.next := null;
      } else {
        assert k < |nodes| - 1 && node.next == nodes[k + 1];
        node.next.previous := node.previous;
        node.previous.next := node.next;
      }
      size := size - 1;
      nodes := nodes[..k] + nodes[k + 1..];
    }

    method ClearOptions()
      requires Valid()
      modifies this, nodes
      ensures Valid() && Contents() == [] && nodes == old(nodes)[..1]
    {
      if size == 0 {
        return;
      }
      var node := first.next;
      while node != null
        invariant Valid() && nodes[0] == old(nodes)[0]
        invariant forall i :: 0 <= i < |nodes| ==> nodes[i] in old(nodes)
        invariant node == if |nodes| > 1 then nodes[1] else null
        decreases |nodes|
      {
        Unlink(node, 1);
        node := first.next;
      }
    }
  }
}
