/** The RTM_NEWLINK request that lxc_veth_create of toy_docker/step_network/lxc_network/network.c builds. */
module Network {
  import opened Base
  import opened NetlinkFormat
  import opened NetlinkBuilder
  import opened NetlinkSession

  const EINVAL := 22
  const IFNAMSIZ := 16
  const NLMSG_GOOD_SIZE := 8192
  const SIZEOF_IFINFOMSG := 16
  const AF_UNSPEC: byte := 0

  const RTM_NEWLINK := 16
  const NLM_F_REQUEST := 0x1
  const NLM_F_ACK := 0x4
  const NLM_F_EXCL := 0x200
  const NLM_F_CREATE := 0x400

  const IFLA_IFNAME := 3
  const IFLA_LINKINFO := 18
  const IFLA_INFO_KIND := 1
  const IFLA_INFO_DATA := 2
  const VETH_INFO_PEER := 1

  const VETH: seq<byte> := [118, 101, 116, 104]   // "veth"

  // ---------------------------------------------------------------------------------------------
  // lxc_veth_create
  // ---------------------------------------------------------------------------------------------

  /** The check on an interface name: its length must not be 1 and must leave room for the NUL. */
  predicate NameAccepted(name: seq<byte>) {
    |name| != 1 && |name| < IFNAMSIZ
  }

  function PeerNest(name2: seq<byte>): Item {
    Nest(IFLA_INFO_DATA,
      [Nest(VETH_INFO_PEER,
        [Raw(Zeros(SIZEOF_IFINFOMSG)), Leaf(IFLA_IFNAME, name2 + [0])])])
  }

  function LinkInfo(name2: seq<byte>): Item {
    Nest(IFLA_LINKINFO, [Leaf(IFLA_INFO_KIND, VETH + [0]), PeerNest(name2)])
  }

  /** The attribute tree of the request: link info with the veth peer nested three levels deep. */
  function VethTree(name1: seq<byte>, name2: seq<byte>): seq<Item> {
    [Raw(Zeros(SIZEOF_IFINFOMSG)), LinkInfo(name2), Leaf(IFLA_IFNAME, name1 + [0])]
  }

  /** How a receiver reads such a request: an ifinfomsg followed by attributes. */
  const PEER := Schema(SIZEOF_IFINFOMSG, map[])
  const INFO_DATA := Schema(0, map[VETH_INFO_PEER := PEER])
  const LINKINFO := Schema(0, map[IFLA_INFO_DATA := INFO_DATA])
  const NEWLINK := Schema(SIZEOF_IFINFOMSG, map[IFLA_LINKINFO := LINKINFO])

  const REQUEST_HEADER: seq<byte> :=
    Le16(RTM_NEWLINK) + Le16(NLM_F_REQUEST + NLM_F_CREATE + NLM_F_EXCL + NLM_F_ACK) + Zeros(8)

  lemma Cons(sc: Schema, x: Item, xs: seq<Item>)
    requires ConformsAttr(sc, x) && Fits(x) && ConformsAttrs(sc, xs) && FitsAll(xs)
    ensures ConformsAttrs(sc, [x] + xs) && FitsAll([x] + xs) && SizeAll([x] + xs) == Size(x) + SizeAll(xs)
  {
    assert ([x] + xs)[1..] == xs;
  }

  lemma HeaderCons(sc: Schema, header: seq<byte>, xs: seq<Item>)
    requires sc.header == |header| > 0 && ConformsAttrs(sc, xs) && FitsAll(xs)
    ensures Conforms(sc, [Raw(header)] + xs) && FitsAll([Raw(header)] + xs)
    ensures SizeAll([Raw(header)] + xs) == Align(|header|) + SizeAll(xs)
  {
    var ys := [Raw(header)] + xs;
    assert ys[1..] == xs && ItemsUnits(ys) == ItemUnits(ys[0]) + ItemsUnits(xs);
  }

  lemma VethTreeConforms(name1: seq<byte>, name2: seq<byte>)
    requires |name1| < IFNAMSIZ && |name2| < IFNAMSIZ
    ensures Conforms(NEWLINK, VethTree(name1, name2)) && FitsAll(VethTree(name1, name2))
    ensures HDRLEN + SizeAll(VethTree(name1, name2)) < NLMSG_GOOD_SIZE
  {
    var header := Raw(Zeros(SIZEOF_IFINFOMSG));
    var name := Leaf(IFLA_IFNAME, name2 + [0]);
    Cons(PEER, name, []);
    HeaderCons(PEER, header.bytes, [name] + []);
    var peer := Nest(VETH_INFO_PEER, [header] + ([name] + []));
    Cons(INFO_DATA, peer, []);
    var data := Nest(IFLA_INFO_DATA, [peer] + []);
    Cons(LINKINFO, data, []);
    var kind := Leaf(IFLA_INFO_KIND, VETH + [0]);
    Cons(LINKINFO, kind, [data] + []);
    var info := Nest(IFLA_LINKINFO, [kind] + ([data] + []));
    var last := Leaf(IFLA_IFNAME, name1 + [0]);
    Cons(NEWLINK, last, []);
    Cons(NEWLINK, info, [last] + []);
    HeaderCons(NEWLINK, header.bytes, [info] + ([last] + []));
    assert [header] + ([name] + []) == [header, name] && [peer] + [] == [peer];
    assert [kind] + ([data] + []) == [kind, data];
    assert [header] + ([info] + ([last] + [])) == VethTree(name1, name2);
  }


  /** What a receiver finds under a path of attribute types. */
  function Received(sc: Schema, b: seq<byte>, path: seq<nat>): Option<seq<byte>>
    requires path != []
  {
    var r := ParseMessage(sc, b);
    if r.None? then None else Lookup(r.value.1, path)
  }

  /** A request, as a receiver reads it: type 16 (RTM_NEWLINK), flags 0x605, a zeroed ifinfomsg, and at 3 (IFLA_IFNAME)
      the name of the new device, at 18, 1 (IFLA_LINKINFO, IFLA_INFO_KIND) the kind, and at 18, 2, 1, 3 (IFLA_LINKINFO,
      IFLA_INFO_DATA, VETH_INFO_PEER, IFLA_IFNAME) the name of its peer. */
  ghost predicate RequestsVeth(b: seq<byte>, device: seq<byte>, peer: seq<byte>) {
    && ParseMessage(NEWLINK, b).Some? && ParseMessage(NEWLINK, b).value.0 == [16, 0, 0x05, 0x06, 0, 0, 0, 0, 0, 0, 0, 0]
    && Raw(seq(16, _ => 0)) in ParseMessage(NEWLINK, b).value.1
    && Received(NEWLINK, b, [3]) == Some(device + [0])
    && Received(NEWLINK, b, [18, 1]) == Some(['v' as byte, 'e' as byte, 't' as byte, 'h' as byte, 0])
    && Received(NEWLINK, b, [18, 2, 1, 3]) == Some(peer + [0])
    && (forall path | path != [] && Received(NEWLINK, b, path).Some? :: path in [[3], [18, 1], [18, 2, 1, 3]])
  }

  lemma LookupPeerName(name2: seq<byte>, path: seq<nat>)
    requires path != []
    ensures Lookup([Raw(Zeros(16)), Leaf(3, name2 + [0])], path) == if path == [3] then Some(name2 + [0]) else None
  {
    hide Lookup;
    LookupNone(path);
    LookupFirst(Leaf(3, name2 + [0]), [], path);
    LookupFirst(Raw(Zeros(16)), [Leaf(3, name2 + [0])], path);
    assert [Leaf(3, name2 + [0])] + [] == [Leaf(3, name2 + [0])];
    assert [Raw(Zeros(16))] + [Leaf(3, name2 + [0])] == [Raw(Zeros(16)), Leaf(3, name2 + [0])];
  }

  lemma LookupNone(path: seq<nat>)
    requires path != []
    ensures Lookup([], path) == None
  {
  }

  lemma LookupNested(typ: nat, items: seq<Item>, path: seq<nat>)
    requires path != []
    ensures Lookup([Nest(typ, items)], path) == if path[0] == typ && |path| > 1 then Lookup(items, path[1..]) else None
  {
    hide Lookup;
    LookupNone(path);
    LookupFirst(Nest(typ, items), [], path);
    assert [Nest(typ, items)] + [] == [Nest(typ, items)];
  }

  lemma LookupPeer(name2: seq<byte>, path: seq<nat>)
    requires path != []
    ensures Lookup([PeerNest(name2)], path) == if path == [2, 1, 3] then Some(name2 + [0]) else None
  {
    hide Lookup;
    var contents := [Raw(Zeros(16)), Leaf(3, name2 + [0])];
    LookupNested(2, [Nest(1, contents)], path);
    if |path| > 1 {
      LookupNested(1, contents, path[1..]);
      if |path| > 2 {
        LookupPeerName(name2, path[2..]);
        assert path[1..][1..] == path[2..];
        assert path == [path[0], path[1]] + path[2..];
      }
    }
  }

  lemma LookupInfo(name2: seq<byte>, path: seq<nat>)
    requires path != []
    ensures Lookup([Leaf(1, VETH + [0]), PeerNest(name2)], path)
         == if path == [1] then Some(VETH + [0]) else if path == [2, 1, 3] then Some(name2 + [0]) else None
  {
    hide Lookup, PeerNest;
    var kind, peer := Leaf(1, VETH + [0]), PeerNest(name2);
    LookupPeer(name2, path);
    LookupFirst(kind, [peer], path);
    assert [kind] + [peer] == [kind, peer];
  }

  /** What is where in the request, and that there is nothing else. */
  lemma LookupRequest(name1: seq<byte>, name2: seq<byte>, path: seq<nat>)
    requires path != []
    ensures Lookup(VethTree(name1, name2), path)
         == if path == [3] then Some(name1 + [0])
            else if path == [18, 1] then Some(VETH + [0])
            else if path == [18, 2, 1, 3] then Some(name2 + [0])
            else None
  {
    hide Lookup, PeerNest;
    var block, info, name := Raw(Zeros(16)), LinkInfo(name2), Leaf(3, name1 + [0]);
    LookupNone(path);
    LookupFirst(name, [], path);
    LookupFirst(info, [name], path);
    LookupFirst(block, [info, name], path);
    assert [name] + [] == [name] && [info] + [name] == [info, name] && [block] + [info, name] == [block, info, name];
    if |path| > 1 {
      LookupInfo(name2, path[1..]);
      assert path == [path[0]] + path[1..];
    }
  }

  /** The request lxc_veth_create sends names the new device name1 and its peer name2. */
  lemma VethRoundTrip(name1: seq<byte>, name2: seq<byte>)
    requires NameAccepted(name1) && NameAccepted(name2)
    ensures RequestsVeth(SerializeMessage(REQUEST_HEADER, VethTree(name1, name2)), name1, name2)
  {
    hide ParseMessage, VethTree, Conforms, FitsAll, SerializeMessage, Lookup;
    VethTreeConforms(name1, name2);
    RoundTrip(NEWLINK, REQUEST_HEADER, VethTree(name1, name2));
    HeaderBytes();
    FirstBlock(name1, name2);
    var b := SerializeMessage(REQUEST_HEADER, VethTree(name1, name2));
    forall path | path != []
      ensures Received(NEWLINK, b, path)
           == if path == [3] then Some(name1 + [0])
              else if path == [18, 1] then Some(VETH + [0])
              else if path == [18, 2, 1, 3] then Some(name2 + [0])
              else None
    {
      LookupRequest(name1, name2, path);
    }
    assert VETH + [0] == ['v' as byte, 'e' as byte, 't' as byte, 'h' as byte, 0];
  }

  lemma FirstBlock(name1: seq<byte>, name2: seq<byte>)
    ensures Raw(seq(16, _ => 0)) in VethTree(name1, name2)
  {
    assert Zeros(16) == seq(16, _ => 0);
    assert VethTree(name1, name2)[0] == Raw(Zeros(16));
  }

  lemma HeaderBytes()
    ensures REQUEST_HEADER == [16, 0, 0x05, 0x06, 0, 0, 0, 0, 0, 0, 0, 0]
  {
  }

  /** The frames after adding to, or closing, the innermost of a known list of frames. */
  lemma Added(fs: seq<Frame>, x: Item, front: seq<Frame>, last: Frame, items: seq<Item>)
    requires fs == front + [last] && items == last.items + [x]
    ensures AddItem(fs, x) == front + [Frame(last.typ, items)]
  {
  }

  lemma Closed(fs: seq<Frame>, front: seq<Frame>, outer: Frame, inner: Frame, items: seq<Item>)
    requires fs == front + [outer, inner] && items == outer.items + [Nest(inner.typ, inner.items)]
    ensures Close(fs) == front + [Frame(outer.typ, items)] && fs[..|fs| - 1] == front + [outer]
  {
    assert fs[..|fs| - 1] == front + [outer];
    Added(front + [outer], Nest(inner.typ, inner.items), front, outer, items);
  }

  /** Storing AF_UNSPEC, which is 0, in a zeroed ifinfomsg changes nothing. */
  lemma FamilyFill(fs: seq<Frame>)
    requires fs == [Frame(0, [Raw(Zeros(SIZEOF_IFINFOMSG))])]
    ensures LastIsBlock(fs, 1) && LastBlock(fs) == Zeros(SIZEOF_IFINFOMSG)
    ensures FillLast(fs, [AF_UNSPEC]) == fs
  {
    assert [AF_UNSPEC] + Zeros(SIZEOF_IFINFOMSG)[1..] == Zeros(SIZEOF_IFINFOMSG);
    assert fs[0].items[..0] == [];
    assert DropLast(fs) == [] + [Frame(0, [])];
    Added(DropLast(fs), Raw(Zeros(SIZEOF_IFINFOMSG)), [], Frame(0, []), fs[0].items);
  }

  /** The two inner nests with the peer's ifinfomsg and name, appended to the innermost open nest f1. */
  method NestPeer(nlmsg: Message, name2: seq<byte>, ghost f0: Frame, ghost f1: Frame) returns (err: int)
    requires nlmsg.Valid() && nlmsg.frames == [f0, f1]
    requires nlmsg.Len() + 64 <= nlmsg.buf.Length < 0x1_0000_0000 && |name2| < IFNAMSIZ
    modifies nlmsg`frames, nlmsg`payload, nlmsg.buf
    ensures nlmsg.Valid() && err == 0 && nlmsg.rest == old(nlmsg.rest)
    ensures old(nlmsg.Len()) <= nlmsg.Len() <= old(nlmsg.Len()) + 64
    ensures nlmsg.frames == [f0, Frame(f1.typ, f1.items + [PeerNest(name2)])]
  {
    hide OpenBytes, Buffer, Serialize, SerializeAll, Message.Valid, Message.Intact, AddItem, Close;
    var nest2 := nlmsg.BeginNested(IFLA_INFO_DATA);
    if nest2.None? {
      return -EINVAL;
    }
    ghost var f2 := Frame(IFLA_INFO_DATA, []);
    assert nlmsg.frames == [f0, f1, f2];
    var nest3 := nlmsg.BeginNested(VETH_INFO_PEER);
    if nest3.None? {
      return -EINVAL;
    }
    assert nlmsg.frames == [f0, f1, f2, Frame(VETH_INFO_PEER, [])];
    err := PutPeer(nlmsg, name2, [f0, f1, f2]);
    ghost var block, name := Raw(Zeros(SIZEOF_IFINFOMSG)), Leaf(IFLA_IFNAME, name2 + [0]);
    ghost var peer := Nest(VETH_INFO_PEER, [block, name]);
    Closed(nlmsg.frames, [f0, f1], f2, Frame(VETH_INFO_PEER, [block, name]), [peer]);
    nlmsg.EndNested(nest3.value);
    Closed(nlmsg.frames, [f0], f1, Frame(IFLA_INFO_DATA, [peer]), f1.items + [Nest(IFLA_INFO_DATA, [peer])]);
    nlmsg.EndNested(nest2.value);
  }

  /** The contents of the peer nest, which is the last of the frames. */
  method PutPeer(nlmsg: Message, name2: seq<byte>, ghost front: seq<Frame>) returns (err: int)
    requires nlmsg.Valid() && nlmsg.frames == front + [Frame(VETH_INFO_PEER, [])]
    requires nlmsg.Len() + 40 <= nlmsg.buf.Length < 0x1_0000_0000 && |name2| < IFNAMSIZ
    modifies nlmsg`frames, nlmsg`payload, nlmsg.buf
    ensures nlmsg.Valid() && err == 0 && nlmsg.rest == old(nlmsg.rest)
    ensures old(nlmsg.Len()) <= nlmsg.Len() <= old(nlmsg.Len()) + 40
    ensures nlmsg.frames == front + [Frame(VETH_INFO_PEER, [Raw(Zeros(SIZEOF_IFINFOMSG)), Leaf(IFLA_IFNAME, name2 + [0])])]
  {
    hide OpenBytes, Buffer, Serialize, SerializeAll, Message.Valid, Message.Intact, AddItem;
    ghost var block, name := Raw(Zeros(SIZEOF_IFINFOMSG)), Leaf(IFLA_IFNAME, name2 + [0]);
    Added(nlmsg.frames, block, front, Frame(VETH_INFO_PEER, []), [block]);
    var ifi := nlmsg.Reserve(SIZEOF_IFINFOMSG);
    if ifi.None? {
      return -EINVAL;
    }
    Added(nlmsg.frames, name, front, Frame(VETH_INFO_PEER, [block]), [block, name]);
    err := nlmsg.Put(IFLA_IFNAME, name2 + [0]);
    if err != 0 {
      return -EINVAL;
    }
  }

  /** The start of the request: header fields and a zeroed ifinfomsg, which is sure to fit. */
  method NewLinkRequest() returns (nlmsg: Message)
    ensures nlmsg.Valid() && fresh(nlmsg) && fresh(nlmsg.buf) && nlmsg.buf.Length == HDRLEN + NLMSG_GOOD_SIZE
    ensures nlmsg.rest == REQUEST_HEADER && nlmsg.Len() == HDRLEN + SIZEOF_IFINFOMSG
    ensures nlmsg.frames == [Frame(0, [Raw(Zeros(SIZEOF_IFINFOMSG))])]
  {
    hide OpenBytes, Buffer, Serialize, SerializeAll;
    nlmsg := new Message(NLMSG_GOOD_SIZE);
    nlmsg.SetTypeAndFlags(RTM_NEWLINK, NLM_F_REQUEST + NLM_F_CREATE + NLM_F_EXCL + NLM_F_ACK);
    assert Zeros(12)[4..] == Zeros(8);
    ghost var block := Raw(Zeros(SIZEOF_IFINFOMSG));
    Added(nlmsg.frames, block, [], Frame(0, []), [block]);
    var ifi := nlmsg.Reserve(SIZEOF_IFINFOMSG);
    FamilyFill(nlmsg.frames);
    nlmsg.Fill(ifi.value, [AF_UNSPEC]);
  }

  /** The outermost nest: the kind of link, and the peer. */
  method NestLinkInfo(nlmsg: Message, name2: seq<byte>, ghost f0: Frame) returns (err: int)
    requires nlmsg.Valid() && nlmsg.frames == [f0]
    requires nlmsg.Len() + 80 <= nlmsg.buf.Length < 0x1_0000_0000 && |name2| < IFNAMSIZ
    modifies nlmsg`frames, nlmsg`payload, nlmsg.buf
    ensures nlmsg.Valid() && err == 0 && nlmsg.rest == old(nlmsg.rest)
    ensures nlmsg.Len() <= old(nlmsg.Len()) + 80
    ensures nlmsg.frames == [Frame(f0.typ, f0.items + [LinkInfo(name2)])]
  {
    hide OpenBytes, Buffer, Serialize, SerializeAll, Message.Valid, Message.Intact, AddItem, Close, PeerNest;
    var nest1 := nlmsg.BeginNested(IFLA_LINKINFO);
    if nest1.None? {
      return -EINVAL;
    }
    ghost var kind := Leaf(IFLA_INFO_KIND, VETH + [0]);
    assert nlmsg.frames == [f0] + [Frame(IFLA_LINKINFO, [])];
    Added(nlmsg.frames, kind, [f0], Frame(IFLA_LINKINFO, []), [kind]);
    err := nlmsg.Put(IFLA_INFO_KIND, VETH + [0]);
    if err != 0 {
      return -EINVAL;
    }
    ghost var f1 := Frame(IFLA_LINKINFO, [kind]);
    assert nlmsg.frames == [f0, f1];
    err := NestPeer(nlmsg, name2, f0, f1);
    assert f1.items + [PeerNest(name2)] == [kind, PeerNest(name2)];
    Closed(nlmsg.frames, [], f0, Frame(IFLA_LINKINFO, [kind, PeerNest(name2)]), f0.items + [LinkInfo(name2)]);
    assert [] + [f0] == [f0];
    nlmsg.EndNested(nest1.value);
  }

  /** Builds the request.  The socket calls around it are not modelled: err is 0 when the message is ready
      to be sent. */
  method LxcVethCreate(name1: seq<byte>, name2: seq<byte>) returns (err: int, nlmsg: Message?)
    ensures err == if |name1| == 1 || |name1| >= 16 || |name2| == 1 || |name2| >= 16 then -22 else 0
    ensures err == 0 ==> nlmsg != null && nlmsg.Len() <= nlmsg.buf.Length && RequestsVeth(nlmsg.buf[..nlmsg.Len()], name1, name2)
    ensures err == 0 ==> nlmsg != null && nlmsg.Valid() && nlmsg.rest == REQUEST_HEADER
                         && nlmsg.frames == [Frame(0, VethTree(name1, name2))]
                         && nlmsg.buf[..nlmsg.Len()] == SerializeMessage(REQUEST_HEADER, VethTree(name1, name2))
  {
    hide OpenBytes, Buffer, Serialize, SerializeAll, SerializeMessage, Message.Valid, Message.Intact, AddItem, LinkInfo;
    hide RequestsVeth;
    if |name1| == 1 || |name1| >= IFNAMSIZ {
      return -EINVAL, null;
    }
    if |name2| == 1 || |name2| >= IFNAMSIZ {
      return -EINVAL, null;
    }
    nlmsg := NewLinkRequest();
    ghost var block, info := Raw(Zeros(SIZEOF_IFINFOMSG)), LinkInfo(name2);
    ghost var f0 := Frame(0, [block]);
    assert nlmsg.frames == [f0];
    err := NestLinkInfo(nlmsg, name2, f0);
    assert [block] + [info] == [block, info];
    Added(nlmsg.frames, Leaf(IFLA_IFNAME, name1 + [0]), [], Frame(0, [block, info]), VethTree(name1, name2));
    err := nlmsg.Put(IFLA_IFNAME, name1 + [0]);
    if err != 0 {
      return -EINVAL, nlmsg;
    }
    ghost var tree := VethTree(name1, name2);
    assert nlmsg.frames == [Frame(0, tree)];
    FinishedMessage(nlmsg, tree);
    VethRoundTrip(name1, name2);
  }
}
