/** Whole uses of the message builder of toy_docker/step_network/lxc_network/nl.c: arbitrary call sequences and
    complete trees. */
module NetlinkSession {
  import opened Base
  import opened NetlinkFormat
  import opened NetlinkBuilder

  // ---------------------------------------------------------------------------------------------
  // Call sequences and trees
  // ---------------------------------------------------------------------------------------------

  /** The builder's calls; Block is nlmsg_reserve followed by the caller filling the block. */
  datatype Call = Block(bytes: seq<byte>) | Attr(typ: nat, data: seq<byte>) | Begin(typ: nat) | End

  function Tail(fs: seq<Frame>): nat {
    HDRLEN + |OpenBytes(fs)|
  }

  function Exec(cap: nat, fs: seq<Frame>, c: Call): (r: Option<seq<Frame>>)
    requires fs != []
    ensures r.Some? ==> r.value != []
  {
    match c
    case Block(bytes) => if Tail(fs) + Align(|bytes|) <= cap then Some(AddItem(fs, Raw(bytes))) else None
    case Attr(typ, data) => if Tail(fs) + Size(Leaf(typ, data)) <= cap then Some(AddItem(fs, Leaf(typ, data))) else None
    case Begin(typ) => if Tail(fs) + ATTRLEN <= cap then Some(Open(fs, typ)) else None
    case End => if |fs| >= 2 then Some(Close(fs)) else None
  }

  /** The frames after the calls, or None if some call is refused for lack of room. */
  function ExecAll(cap: nat, fs: seq<Frame>, cs: seq<Call>): (r: Option<seq<Frame>>)
    requires fs != []
    ensures r.Some? ==> r.value != []
    decreases cs
  {
    if cs == [] then Some(fs) else
    var r := Exec(cap, fs, cs[0]);
    if r.None? then None else ExecAll(cap, r.value, cs[1..])
  }

  /** Every End closes a nest begun earlier in the sequence. */
  predicate Bracketed(cs: seq<Call>, depth: nat) {
    cs == [] ||
    if cs[0].Begin? then Bracketed(cs[1..], depth + 1)
    else if cs[0].End? then depth > 0 && Bracketed(cs[1..], depth - 1)
    else Bracketed(cs[1..], depth)
  }

  /** The calls that build a tree. */
  function Calls(x: Item): seq<Call>
    decreases x, 1
  {
    match x
    case Raw(bytes) => [Block(bytes)]
    case Leaf(typ, data) => [Attr(typ, data)]
    case Nest(typ, items) => [Begin(typ)] + CallsAll(items) + [End]
  }

  function CallsAll(xs: seq<Item>): seq<Call>
    decreases xs, 0
  {
    if xs == [] then [] else Calls(xs[0]) + CallsAll(xs[1..])
  }

  function AddItems(fs: seq<Frame>, xs: seq<Item>): seq<Frame>
    requires fs != []
  {
    var n := |fs| - 1;
    fs[n := fs[n].(items := fs[n].items + xs)]
  }

  lemma {:induction false} ExecConcat(cap: nat, fs: seq<Frame>, a: seq<Call>, b: seq<Call>)
    requires fs != []
    ensures var r := ExecAll(cap, fs, a);
            ExecAll(cap, fs, a + b) == if r.None? then None else ExecAll(cap, r.value, b)
    decreases a
  {
    if a == [] {
      assert a + b == b;
    } else {
      assert (a + b)[0] == a[0] && (a + b)[1..] == a[1..] + b;
      var r := Exec(cap, fs, a[0]);
      if r.Some? {
        ExecConcat(cap, r.value, a[1..], b);
      }
    }
  }

  lemma {:induction false} BracketedConcat(a: seq<Call>, b: seq<Call>, depth: nat, d: nat)
    requires Bracketed(a, depth) && Bracketed(b, d)
    requires depth + Opens(a) == d
    ensures Bracketed(a + b, depth)
    decreases a
  {
    if a == [] {
      assert a + b == b;
    } else {
      assert (a + b)[0] == a[0] && (a + b)[1..] == a[1..] + b;
      BracketedConcat(a[1..], b, if a[0].Begin? then depth + 1 else if a[0].End? then depth - 1 else depth, d);
    }
  }

  /** Nests begun minus nests ended. */
  function Opens(cs: seq<Call>): int {
    if cs == [] then 0 else (if cs[0].Begin? then 1 else if cs[0].End? then -1 else 0) + Opens(cs[1..])
  }

  lemma {:induction false} OpensConcat(a: seq<Call>, b: seq<Call>)
    ensures Opens(a + b) == Opens(a) + Opens(b)
  {
    if a == [] {
      assert a + b == b;
    } else {
      assert (a + b)[0] == a[0] && (a + b)[1..] == a[1..] + b;
      OpensConcat(a[1..], b);
    }
  }

  lemma {:induction false} CallsAreBracketed(x: Item, depth: nat)
    ensures Bracketed(Calls(x), depth) && Opens(Calls(x)) == 0
    decreases x, 1
  {
    match x
    case Raw(_) =>
    case Leaf(_, _) =>
    case Nest(typ, items) =>
      var body := CallsAll(items);
      CallsAllAreBracketed(items, depth + 1);
      assert Bracketed([End], depth + 1);
      BracketedConcat(body, [End], depth + 1, depth + 1);
      OpensConcat(body, [End]);
      assert Calls(x) == [Begin(typ)] + (body + [End]);
      assert Calls(x)[1..] == body + [End];
  }

  lemma {:induction false} CallsAllAreBracketed(xs: seq<Item>, depth: nat)
    ensures Bracketed(CallsAll(xs), depth) && Opens(CallsAll(xs)) == 0
    decreases xs, 0
  {
    if xs != [] {
      CallsAreBracketed(xs[0], depth);
      CallsAllAreBracketed(xs[1..], depth);
      BracketedConcat(Calls(xs[0]), CallsAll(xs[1..]), depth, depth);
      OpensConcat(Calls(xs[0]), CallsAll(xs[1..]));
    }
  }

  lemma {:induction false} ExecItem(cap: nat, fs: seq<Frame>, x: Item)
    requires fs != [] && Tail(fs) <= cap
    ensures ExecAll(cap, fs, Calls(x)) == if Tail(fs) + Size(x) <= cap then Some(AddItem(fs, x)) else None
    decreases x, 1
  {
    hide OpenBytes, SerializeAll, Attribute;
    match x
    case Raw(bytes) =>
      assert Calls(x)[1..] == [];
    case Leaf(typ, data) =>
      assert Calls(x)[1..] == [];
    case Nest(typ, items) =>
      var fs', body := Open(fs, typ), CallsAll(items);
      ExecConcat(cap, fs, [Begin(typ)], body + [End]);
      assert Calls(x) == [Begin(typ)] + (body + [End]);
      assert [Begin(typ)][1..] == [];
      AlignUnits(1);
      OpenAddsHeader(fs, typ);
      if Tail(fs) + ATTRLEN <= cap {
        ExecItems(cap, fs', items);
        ExecConcat(cap, fs', body, [End]);
        assert [End][1..] == [];
        assert Close(AddItems(fs', items)) == AddItem(fs, x) by {
          assert AddItems(fs', items)[..|fs|] == fs;
          assert [] + items == items;
        }
      }
  }

  lemma AddItemThenItems(fs: seq<Frame>, xs: seq<Item>)
    requires fs != [] && xs != []
    ensures AddItems(AddItem(fs, xs[0]), xs[1..]) == AddItems(fs, xs)
  {
    var n := |fs| - 1;
    assert fs[n].items + [xs[0]] + xs[1..] == fs[n].items + xs;
  }

  lemma {:induction false} ExecItems(cap: nat, fs: seq<Frame>, xs: seq<Item>)
    requires fs != [] && Tail(fs) <= cap
    ensures ExecAll(cap, fs, CallsAll(xs)) == if Tail(fs) + SizeAll(xs) <= cap then Some(AddItems(fs, xs)) else None
    decreases xs, 0
  {
    hide OpenBytes, SerializeAll, Exec, Calls;
    var n := |fs| - 1;
    if xs == [] {
      assert AddItems(fs, xs) == fs by { assert fs[n].items + [] == fs[n].items; }
    } else {
      ExecItem(cap, fs, xs[0]);
      ExecConcat(cap, fs, Calls(xs[0]), CallsAll(xs[1..]));
      AddItemBytes(fs, xs[0]);
      assert SizeAll(xs) == Size(xs[0]) + SizeAll(xs[1..]);
      if Tail(fs) + Size(xs[0]) <= cap {
        ExecItems(cap, AddItem(fs, xs[0]), xs[1..]);
        AddItemThenItems(fs, xs);
      }
    }
  }

  // ---------------------------------------------------------------------------------------------
  // Running calls on a message
  // ---------------------------------------------------------------------------------------------

  /** Offsets handed out by nla_begin_nested and not yet passed to nla_end_nested. */
  ghost predicate NestsOf(fs: seq<Frame>, nests: seq<nat>) {
    && |nests| < |fs|
    && forall k :: 0 <= k < |nests| ==> nests[k] == Tail(fs[..|fs| - |nests| + k])
  }

  /** The length always fits nlmsg_len: the buffer is shorter than 2^32 bytes, or what the calls add is. */
  predicate Sized(cap: nat, fs: seq<Frame>, cs: seq<Call>)
    requires fs != []
  {
    cap < 0x1_0000_0000 || ExecAll(0xffff_ffff, fs, cs).Some?
  }

  /** A call that two capacities admit does the same under both. */
  lemma SameCall(cap: nat, fs: seq<Frame>, c: Call)
    requires fs != [] && Exec(0xffff_ffff, fs, c).Some? && cap >= 0x1_0000_0000
    ensures Exec(cap, fs, c) == Exec(0xffff_ffff, fs, c)
  {
    hide OpenBytes, Size, Align;
  }

  /** The next call of a sequence. */
  lemma NextCall(cap: nat, fs: seq<Frame>, cs: seq<Call>, i: nat, depth: nat)
    requires fs != [] && i < |cs| && Bracketed(cs[i..], depth)
    ensures cs[i].End? ==> depth > 0
    ensures Bracketed(cs[i + 1..], if cs[i].Begin? then depth + 1 else if cs[i].End? then depth - 1 else depth)
    ensures var r := Exec(cap, fs, cs[i]);
            ExecAll(cap, fs, cs[i..]) == if r.None? then None else ExecAll(cap, r.value, cs[i + 1..])
    ensures Sized(cap, fs, cs[i..]) ==> cap < 0x1_0000_0000 || Exec(0xffff_ffff, fs, cs[i]).Some?
    ensures Sized(cap, fs, cs[i..]) && Exec(cap, fs, cs[i]).Some? ==> Sized(cap, Exec(cap, fs, cs[i]).value, cs[i + 1..])
  {
    hide Exec;
    assert cs[i..][1..] == cs[i + 1..];
    if cap >= 0x1_0000_0000 && Sized(cap, fs, cs[i..]) {
      SameCall(cap, fs, cs[i]);
    }
  }

  /** Performs the calls in order and stops at the first that is refused. */
  method RunCalls(m: Message, cs: seq<Call>) returns (ok: bool)
    requires m.Valid() && Bracketed(cs, 0) && Sized(m.buf.Length, m.frames, cs)
    modifies m`frames, m`payload, m.buf
    ensures m.Valid() && m.rest == old(m.rest)
    ensures ok == ExecAll(m.buf.Length, old(m.frames), cs).Some?
    ensures ok ==> m.frames == ExecAll(m.buf.Length, old(m.frames), cs).value
  {
    hide Exec, ExecAll, Bracketed, NestsOf, Sized, Message.Valid, Message.Intact;
    var nests: seq<nat> := [];
    var i := 0;
    assert cs[0..] == cs;
    SomeFrame(m);
    ghost var fs := m.frames;
    assert NestsOf(m.frames, []) by { NoNests(m); }
    while i < |cs|
      invariant 0 <= i <= |cs| && m.Valid() && m.rest == old(m.rest)
      invariant m.frames != [] && NestsOf(m.frames, nests) && Bracketed(cs[i..], |nests|)
      invariant Sized(m.buf.Length, m.frames, cs[i..])
      invariant ExecAll(m.buf.Length, fs, cs) == ExecAll(m.buf.Length, m.frames, cs[i..])
    {
      NextCall(m.buf.Length, m.frames, cs, i, |nests|);
      nests, ok := RunCall(m, cs[i], nests);
      if !ok {
        return;
      }
      SomeFrame(m);
      i := i + 1;
    }
    assert cs[i..] == [];
    assert ExecAll(m.buf.Length, m.frames, []) == Some(m.frames) by { NoCalls(m); }
    ok := true;
  }

  lemma SomeFrame(m: Message)
    requires m.Valid()
    ensures m.frames != []
  {
  }

  lemma NoNests(m: Message)
    requires m.Valid()
    ensures NestsOf(m.frames, [])
  {
  }

  lemma NoCalls(m: Message)
    requires m.Valid()
    ensures m.frames != [] && ExecAll(m.buf.Length, m.frames, []) == Some(m.frames)
  {
  }

  /** Reserving a zeroed block and filling all of it adds the block. */
  lemma FillWholeBlock(fs: seq<Frame>, bytes: seq<byte>)
    requires fs != []
    ensures LastIsBlock(AddItem(fs, Raw(Zeros(|bytes|))), |bytes|)
    ensures LastBlock(AddItem(fs, Raw(Zeros(|bytes|)))) == Zeros(|bytes|)
    ensures FillLast(AddItem(fs, Raw(Zeros(|bytes|))), bytes) == AddItem(fs, Raw(bytes))
  {
    var n := |fs| - 1;
    var fs' := AddItem(fs, Raw(Zeros(|bytes|)));
    assert fs'[n].items[..|fs'[n].items| - 1] == fs[n].items;
    assert DropLast(fs') == fs;
    assert bytes + Zeros(|bytes|)[|bytes|..] == bytes;
  }

  method RunBlock(m: Message, bytes: seq<byte>) returns (ok: bool)
    requires m.Valid() && (m.buf.Length < 0x1_0000_0000 || m.Len() + Align(|bytes|) < 0x1_0000_0000)
    modifies m`frames, m`payload, m.buf
    ensures m.Valid() && m.rest == old(m.rest)
    ensures ok == (old(m.Len()) + Align(|bytes|) <= m.buf.Length)
    ensures m.frames == if ok then AddItem(old(m.frames), Raw(bytes)) else old(m.frames)
  {
    hide OpenBytes, Buffer, Serialize;
    FillWholeBlock(m.frames, bytes);
    var block := m.Reserve(|bytes|);
    ok := block.Some?;
    if ok {
      m.Fill(block.value, bytes);
    }
  }

  method RunCall(m: Message, c: Call, nests: seq<nat>) returns (nests': seq<nat>, ok: bool)
    requires m.Valid() && NestsOf(m.frames, nests) && (c.End? ==> nests != [])
    requires m.buf.Length < 0x1_0000_0000 || Exec(0xffff_ffff, m.frames, c).Some?
    modifies m`frames, m`payload, m.buf
    ensures m.Valid() && m.rest == old(m.rest)
    ensures ok == Exec(m.buf.Length, old(m.frames), c).Some?
    ensures ok ==> m.frames == Exec(m.buf.Length, old(m.frames), c).value && NestsOf(m.frames, nests')
    ensures |nests'| == |nests| + if !ok then 0 else if c.Begin? then 1 else if c.End? then -1 else 0
  {
    hide OpenBytes, Buffer, Serialize;
    nests', ok := nests, true;
    ghost var fs := m.frames;
    match c {
      case Block(bytes) =>
        ok := RunBlock(m, bytes);
        SameOuterFrames(fs, m.frames, nests);
      case Attr(typ, data) =>
        var err := m.Put(typ, data);
        ok := err == 0;
        SameOuterFrames(fs, m.frames, nests);
      case Begin(typ) =>
        var pos := m.BeginNested(typ);
        ok := pos.Some?;
        if ok {
          nests' := nests + [pos.value];
          MoreNests(fs, typ, nests);
        }
      case End =>
        assert m.frames[..|fs| - |nests| + |nests| - 1] == m.frames[..|fs| - 1];
        HeaderBelowTail(fs);
        m.EndNested(nests[|nests| - 1]);
        nests' := nests[..|nests| - 1];
        FewerNests(fs, nests);
    }
  }

  lemma MoreNests(fs: seq<Frame>, typ: nat, nests: seq<nat>)
    requires NestsOf(fs, nests)
    ensures NestsOf(Open(fs, typ), nests + [Tail(fs)])
  {
    hide OpenBytes;
    var fs', nests' := Open(fs, typ), nests + [Tail(fs)];
    assert fs'[..|fs|] == fs;
    forall k | 0 <= k < |nests'| ensures nests'[k] == Tail(fs'[..|fs'| - |nests'| + k]) {
      assert k < |nests| ==> fs'[..|fs'| - |nests'| + k] == fs[..|fs| - |nests| + k];
    }
  }

  lemma FewerNests(fs: seq<Frame>, nests: seq<nat>)
    requires NestsOf(fs, nests) && nests != []
    ensures NestsOf(Close(fs), nests[..|nests| - 1])
  {
    hide OpenBytes;
    var fs', nests' := Close(fs), nests[..|nests| - 1];
    forall k | 0 <= k < |nests'| ensures nests'[k] == Tail(fs'[..|fs'| - |nests'| + k]) {
      assert fs'[..|fs'| - |nests'| + k] == fs[..|fs| - |nests| + k];
    }
  }

  lemma SameOuterFrames(fs: seq<Frame>, fs': seq<Frame>, nests: seq<nat>)
    requires NestsOf(fs, nests) && |fs'| == |fs| && fs'[..|fs| - 1] == fs[..|fs| - 1]
    ensures NestsOf(fs', nests)
  {
    hide OpenBytes;
    forall k | 0 <= k < |nests| ensures nests[k] == Tail(fs'[..|fs| - |nests| + k]) {
      assert fs'[..|fs| - |nests| + k] == fs'[..|fs| - 1][..|fs| - |nests| + k];
      assert fs[..|fs| - |nests| + k] == fs[..|fs| - 1][..|fs| - |nests| + k];
    }
  }

  /** A buffer with every nest closed starts with the serialized message. */
  lemma ClosedBuffer(rest: seq<byte>, typ: nat, xs: seq<Item>, cap: nat)
    requires |rest| == 12 && Tail([Frame(typ, xs)]) <= cap
    ensures Tail([Frame(typ, xs)]) == HDRLEN + SizeAll(xs)
    ensures Buffer(rest, OpenBytes([Frame(typ, xs)]), cap)[..HDRLEN + SizeAll(xs)] == SerializeMessage(rest, xs)
  {
    assert OpenBytes([Frame(typ, xs)]) == SerializeAll(xs) by { OneFrame(typ, xs); }
    hide OpenBytes, SerializeAll, Le32, Zeros;
  }

  lemma OneFrame(typ: nat, xs: seq<Item>)
    ensures OpenBytes([Frame(typ, xs)]) == SerializeAll(xs)
  {
    hide SerializeAll;
    assert [Frame(typ, xs)][..0] == [] && OpenBytes([]) == [];
  }

  /** A message with no nest open holds its serialized tree. */
  lemma FinishedMessage(m: Message, tree: seq<Item>)
    requires m.Valid() && m.frames == [Frame(m.frames[0].typ, tree)]
    ensures m.Len() == HDRLEN + SizeAll(tree) <= m.buf.Length
    ensures m.buf[..m.Len()] == SerializeMessage(m.rest, tree)
  {
    hide OpenBytes, Buffer, SerializeAll, SerializeMessage;
    ClosedBuffer(m.rest, m.frames[0].typ, tree, m.buf.Length);
    assert m.buf[..m.Len()] == m.buf[..][..m.Len()];
  }

  /** The in-place builder refines the recursive serializer: any well-bracketed calls that succeed on a new
      message and close every nest leave the serialization of the tree they describe. */
  method Session(cap: nat, cs: seq<Call>) returns (m: Message, ok: bool)
    requires Bracketed(cs, 0) && Sized(HDRLEN + Align(cap), [Frame(0, [])], cs)
    ensures m.Valid() && fresh(m) && fresh(m.buf) && m.buf.Length == HDRLEN + Align(cap)
    ensures ok == ExecAll(m.buf.Length, [Frame(0, [])], cs).Some?
    ensures ok ==> m.frames == ExecAll(m.buf.Length, [Frame(0, [])], cs).value && |m.frames| == 1 + Opens(cs)
    ensures ok && Opens(cs) == 0 ==>
      var xs := m.frames[0].items;
      m.Len() == HDRLEN + SizeAll(xs) && m.buf[..m.Len()] == SerializeMessage(Zeros(12), xs)
  {
    hide ExecAll, Bracketed, Opens, OpenBytes, Buffer, SerializeAll, SerializeMessage, Message.Valid, Message.Intact;
    m := new Message(cap);
    ok := RunCalls(m, cs);
    if ok {
      OpensCount(m.buf.Length, [Frame(0, [])], cs);
      if Opens(cs) == 0 {
        assert m.frames == [Frame(m.frames[0].typ, m.frames[0].items)];
        FinishedMessage(m, m.frames[0].items);
      }
    }
  }

  lemma {:induction false} OpensCount(cap: nat, fs: seq<Frame>, cs: seq<Call>)
    requires fs != [] && ExecAll(cap, fs, cs).Some?
    ensures |ExecAll(cap, fs, cs).value| == |fs| + Opens(cs)
    decreases cs
  {
    if cs != [] {
      OpensCount(cap, Exec(cap, fs, cs[0]).value, cs[1..]);
    }
  }

  /** Every tree can be built, exactly when it fits in the capacity, and a receiver recovers it exactly when
      no attribute is longer than its 16-bit length field can say. */
  method BuildTree(cap: nat, xs: seq<Item>, sc: Schema) returns (m: Message, ok: bool)
    requires Conforms(sc, xs) && (HDRLEN + Align(cap) < 0x1_0000_0000 || HDRLEN + SizeAll(xs) < 0x1_0000_0000)
    ensures m.Valid() && fresh(m) && fresh(m.buf)
    ensures ok <==> SizeAll(xs) <= Align(cap)
    ensures ok ==> m.Len() == HDRLEN + SizeAll(xs) && m.buf[..m.Len()] == SerializeMessage(Zeros(12), xs)
    ensures ok ==> (ParseMessage(sc, m.buf[..m.Len()]) == Some((Zeros(12), xs)) <==> FitsAll(xs))
  {
    hide ExecAll, Bracketed, CallsAll, Conforms, FitsAll, ParseMessage;
    hide OpenBytes, Buffer, SerializeAll, SerializeMessage, Message.Valid, Message.Intact;
    CallsAllAreBracketed(xs, 0);
    m := new Message(cap);
    ExecTree(m.buf.Length, xs);
    ExecTree(0xffff_ffff, xs);
    ok := RunCalls(m, CallsAll(xs));
    if ok {
      FinishedMessage(m, xs);
      RoundTrip(sc, Zeros(12), xs);
    }
  }

  /** The calls for a tree, on a new message. */
  lemma ExecTree(cap: nat, xs: seq<Item>)
    requires HDRLEN <= cap
    ensures ExecAll(cap, [Frame(0, [])], CallsAll(xs)) == if HDRLEN + SizeAll(xs) <= cap then Some([Frame(0, xs)]) else None
  {
    hide OpenBytes, SerializeAll, ExecAll, CallsAll;
    OneFrame(0, []);
    NoItems();
    ExecItems(cap, [Frame(0, [])], xs);
    assert [] + xs == xs;
    assert AddItems([Frame(0, [])], xs) == [Frame(0, xs)];
  }
}
