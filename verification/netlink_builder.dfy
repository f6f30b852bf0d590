/** The in-place message builder of toy_docker/step_network/lxc_network/nl.c.

    A message is one fixed buffer.  Its first four bytes hold nlmsg_len; attributes are appended at the
    aligned tail; nla_end_nested goes back and patches the length of an attribute already written. */
module NetlinkBuilder {
  import opened Base
  import opened NetlinkFormat

  // ---------------------------------------------------------------------------------------------
  // What the buffer holds, as a function of the calls made so far
  // ---------------------------------------------------------------------------------------------

  /** A nested attribute that has been begun and not ended, and the items put in it so far.  The outermost
      frame stands for the message itself. */
  datatype Frame = Frame(typ: nat, items: seq<Item>)

  /** Bytes written so far; a nested attribute still open carries the length of an empty one. */
  function OpenBytes(fs: seq<Frame>): seq<byte> {
    if fs == [] then [] else
    var inner := fs[|fs| - 1];
    OpenBytes(fs[..|fs| - 1]) + (if |fs| == 1 then [] else Attribute(inner.typ, [])) + SerializeAll(inner.items)
  }

  function AddItem(fs: seq<Frame>, x: Item): seq<Frame>
    requires fs != []
  {
    var n := |fs| - 1;
    fs[n := fs[n].(items := fs[n].items + [x])]
  }

  function Open(fs: seq<Frame>, typ: nat): seq<Frame> {
    fs + [Frame(typ, [])]
  }

  function Close(fs: seq<Frame>): seq<Frame>
    requires |fs| >= 2
  {
    var n := |fs| - 1;
    AddItem(fs[..n], Nest(fs[n].typ, fs[n].items))
  }

  lemma Assoc(a: seq<byte>, b: seq<byte>, c: seq<byte>)
    ensures (a + b) + c == a + (b + c)
  {
  }

  function OpenUnits(fs: seq<Frame>): nat {
    if fs == [] then 0 else
    OpenUnits(fs[..|fs| - 1]) + (if |fs| == 1 then 0 else 1) + ItemsUnits(fs[|fs| - 1].items)
  }

  /** Everything in a message is aligned. */
  lemma {:induction false} OpenAligned(fs: seq<Frame>)
    ensures |OpenBytes(fs)| == 4 * OpenUnits(fs)
    ensures Align(HDRLEN + |OpenBytes(fs)|) == HDRLEN + |OpenBytes(fs)|
  {
    hide SerializeAll, Attribute, ItemsUnits, Align;
    if fs != [] {
      OpenAligned(fs[..|fs| - 1]);
      AlignUnits(1);
    }
    AlignUnits(4 + OpenUnits(fs));
  }

  lemma AddItemBytes(fs: seq<Frame>, x: Item)
    requires fs != []
    ensures OpenBytes(AddItem(fs, x)) == OpenBytes(fs) + Serialize(x)
  {
    hide SerializeAll, Serialize, Attribute;
    var n := |fs| - 1;
    var inner, fs' := fs[n], AddItem(fs, x);
    assert fs'[..n] == fs[..n];
    SerializeAppend(inner.items, x);
    var front := OpenBytes(fs[..n]) + (if n == 0 then [] else Attribute(inner.typ, []));
    Assoc(front, SerializeAll(inner.items), Serialize(x));
  }

  lemma NoItems()
    ensures SerializeAll([]) == []
  {
  }

  lemma OpenAddsHeader(fs: seq<Frame>, typ: nat)
    requires fs != []
    ensures OpenBytes(Open(fs, typ)) == OpenBytes(fs) + Attribute(typ, [])
  {
    hide Attribute, SerializeAll;
    assert Open(fs, typ)[..|fs|] == fs;
    assert SerializeAll([]) == [] by { NoItems(); }
  }

  /** nla_begin_nested writes an attribute without payload. */
  lemma OpenLikeEmptyLeaf(fs: seq<Frame>, typ: nat)
    requires fs != []
    ensures OpenBytes(Open(fs, typ)) == OpenBytes(AddItem(fs, Leaf(typ, [])))
  {
    hide OpenBytes, Attribute;
    AddItemBytes(fs, Leaf(typ, []));
    OpenAddsHeader(fs, typ);
  }

  lemma CloseBytes(fs: seq<Frame>)
    requires |fs| >= 2
    ensures var n := |fs| - 1; var body := SerializeAll(fs[n].items);
            && OpenBytes(fs) == OpenBytes(fs[..n]) + Attribute(fs[n].typ, []) + body
            && OpenBytes(Close(fs)) == OpenBytes(fs[..n]) + Attribute(fs[n].typ, body)
  {
    hide Attribute, SerializeAll, AddItem;
    var n := |fs| - 1;
    AddItemBytes(fs[..n], Nest(fs[n].typ, fs[n].items));
  }

  // ---------------------------------------------------------------------------------------------
  // The whole buffer, and overwriting parts of it
  // ---------------------------------------------------------------------------------------------

  /** nlmsg_len, the other 12 header bytes, the payload, and zeros up to the capacity. */
  function Buffer(rest: seq<byte>, p: seq<byte>, cap: nat): (b: seq<byte>)
    requires |rest| == 12 && HDRLEN + |p| <= cap
    ensures |b| == cap
  {
    Le32(HDRLEN + |p|) + (rest + p) + Zeros(cap - HDRLEN - |p|)
  }

  /** s with the bytes at offset `off` replaced by bs. */
  function Patch(s: seq<byte>, off: nat, bs: seq<byte>): (r: seq<byte>)
    requires off + |bs| <= |s|
    ensures |r| == |s|
  {
    s[..off] + bs + s[off + |bs|..]
  }

  lemma PatchMiddle(a: seq<byte>, b: seq<byte>, c: seq<byte>, bs: seq<byte>)
    requires |b| == |bs|
    ensures Patch(a + b + c, |a|, bs) == a + bs + c
  {
  }

  lemma PatchAt(s: seq<byte>, off: nat, x: seq<byte>, y: seq<byte>, z: seq<byte>, bs: seq<byte>)
    requires s == x + y + z && off == |x| && |y| == |bs|
    ensures off + |bs| <= |s| && Patch(s, off, bs) == x + bs + z
  {
    PatchMiddle(x, y, z, bs);
  }

  /** A sequence cut at three places, grouped in each way. */
  lemma Regroup(x: seq<byte>, y: seq<byte>, z: seq<byte>, w: seq<byte>)
    ensures (x + y) + z + w == x + y + (z + w)
    ensures x + (y + z) + w == x + y + (z + w)
  {
  }

  lemma Cut(s: seq<byte>, i: nat, j: nat, k: nat)
    requires i <= j <= k <= |s|
    ensures s == s[..i] + s[i..j] + (s[j..k] + s[k..])
  {
  }

  /** Writing two adjacent pieces, the second first. */
  lemma PatchJoin(s: seq<byte>, off: nat, a: seq<byte>, b: seq<byte>)
    requires off + |a| + |b| <= |s|
    ensures Patch(Patch(s, off + |a|, b), off, a) == Patch(s, off, a + b)
  {
    hide Patch;
    var j, k := off + |a|, off + |a| + |b|;
    var x, y, z, w := s[..off], s[off..j], s[j..k], s[k..];
    Cut(s, off, j, k);
    Regroup(x, y, z, w);
    PatchAt(s, j, x + y, z, w, b);
    Regroup(x, y, b, w);
    PatchAt(Patch(s, j, b), off, x, y, b + w, a);
    PatchAt(s, off, x, y + z, w, a + b);
    Regroup(x, a, b, w);
  }

  /** Writing two adjacent pieces, the first first. */
  lemma PatchJoinAfter(s: seq<byte>, off: nat, a: seq<byte>, b: seq<byte>)
    requires off + |a| + |b| <= |s|
    ensures Patch(Patch(s, off, a), off + |a|, b) == Patch(s, off, a + b)
  {
    hide Patch;
    var j, k := off + |a|, off + |a| + |b|;
    var x, y, z, w := s[..off], s[off..j], s[j..k], s[k..];
    Cut(s, off, j, k);
    Regroup(x, y, z, w);
    PatchAt(s, off, x, y, z + w, a);
    Regroup(x, a, z, w);
    PatchAt(Patch(s, off, a), j, x + a, z, w, b);
    PatchAt(s, off, x, y + z, w, a + b);
    Regroup(x, a, b, w);
  }

  /** Writes that do not overlap commute. */
  lemma PatchesCommute(s: seq<byte>, i: nat, a: seq<byte>, j: nat, b: seq<byte>)
    requires i + |a| <= j && j + |b| <= |s|
    ensures Patch(Patch(s, i, a), j, b) == Patch(Patch(s, j, b), i, a)
  {
    hide Patch;
    var x, y, z, v, w := s[..i], s[i..i + |a|], s[i + |a|..j], s[j..j + |b|], s[j + |b|..];
    assert s == x + y + (z + v + w);
    CommuteParts(s, x, y, z, v, w, a, b);
  }

  lemma CommuteParts(s: seq<byte>, x: seq<byte>, y: seq<byte>, z: seq<byte>, v: seq<byte>, w: seq<byte>,
                     a: seq<byte>, b: seq<byte>)
    requires s == x + y + (z + v + w) && |y| == |a| && |v| == |b|
    ensures Patch(Patch(s, |x|, a), |x| + |y| + |z|, b) == Patch(Patch(s, |x| + |y| + |z|, b), |x|, a)
  {
    hide Patch;
    FiveParts(x, y, z, v, w);
    PatchAt(s, |x|, x, y, z + v + w, a);
    FiveParts(x, a, z, v, w);
    PatchAt(Patch(s, |x|, a), |x| + |y| + |z|, x + a + z, v, w, b);
    PatchAt(s, |x| + |y| + |z|, x + y + z, v, w, b);
    FiveParts(x, y, z, b, w);
    PatchAt(Patch(s, |x| + |y| + |z|, b), |x|, x, y, z + b + w, a);
    FiveParts(x, a, z, b, w);
  }

  lemma FiveParts(x: seq<byte>, y: seq<byte>, z: seq<byte>, v: seq<byte>, w: seq<byte>)
    ensures x + y + (z + v + w) == (x + y + z) + v + w
  {
  }

  lemma TailSplice(h: seq<byte>, h': seq<byte>, m: seq<byte>, bs: seq<byte>, k: nat, pad: nat)
    requires |h| == |h'| && |bs| + pad <= k
    ensures Patch(Patch(h + m + Zeros(k), |h| + |m|, bs), 0, h') == h' + (m + (bs + Zeros(pad))) + Zeros(k - |bs| - pad)
  {
  }

  lemma MiddleSplice(h: seq<byte>, r: seq<byte>, o: seq<byte>, l: seq<byte>, l': seq<byte>, t: seq<byte>, z: seq<byte>)
    requires |l| == |l'|
    ensures Patch(h + (r + (o + (l + t))) + z, |h| + |r| + |o|, l') == h + (r + (o + (l' + t))) + z
  {
  }

  /** Writing bs in the zeroed tail and growing the length to cover it and its padding appends to the payload. */
  lemma PatchTail(rest: seq<byte>, p: seq<byte>, cap: nat, bs: seq<byte>, pad: nat)
    requires |rest| == 12 && HDRLEN + |p| + |bs| + pad <= cap
    ensures Patch(Patch(Buffer(rest, p, cap), HDRLEN + |p|, bs), 0, Le32(HDRLEN + |p| + |bs| + pad))
         == Buffer(rest, p + (bs + Zeros(pad)), cap)
  {
    hide Le32, Patch, Zeros;
    TailSplice(Le32(HDRLEN + |p|), Le32(HDRLEN + |p| + |bs| + pad), rest + p, bs, cap - HDRLEN - |p|, pad);
    Assoc(rest, p, bs + Zeros(pad));
  }

  /** The four writes of nla_put: type, length, data and the new message length. */
  lemma PatchAttribute(rest: seq<byte>, p: seq<byte>, cap: nat, typ: nat, data: seq<byte>)
    requires |rest| == 12 && HDRLEN + |p| + Align(ATTRLEN + |data|) <= cap
    ensures var tail, len := HDRLEN + |p|, ATTRLEN + |data|;
            var s := Patch(Patch(Patch(Buffer(rest, p, cap), tail + 2, Le16(typ)), tail, Le16(len)), tail + 4, data);
            Patch(s, 0, Le32(tail + Align(len))) == Buffer(rest, p + Attribute(typ, data), cap)
  {
    hide Le16, Le32, Patch, Align, Zeros, Buffer;
    var tail, len := HDRLEN + |p|, ATTRLEN + |data|;
    PatchJoin(Buffer(rest, p, cap), tail, Le16(len), Le16(typ));
    PatchJoinAfter(Buffer(rest, p, cap), tail, Le16(len) + Le16(typ), data);
    PatchTail(rest, p, cap, Le16(len) + Le16(typ) + data, Align(len) - len);
  }

  /** The two length bytes are all that distinguishes an open attribute from a closed one. */
  lemma OpenAndClosed(typ: nat, outer: seq<byte>, body: seq<byte>)
    requires Align(ATTRLEN + |body|) == ATTRLEN + |body|
    ensures outer + Attribute(typ, []) + body == outer + (Le16(ATTRLEN) + (Le16(typ) + body))
    ensures outer + Attribute(typ, body) == outer + (Le16(ATTRLEN + |body|) + (Le16(typ) + body))
  {
    hide Le16, Align;
    assert Align(ATTRLEN) == ATTRLEN by { AlignUnits(1); }
    assert Attribute(typ, []) == Le16(ATTRLEN) + Le16(typ);
    assert Attribute(typ, body) == Le16(ATTRLEN + |body|) + (Le16(typ) + body);
  }

  lemma PatchLength(rest: seq<byte>, typ: nat, outer: seq<byte>, body: seq<byte>, cap: nat)
    requires |rest| == 12 && Align(ATTRLEN + |body|) == ATTRLEN + |body| && HDRLEN + |outer| + ATTRLEN + |body| <= cap
    ensures Patch(Buffer(rest, outer + Attribute(typ, []) + body, cap), HDRLEN + |outer|, Le16(ATTRLEN + |body|))
         == Buffer(rest, outer + Attribute(typ, body), cap)
  {
    hide Le16, Le32, Align, Patch, Attribute, Zeros;
    assert Align(ATTRLEN) == ATTRLEN by { AlignUnits(1); }
    OpenAndClosed(typ, outer, body);
    var len := HDRLEN + |outer| + ATTRLEN + |body|;
    MiddleSplice(Le32(len), rest, outer, Le16(ATTRLEN), Le16(ATTRLEN + |body|), Le16(typ) + body, Zeros(cap - len));
  }

  lemma PatchNothing(s: seq<byte>, off: nat)
    requires off <= |s|
    ensures Patch(s, off, []) == s
  {
  }

  /** Reserving a block grows the length over zeros. */
  lemma PatchReserve(rest: seq<byte>, p: seq<byte>, cap: nat, n: nat)
    requires |rest| == 12 && HDRLEN + |p| + n <= cap
    ensures Patch(Buffer(rest, p, cap), 0, Le32(HDRLEN + |p| + n)) == Buffer(rest, p + Zeros(n), cap)
  {
    PatchNothing(Buffer(rest, p, cap), HDRLEN + |p|);
    hide Le32, Patch, Zeros, Buffer;
    PatchTail(rest, p, cap, [], n);
    assert [] + Zeros(n) == Zeros(n);
  }

  /** Zeroing padding that is zero already changes nothing. */
  lemma PatchPadding(rest: seq<byte>, p: seq<byte>, cap: nat, len: nat, pad: nat)
    requires |rest| == 12 && HDRLEN + |p| + len + pad <= cap
    ensures var b := Buffer(rest, p + Zeros(len + pad), cap);
            Patch(b, HDRLEN + |p| + len, Zeros(pad)) == b
  {
    hide Le32, Patch, Zeros;
    var total := HDRLEN + |p| + len + pad;
    PatchZeros(Le32(total), rest, p, len, pad, Zeros(cap - total));
  }

  lemma PatchZeros(h: seq<byte>, rest: seq<byte>, p: seq<byte>, len: nat, pad: nat, c: seq<byte>)
    ensures Patch(h + (rest + (p + Zeros(len + pad))) + c, |h| + |rest| + |p| + len, Zeros(pad))
         == h + (rest + (p + Zeros(len + pad))) + c
  {
    var a := h + rest + p + Zeros(len);
    assert h + (rest + (p + Zeros(len + pad))) + c == a + Zeros(pad) + c;
    PatchMiddle(a, Zeros(pad), c, Zeros(pad));
  }

  /** Overwriting a prefix of a reserved block at the end of the payload. */
  lemma PatchBlock(rest: seq<byte>, p: seq<byte>, block: seq<byte>, bs: seq<byte>, cap: nat)
    requires |rest| == 12 && |bs| <= |block| && HDRLEN + |p| + Align(|block|) <= cap
    ensures |bs + block[|bs|..]| == |block|
    ensures Patch(Buffer(rest, p + Serialize(Raw(block)), cap), HDRLEN + |p|, bs)
         == Buffer(rest, p + Serialize(Raw(bs + block[|bs|..])), cap)
  {
    hide Le32, Patch, Zeros, Align;
    var len, z := HDRLEN + |p| + Align(|block|), Zeros(Align(|block|) - |block|);
    assert Serialize(Raw(block)) == block[..|bs|] + (block[|bs|..] + z);
    assert Serialize(Raw(bs + block[|bs|..])) == bs + (block[|bs|..] + z);
    MiddleSplice(Le32(len), rest, p, block[..|bs|], bs, block[|bs|..] + z, Zeros(cap - len));
  }

  lemma PatchRest(rest: seq<byte>, p: seq<byte>, cap: nat, k: nat, bs: seq<byte>)
    requires |rest| == 12 && HDRLEN + |p| <= cap && k + |bs| <= 12
    ensures Patch(Buffer(rest, p, cap), 4 + k, bs) == Buffer(Patch(rest, k, bs), p, cap)
  {
  }

  lemma TypeAndFlags(rest: seq<byte>, typ: seq<byte>, flags: seq<byte>)
    requires |rest| == 12 && |typ| == |flags| == 2
    ensures Patch(Patch(rest, 2, flags), 0, typ) == typ + flags + rest[4..]
  {
  }

  // ---------------------------------------------------------------------------------------------
  // Filling a reserved block
  // ---------------------------------------------------------------------------------------------

  /** The most recent item of the innermost frame is a reserved block with room for n bytes. */
  predicate LastIsBlock(fs: seq<Frame>, n: nat) {
    && fs != []
    && var xs := fs[|fs| - 1].items;
       xs != [] && xs[|xs| - 1].Raw? && n <= |xs[|xs| - 1].bytes|
  }

  function LastBlock(fs: seq<Frame>): seq<byte>
    requires LastIsBlock(fs, 0)
  {
    var xs := fs[|fs| - 1].items;
    xs[|xs| - 1].bytes
  }

  function DropLast(fs: seq<Frame>): seq<Frame>
    requires LastIsBlock(fs, 0)
  {
    var n := |fs| - 1;
    fs[n := fs[n].(items := fs[n].items[..|fs[n].items| - 1])]
  }

  /** The block reserved last gets new first bytes. */
  function FillLast(fs: seq<Frame>, bs: seq<byte>): seq<Frame>
    requires LastIsBlock(fs, |bs|)
  {
    AddItem(DropLast(fs), Raw(bs + LastBlock(fs)[|bs|..]))
  }

  lemma DropAndAdd(fs: seq<Frame>)
    requires LastIsBlock(fs, 0)
    ensures AddItem(DropLast(fs), Raw(LastBlock(fs))) == fs
  {
    var xs := fs[|fs| - 1].items;
    assert xs[..|xs| - 1] + [Raw(LastBlock(fs))] == xs;
  }

  lemma DropLastBytes(fs: seq<Frame>)
    requires LastIsBlock(fs, 0)
    ensures OpenBytes(fs) == OpenBytes(DropLast(fs)) + Serialize(Raw(LastBlock(fs)))
  {
    assert AddItem(DropLast(fs), Raw(LastBlock(fs))) == fs by { DropAndAdd(fs); }
    hide OpenBytes, Serialize, AddItem, DropLast, LastBlock;
    AddItemBytes(DropLast(fs), Raw(LastBlock(fs)));
  }

  // ---------------------------------------------------------------------------------------------
  // Each operation's writes, on the whole buffer
  // ---------------------------------------------------------------------------------------------

  lemma PutBytes(rest: seq<byte>, fs: seq<Frame>, p: seq<byte>, cap: nat, typ: nat, data: seq<byte>, tail: nat, len: nat, tlen: nat)
    requires fs != [] && p == OpenBytes(fs)
    requires |rest| == 12 && tail == HDRLEN + |p| && len == ATTRLEN + |data| && tlen == tail + Align(len) <= cap
    ensures HDRLEN + |OpenBytes(AddItem(fs, Leaf(typ, data)))| == tlen
    ensures Patch(Patch(Patch(Patch(Buffer(rest, p, cap), tail + 2, Le16(typ)), tail, Le16(len)), tail + ATTRLEN, data), 0, Le32(tlen))
         == Buffer(rest, OpenBytes(AddItem(fs, Leaf(typ, data))), cap)
  {
    hide OpenBytes, Patch, Buffer, Attribute, Le16, Le32, AddItem, Align;
    PatchAttribute(rest, p, cap, typ, data);
    AddItemBytes(fs, Leaf(typ, data));
  }

  lemma EndNestedBytes(rest: seq<byte>, fs: seq<Frame>, p: seq<byte>, cap: nat, attr: nat, len: nat)
    requires |fs| >= 2 && p == OpenBytes(fs)
    requires |rest| == 12 && HDRLEN + |p| <= cap
    requires attr == HDRLEN + |OpenBytes(fs[..|fs| - 1])| && attr + len == HDRLEN + |p|
    ensures |OpenBytes(Close(fs))| == |p| && len >= ATTRLEN
    ensures Patch(Buffer(rest, p, cap), attr, Le16(len)) == Buffer(rest, OpenBytes(Close(fs)), cap)
  {
    hide OpenBytes, SerializeAll, Patch, Buffer, Attribute, Le16, Close, Align, ItemsUnits;
    var n := |fs| - 1;
    var outer, body := OpenBytes(fs[..n]), SerializeAll(fs[n].items);
    CloseBytes(fs);
    AlignUnits(1);
    AlignUnits(1 + ItemsUnits(fs[n].items));
    PatchLength(rest, fs[n].typ, outer, body, cap);
  }

  /** Ending an outer nest before the one inside it, with nothing put in between, comes to the same bytes. */
  lemma EndsInEitherOrder(rest: seq<byte>, fs: seq<Frame>, cap: nat)
    requires |fs| >= 3 && |rest| == 12 && HDRLEN + |OpenBytes(fs)| <= cap
    ensures var n, len := |fs| - 1, HDRLEN + |OpenBytes(fs)|;
            var inner, outer := HDRLEN + |OpenBytes(fs[..n])|, HDRLEN + |OpenBytes(fs[..n - 1])|;
            && outer + ATTRLEN <= inner && inner + ATTRLEN <= len && |OpenBytes(Close(Close(fs)))| == |OpenBytes(fs)|
            && Patch(Patch(Buffer(rest, OpenBytes(fs), cap), outer, Le16(len - outer)), inner, Le16(len - inner))
               == Buffer(rest, OpenBytes(Close(Close(fs))), cap)
  {
    hide OpenBytes, Patch, Buffer, Le16, Close;
    var n, len := |fs| - 1, HDRLEN + |OpenBytes(fs)|;
    var inner, outer := HDRLEN + |OpenBytes(fs[..n])|, HDRLEN + |OpenBytes(fs[..n - 1])|;
    OuterFirst(fs);
    EndNestedBytes(rest, fs, OpenBytes(fs), cap, inner, len - inner);
    EndNestedBytes(rest, Close(fs), OpenBytes(Close(fs)), cap, outer, len - outer);
    PatchesCommute(Buffer(rest, OpenBytes(fs), cap), outer, Le16(len - outer), inner, Le16(len - inner));
  }

  /** An outer nest has its header before that of the nest inside it, and keeps its place when that is closed. */
  lemma OuterFirst(fs: seq<Frame>)
    requires |fs| >= 3
    ensures var n := |fs| - 1;
            && |Close(fs)| == n && Close(fs)[..n - 1] == fs[..n - 1]
            && |OpenBytes(fs[..n - 1])| + ATTRLEN <= |OpenBytes(fs[..n])|
            && |OpenBytes(fs[..n])| + ATTRLEN <= |OpenBytes(fs)|
  {
    hide SerializeAll, Attribute;
    var n := |fs| - 1;
    assert fs[..n][..n - 1] == fs[..n - 1];
    assert Align(ATTRLEN) == ATTRLEN by { AlignUnits(1); }
  }

  /** In an open message the innermost header is in the part already written. */
  lemma HeaderBelowTail(fs: seq<Frame>)
    requires |fs| >= 2
    ensures |OpenBytes(fs[..|fs| - 1])| + ATTRLEN <= |OpenBytes(fs)|
  {
    hide SerializeAll, Attribute;
    assert Align(ATTRLEN) == ATTRLEN by { AlignUnits(1); }
  }

  lemma RawZeros(len: nat)
    ensures Serialize(Raw(Zeros(len))) == Zeros(Align(len))
  {
  }

  lemma ReserveBytes(rest: seq<byte>, fs: seq<Frame>, p: seq<byte>, cap: nat, len: nat, tail: nat, tlen: nat)
    requires fs != [] && p == OpenBytes(fs)
    requires |rest| == 12 && tail == HDRLEN + |p| && tlen == Align(len) && tail + tlen <= cap
    ensures OpenBytes(AddItem(fs, Raw(Zeros(len)))) == p + Zeros(tlen)
    ensures Patch(Buffer(rest, p, cap), 0, Le32(tail + tlen)) == Buffer(rest, p + Zeros(tlen), cap)
  {
    hide OpenBytes, Serialize, Patch, Buffer, Le32, AddItem, Zeros, Align;
    AddItemBytes(fs, Raw(Zeros(len)));
    RawZeros(len);
    PatchReserve(rest, p, cap, tlen);
  }

  lemma RawLength(bytes: seq<byte>)
    ensures |Serialize(Raw(bytes))| == Align(|bytes|)
  {
  }

  lemma FillBytes(rest: seq<byte>, fs: seq<Frame>, p: seq<byte>, cap: nat, bs: seq<byte>, off: nat)
    requires LastIsBlock(fs, |bs|) && p == OpenBytes(fs)
    requires |rest| == 12 && HDRLEN + |p| <= cap && off + Align(|LastBlock(fs)|) == HDRLEN + |p|
    ensures |OpenBytes(FillLast(fs, bs))| == |p|
    ensures Patch(Buffer(rest, p, cap), off, bs) == Buffer(rest, OpenBytes(FillLast(fs, bs)), cap)
  {
    hide OpenBytes, Serialize, Patch, Buffer, Align, AddItem, DropLast, LastBlock, LastIsBlock, FillLast;
    FillParts(fs, bs);
    FillInPlace(rest, p, OpenBytes(DropLast(fs)), OpenBytes(FillLast(fs, bs)), cap, LastBlock(fs), bs, off);
  }

  /** Filling the block changes the payload behind the same front part. */
  lemma FillParts(fs: seq<Frame>, bs: seq<byte>)
    requires LastIsBlock(fs, |bs|)
    ensures LastIsBlock(fs, 0) && |bs| <= |LastBlock(fs)|
    ensures OpenBytes(fs) == OpenBytes(DropLast(fs)) + Serialize(Raw(LastBlock(fs)))
    ensures OpenBytes(FillLast(fs, bs)) == OpenBytes(DropLast(fs)) + Serialize(Raw(bs + LastBlock(fs)[|bs|..]))
  {
    FillLastIsAdd(fs, bs);
    hide OpenBytes, Serialize, AddItem, DropLast, LastBlock, LastIsBlock, FillLast;
    DropLastBytes(fs);
    AddItemBytes(DropLast(fs), Raw(bs + LastBlock(fs)[|bs|..]));
  }

  lemma FillInPlace(rest: seq<byte>, p: seq<byte>, q: seq<byte>, p': seq<byte>, cap: nat, block: seq<byte>, bs: seq<byte>, off: nat)
    requires |bs| <= |block| && |rest| == 12 && HDRLEN + |p| <= cap && off + Align(|block|) == HDRLEN + |p|
    requires p == q + Serialize(Raw(block)) && p' == q + Serialize(Raw(bs + block[|bs|..]))
    ensures |p'| == |p| && Patch(Buffer(rest, p, cap), off, bs) == Buffer(rest, p', cap)
  {
    hide Serialize, Patch, Buffer, Align;
    RawLength(block);
    RawLength(bs + block[|bs|..]);
    PatchBlock(rest, q, block, bs, cap);
  }

  lemma FillLastIsAdd(fs: seq<Frame>, bs: seq<byte>)
    requires LastIsBlock(fs, |bs|)
    ensures LastIsBlock(fs, 0) && DropLast(fs) != [] && |bs| <= |LastBlock(fs)|
    ensures FillLast(fs, bs) == AddItem(DropLast(fs), Raw(bs + LastBlock(fs)[|bs|..]))
  {
  }

  // ---------------------------------------------------------------------------------------------
  // The message object
  // ---------------------------------------------------------------------------------------------

  const ENOMEM := 12

  class Message {
    const buf: array<byte>        // the nlmsghdr memory; cap is its length
    ghost var rest: seq<byte>     // header bytes 4 to 15
    ghost var frames: seq<Frame>  // what has been built so far
    ghost var payload: seq<byte>  // its bytes

    /** The buffer holds what has been built, and the low 32 bits of its length. */
    ghost predicate Intact()
      reads this, buf
    {
      && |rest| == 12 && frames != []
      && payload == OpenBytes(frames)
      && Len() <= buf.Length
      && buf[..] == Buffer(rest, payload, buf.Length)
    }

    /** Moreover the length fits nlmsg_len, so that the next call finds the tail. */
    ghost predicate Valid()
      reads this, buf
    {
      Intact() && Len() < 0x1_0000_0000
    }

    ghost function Len(): nat
      reads this
    {
      HDRLEN + |payload|
    }

    /** nlmsg_alloc: a zeroed buffer holding an empty message. */
    constructor (size: nat)
      ensures Valid() && fresh(buf)
      ensures buf.Length == HDRLEN + Align(size)
      ensures rest == Zeros(12) && frames == [Frame(0, [])] && Len() == HDRLEN
    {
      buf := new byte[HDRLEN + Align(size)](_ => 0);
      rest, frames, payload := Zeros(12), [Frame(0, [])], [];
      new;
      Write(0, Le32(HDRLEN));
      assert OpenBytes(frames[..0]) == [];
      assert OpenBytes(frames) == [];
    }

    /** memcpy into the buffer. */
    method Write(off: nat, bs: seq<byte>)
      requires off + |bs| <= buf.Length
      modifies buf
      ensures buf[..] == Patch(old(buf[..]), off, bs)
    {
      var i := 0;
      while i < |bs|
        invariant 0 <= i <= |bs|
        invariant buf[off..off + i] == bs[..i]
        invariant buf[..off] == old(buf[..off]) && buf[off + i..] == old(buf[off + i..])
      {
        buf[off + i] := bs[i];
        i := i + 1;
      }
      assert buf[..] == buf[..off] + buf[off..off + |bs|] + buf[off + |bs|..];
    }

    /** What nlmsg_len says: the length of the message, but only its low 32 bits. */
    lemma StoredLength()
      requires Intact()
      ensures buf.Length >= HDRLEN && FromLe32(buf[..4]) == Len() % 0x1_0000_0000
    {
      hide OpenBytes, Le32, FromLe32;
      Le32RoundTrip(Len());
      assert buf[..4] == buf[..][..4] == Le32(Len());
    }

    /** nlmsg_len as stored in the first four bytes. */
    method Length() returns (len: nat)
      requires Valid()
      ensures len == Len()
    {
      var b0, b1, b2, b3 := buf[0], buf[1], buf[2], buf[3];
      len := b0 as int + 256 * (b1 as int) + 65536 * (b2 as int + 256 * (b3 as int));
      assert buf[..][..4] == Le32(Len());
      Le32Exact(Len());
      assert buf[..][..4] == [b0, b1, b2, b3];
      assert [b0, b1, b2, b3][..2] == [b0, b1] && [b0, b1, b2, b3][2..] == [b2, b3];
    }

    /** Records what the buffer now holds. */
    ghost method Built(fs: seq<Frame>)
      requires fs != [] && |rest| == 12
      requires HDRLEN + |OpenBytes(fs)| <= buf.Length && buf[..] == Buffer(rest, OpenBytes(fs), buf.Length)
      modifies this`frames, this`payload
      ensures Intact() && frames == fs && payload == OpenBytes(fs)
    {
      frames, payload := fs, OpenBytes(fs);
    }

    /** nla_put, behind nla_put_buffer, nla_put_string, nla_put_u16, nla_put_u32 and nla_put_attr. */
    method Put(attr: nat, data: seq<byte>) returns (err: int)
      requires Valid()
      modifies this`frames, this`payload, buf
      ensures Intact() && (Len() < 0x1_0000_0000 ==> Valid())
      ensures err == if old(Len()) + Size(Leaf(attr, data)) <= buf.Length then 0 else -12
      ensures frames == if err == 0 then AddItem(old(frames), Leaf(attr, data)) else old(frames)
      ensures Len() == old(Len()) + if err == 0 then Size(Leaf(attr, data)) else 0
    {
      hide OpenBytes, Patch, Buffer, Serialize, SerializeAll, Le16, Le32;
      var len := Length();
      assert Align(len) == len by { OpenAligned(frames); }
      var rtalen := ATTRLEN + |data|;
      var tlen := Align(len) + Align(rtalen);
      assert Size(Leaf(attr, data)) == Align(rtalen);
      if tlen > buf.Length {
        return -ENOMEM;
      }
      var tail := Align(len);
      PutBytes(rest, frames, payload, buf.Length, attr, data, tail, rtalen, tlen);
      Write(tail + 2, Le16(attr));
      Write(tail, Le16(rtalen));
      Write(tail + ATTRLEN, data);
      Write(0, Le32(tlen));
      Built(AddItem(frames, Leaf(attr, data)));
      return 0;
    }

    /** nla_begin_nested: the offset of the attribute header, or None for NULL. */
    method BeginNested(attr: nat) returns (pos: Option<nat>)
      requires Valid()
      modifies this`frames, this`payload, buf
      ensures Intact() && (Len() < 0x1_0000_0000 ==> Valid())
      ensures pos == if old(Len()) + ATTRLEN <= buf.Length then Some(old(Len())) else None
      ensures old(Len()) == HDRLEN + |OpenBytes(old(frames))|
      ensures frames == if pos.Some? then Open(old(frames), attr) else old(frames)
      ensures Len() == old(Len()) + if pos.Some? then ATTRLEN else 0
    {
      hide OpenBytes, Patch, Buffer, Serialize, SerializeAll, Le16, Le32;
      var len := Length();
      assert Align(len) == len by { OpenAligned(frames); }
      ghost var before := frames;
      var err := Put(attr, []);
      if err != 0 {
        return None;
      }
      OpenLikeEmptyLeaf(before, attr);
      Built(Open(before, attr));
      return Some(Align(len));
    }

    /** The attribute header at this offset is the one of the innermost open nest. */
    ghost predicate Innermost(attr: nat)
      reads `frames
    {
      |frames| >= 2 && attr == HDRLEN + |OpenBytes(frames[..|frames| - 1])|
    }

    /** nla_end_nested: patches the two length bytes of an attribute already written.  On the innermost open nest
        that closes the nest. */
    method EndNested(attr: nat)
      requires Valid() && attr + 2 <= Len()
      modifies this`frames, this`payload, buf
      ensures Len() == old(Len()) && buf[..] == Patch(old(buf[..]), attr, Le16(old(Len()) - attr))
      ensures old(Innermost(attr)) ==> Valid() && frames == Close(old(frames))
      ensures !old(Innermost(attr)) ==> frames == old(frames)
    {
      hide OpenBytes, Patch, Buffer, Serialize, SerializeAll, Le16, Le32;
      var len := Length();
      assert Align(len) == len by { OpenAligned(frames); }
      var attrlen := Align(len) - attr;
      ghost var inner := Innermost(attr);
      if inner {
        EndNestedBytes(rest, frames, payload, buf.Length, attr, attrlen);
      }
      Write(attr, Le16(attrlen));
      if inner {
        Built(Close(frames));
      }
    }

    /** nlmsg_reserve: the offset of a zeroed block, or None for NULL. */
    method Reserve(len: nat) returns (block: Option<nat>)
      requires Valid()
      modifies this`frames, this`payload, buf
      ensures Intact() && (Len() < 0x1_0000_0000 ==> Valid())
      ensures block == if old(Len()) + Align(len) <= buf.Length then Some(old(Len())) else None
      ensures frames == if block.Some? then AddItem(old(frames), Raw(Zeros(len))) else old(frames)
      ensures Len() == old(Len()) + if block.Some? then Align(len) else 0
    {
      hide OpenBytes, Patch, Buffer, Serialize, SerializeAll, Le16, Le32;
      var nlmsglen := Length();
      var tlen := Align(len);
      if nlmsglen + tlen > buf.Length {
        return None;
      }
      ReserveBytes(rest, frames, payload, buf.Length, len, nlmsglen, tlen);
      Write(0, Le32(nlmsglen + tlen));
      if tlen > len {
        PatchPadding(rest, payload, buf.Length, len, tlen - len);
        Write(nlmsglen + len, Zeros(tlen - len));
      }
      Built(AddItem(frames, Raw(Zeros(len))));
      return Some(nlmsglen);
    }

    /** The caller fills the start of the block it reserved last. */
    method Fill(block: nat, bs: seq<byte>)
      requires Valid()
      requires LastIsBlock(frames, |bs|) && block + Align(|LastBlock(frames)|) == Len()
      modifies this`frames, this`payload, buf
      ensures Valid() && Len() == old(Len())
      ensures frames == FillLast(old(frames), bs)
    {
      hide OpenBytes, Patch, Buffer, Serialize, SerializeAll, Le16, Le32;
      FillBytes(rest, frames, payload, buf.Length, bs, block);
      Write(block, bs);
      Built(FillLast(frames, bs));
    }

    /** nlmsg_type and nlmsg_flags. */
    method SetTypeAndFlags(typ: nat, flags: nat)
      requires Valid()
      modifies this`rest, buf
      ensures Valid() && Len() == old(Len())
      ensures rest == Le16(typ) + Le16(flags) + old(rest)[4..]
    {
      hide OpenBytes, Patch, Buffer, Le16, Le32;
      ghost var p := payload;
      PatchRest(rest, p, buf.Length, 2, Le16(flags));
      PatchRest(Patch(rest, 2, Le16(flags)), p, buf.Length, 0, Le16(typ));
      Write(6, Le16(flags));
      Write(4, Le16(typ));
      ghost var rest' := Patch(Patch(rest, 2, Le16(flags)), 0, Le16(typ));
      TypeAndFlags(rest, Le16(typ), Le16(flags));
      rest := rest';
    }
  }
}
