/** The wire format that toy_docker/step_network/lxc_network/nl.c produces: a 16-byte message header, then
    aligned blocks and nested type-length-value attributes (RFC 3549, sections 2.2 and 2.3.2).  The
    serializer is the recursive reference; the parser is an independent reader of the same bytes. */
module NetlinkFormat {

  import opened Base

  const HDRLEN := 16      // NLMSG_HDRLEN
  const ATTRLEN := 4      // RTA_LENGTH(0)

  /** Number of four-byte units that hold n bytes. */
  function Units(n: nat): (u: nat)
    ensures n <= 4 * u < n + 4
  {
    (n + 3) / 4
  }

  /** NLMSG_ALIGN and RTA_ALIGN. */
  function Align(n: nat): (r: nat)
    ensures n <= r < n + 4
  {
    4 * Units(n)
  }

  lemma AlignUnits(u: nat)
    ensures Align(4 * u) == 4 * u
  {
  }

  function Zeros(n: nat): (z: seq<byte>)
    ensures |z| == n && forall i :: 0 <= i < n ==> z[i] == 0
  {
    seq(n, _ => 0)
  }

  /** An integer stored in a 16-bit or 32-bit little-endian field keeps its low bits only. */
  function Le16(x: nat): (b: seq<byte>)
    ensures |b| == 2
  {
    [x % 256, x / 256 % 256]
  }

  function Le32(x: nat): (b: seq<byte>)
    ensures |b| == 4
  {
    Le16(x % 65536) + Le16(x / 65536)
  }

  function FromLe16(b: seq<byte>): (x: nat)
    requires |b| == 2
    ensures x < 65536
  {
    b[0] as int + 256 * (b[1] as int)
  }

  function FromLe32(b: seq<byte>): (x: nat)
    requires |b| == 4
  {
    FromLe16(b[..2]) + 65536 * FromLe16(b[2..])
  }

  lemma Le16RoundTrip(x: nat)
    ensures FromLe16(Le16(x)) == x % 65536
  {
    assert x / 256 / 256 == x / 65536;
  }

  lemma Halves(x: nat)
    ensures x % 65536 + 65536 * (x / 65536 % 65536) == x % 0x1_0000_0000
  {
    assert x / 65536 / 65536 == x / 0x1_0000_0000;
  }

  lemma Le32RoundTrip(x: nat)
    ensures FromLe32(Le32(x)) == x % 0x1_0000_0000
  {
    hide Le16, FromLe16;
    Le16RoundTrip(x % 65536);
    Le16RoundTrip(x / 65536);
    assert Le32(x)[..2] == Le16(x % 65536) && Le32(x)[2..] == Le16(x / 65536);
    Halves(x);
  }

  lemma Le32Exact(x: nat)
    requires x < 0x1_0000_0000
    ensures FromLe32(Le32(x)) == x
  {
    hide Le32, FromLe32;
    Le32RoundTrip(x);
  }

  // ---------------------------------------------------------------------------------------------
  // Trees and their serialization
  // ---------------------------------------------------------------------------------------------

  /** What a message carries: raw blocks (nlmsg_reserve), attributes and nested attributes. */
  datatype Item =
    | Raw(bytes: seq<byte>)
    | Leaf(typ: nat, data: seq<byte>)
    | Nest(typ: nat, items: seq<Item>)

  function ItemUnits(x: Item): nat
    decreases x, 1
  {
    match x
    case Raw(bytes) => Units(|bytes|)
    case Leaf(_, data) => Units(ATTRLEN + |data|)
    case Nest(_, items) => 1 + ItemsUnits(items)
  }

  function ItemsUnits(xs: seq<Item>): nat
    decreases xs, 0
  {
    if xs == [] then 0 else ItemUnits(xs[0]) + ItemsUnits(xs[1..])
  }

  /** Bytes an item takes in a message, padding included. */
  function Size(x: Item): nat {
    4 * ItemUnits(x)
  }

  function SizeAll(xs: seq<Item>): nat {
    4 * ItemsUnits(xs)
  }

  /** Length, type, payload, zero padding to a multiple of four. */
  function Attribute(typ: nat, payload: seq<byte>): (b: seq<byte>)
    ensures |b| == Align(ATTRLEN + |payload|)
  {
    Le16(ATTRLEN + |payload|) + Le16(typ) + payload + Zeros(Align(ATTRLEN + |payload|) - ATTRLEN - |payload|)
  }

  function Serialize(x: Item): (b: seq<byte>)
    ensures |b| == Size(x)
    decreases x, 1
  {
    match x
    case Raw(bytes) => bytes + Zeros(Align(|bytes|) - |bytes|)
    case Leaf(typ, data) => Attribute(typ, data)
    case Nest(typ, items) => AlignUnits(ItemUnits(x)); Attribute(typ, SerializeAll(items))
  }

  function SerializeAll(xs: seq<Item>): (b: seq<byte>)
    ensures |b| == SizeAll(xs)
    decreases xs, 0
  {
    if xs == [] then [] else Serialize(xs[0]) + SerializeAll(xs[1..])
  }

  lemma {:induction false} SerializeAppend(xs: seq<Item>, x: Item)
    ensures SerializeAll(xs + [x]) == SerializeAll(xs) + Serialize(x)
    ensures SizeAll(xs + [x]) == SizeAll(xs) + Size(x)
  {
    if xs == [] {
      assert xs + [x] == [x];
    } else {
      assert (xs + [x])[1..] == xs[1..] + [x];
      SerializeAppend(xs[1..], x);
    }
  }

  /** A whole message: total length, the other 12 header bytes, and the payload. */
  function SerializeMessage(rest: seq<byte>, xs: seq<Item>): seq<byte>
    requires |rest| == 12
  {
    Le32(HDRLEN + SizeAll(xs)) + rest + SerializeAll(xs)
  }

  // ---------------------------------------------------------------------------------------------
  // The bytes, one by one
  // ---------------------------------------------------------------------------------------------

  /** struct rtattr: two bytes of length, two of type, low byte first, then the payload and zeros up to a multiple
      of four that the length does not count. */
  lemma AttributeOnWire(typ: nat, payload: seq<byte>)
    requires typ < 65536 && 4 + |payload| < 65536
    ensures var b, n := Attribute(typ, payload), 4 + |payload|;
            && |b| % 4 == 0 && n <= |b| < n + 4
            && b[0] as int + 256 * b[1] as int == n && b[2] as int + 256 * b[3] as int == typ
            && b[4..n] == payload && forall k :: n <= k < |b| ==> b[k] == 0
  {
    var b := Attribute(typ, payload);
    assert b[..2] == Le16(4 + |payload|) && b[2..4] == Le16(typ);
  }

  /** struct nlmsghdr: four bytes of length, low byte first, then 12 others; the items follow one another. */
  lemma MessageOnWire(rest: seq<byte>, xs: seq<Item>)
    requires |rest| == 12 && 16 + SizeAll(xs) < 0x1_0000_0000
    ensures var b := SerializeMessage(rest, xs);
            && b[0] as int + 256 * b[1] as int + 65536 * b[2] as int + 16777216 * b[3] as int == |b| == 16 + SizeAll(xs)
            && b[4..16] == rest && b[16..] == SerializeAll(xs)
  {
    hide Le32, FromLe32;
    var b, n := SerializeMessage(rest, xs), 16 + SizeAll(xs);
    Le32Exact(n);
    assert b[..4] == Le32(n);
    BytesOf32(b[..4]);
  }

  /** A reserved block: its bytes, then zeros up to a multiple of four. */
  lemma BlockOnWire(bytes: seq<byte>)
    ensures var b := Serialize(Raw(bytes));
            && |b| % 4 == 0 && |bytes| <= |b| < |bytes| + 4
            && b[..|bytes|] == bytes && forall k :: |bytes| <= k < |b| ==> b[k] == 0
  {
  }

  /** The items of a message or of a nest lie one behind the other. */
  lemma {:induction false} ItemOnWire(xs: seq<Item>, k: nat)
    requires k < |xs|
    ensures SizeAll(xs[..k]) + Size(xs[k]) <= SizeAll(xs)
    ensures SerializeAll(xs)[SizeAll(xs[..k])..SizeAll(xs[..k]) + Size(xs[k])] == Serialize(xs[k])
    decreases xs
  {
    hide Serialize;
    if k == 0 {
      assert xs[..0] == [];
    } else {
      ItemOnWire(xs[1..], k - 1);
      assert xs[..k][1..] == xs[1..][..k - 1] && xs[..k][0] == xs[0];
      var front, rest, at := Serialize(xs[0]), SerializeAll(xs[1..]), SizeAll(xs[1..][..k - 1]);
      assert (front + rest)[|front| + at..|front| + at + Size(xs[k])] == rest[at..at + Size(xs[k])];
    }
  }

  lemma BytesOf32(b: seq<byte>)
    requires |b| == 4
    ensures FromLe32(b) == b[0] as int + 256 * b[1] as int + 65536 * b[2] as int + 16777216 * b[3] as int
  {
  }

  // ---------------------------------------------------------------------------------------------
  // The parser
  // ---------------------------------------------------------------------------------------------

  /** What a receiver knows about a block: the length of its fixed header and which attribute types nest. */
  datatype Schema = Schema(header: nat, nested: map<nat, Schema>)

  function ParseBlock(sc: Schema, b: seq<byte>): Option<seq<Item>>
    decreases |b|, 1
  {
    if sc.header == 0 then ParseAttrs(sc, b)
    else if Align(sc.header) > |b| then None
    else
      var attrs := ParseAttrs(sc, b[Align(sc.header)..]);
      if attrs.None? then None else Some([Raw(b[..sc.header])] + attrs.value)
  }

  function ParseAttrs(sc: Schema, b: seq<byte>): Option<seq<Item>>
    decreases |b|, 0
  {
    if b == [] then Some([])
    else if |b| < ATTRLEN then None
    else
      var len, typ := FromLe16(b[..2]), FromLe16(b[2..4]);
      if len < ATTRLEN || Align(len) > |b| then None
      else
        var first := ParsePayload(sc, typ, b[ATTRLEN..len]);
        var others := ParseAttrs(sc, b[Align(len)..]);
        if first.None? || others.None? then None else Some([first.value] + others.value)
  }

  function ParsePayload(sc: Schema, typ: nat, payload: seq<byte>): Option<Item>
    decreases |payload|, 2
  {
    if typ !in sc.nested then Some(Leaf(typ, payload))
    else
      var items := ParseBlock(sc.nested[typ], payload);
      if items.None? then None else Some(Nest(typ, items.value))
  }

  /** The header bytes after the length, and the items. */
  function ParseMessage(sc: Schema, b: seq<byte>): Option<(seq<byte>, seq<Item>)>
  {
    if |b| < HDRLEN then None
    else
      var len := FromLe32(b[..4]);
      if len < HDRLEN || len > |b| then None
      else
        var items := ParseBlock(sc, b[HDRLEN..len]);
        if items.None? then None else Some((b[4..HDRLEN], items.value))
  }

  /** The payload of the attribute that a path of types leads to, through nests down to a leaf: the first of its type
      at each level. */
  function Lookup(xs: seq<Item>, path: seq<nat>): Option<seq<byte>>
    requires path != []
    decreases |path|, |xs|
  {
    if xs == [] then None
    else
      match xs[0]
      case Leaf(typ, data) => if typ == path[0] && |path| == 1 then Some(data) else Lookup(xs[1..], path)
      case Nest(typ, items) => if typ == path[0] && |path| > 1 then Lookup(items, path[1..]) else Lookup(xs[1..], path)
      case Raw(_) => Lookup(xs[1..], path)
  }

  lemma LookupFirst(x: Item, xs: seq<Item>, path: seq<nat>)
    requires path != []
    ensures Lookup([x] + xs, path) ==
            match x
            case Leaf(typ, data) => if path == [typ] then Some(data) else Lookup(xs, path)
            case Nest(typ, items) => if typ == path[0] && |path| > 1 then Lookup(items, path[1..]) else Lookup(xs, path)
            case Raw(_) => Lookup(xs, path)
  {
    assert ([x] + xs)[1..] == xs;
  }

  // ---------------------------------------------------------------------------------------------
  // Round trip
  // ---------------------------------------------------------------------------------------------

  /** The tree has the shape the schema describes, with 16-bit attribute types. */
  predicate Conforms(sc: Schema, xs: seq<Item>)
    decreases xs, 2
  {
    if sc.header == 0 then ConformsAttrs(sc, xs)
    else xs != [] && xs[0].Raw? && |xs[0].bytes| == sc.header && ConformsAttrs(sc, xs[1..])
  }

  predicate ConformsAttrs(sc: Schema, xs: seq<Item>)
    decreases xs, 1
  {
    xs == [] || (ConformsAttr(sc, xs[0]) && ConformsAttrs(sc, xs[1..]))
  }

  predicate ConformsAttr(sc: Schema, x: Item)
    decreases x, 3
  {
    match x
    case Raw(_) => false
    case Leaf(typ, _) => typ < 65536 && typ !in sc.nested
    case Nest(typ, items) => typ < 65536 && typ in sc.nested && Conforms(sc.nested[typ], items)
  }

  /** Every attribute's length fits its 16-bit length field. */
  predicate Fits(x: Item)
    decreases x, 1
  {
    match x
    case Raw(_) => true
    case Leaf(_, data) => ATTRLEN + |data| < 65536
    case Nest(_, items) => Size(x) < 65536 && FitsAll(items)
  }

  predicate FitsAll(xs: seq<Item>)
    decreases xs, 0
  {
    xs == [] || (Fits(xs[0]) && FitsAll(xs[1..]))
  }

  lemma AttributeLayout(typ: nat, payload: seq<byte>, tail: seq<byte>)
    ensures var b, len := Attribute(typ, payload) + tail, ATTRLEN + |payload|;
            && b[..2] == Le16(len) && b[2..4] == Le16(typ)
            && b[ATTRLEN..len] == payload && b[Align(len)..] == tail
  {
    hide Le16, Zeros, Align;
  }

  /** The parser on a block that starts with an attribute of this length and type. */
  lemma ParseStep(sc: Schema, b: seq<byte>, len: nat, typ: nat)
    requires |b| >= ATTRLEN && FromLe16(b[..2]) == len && FromLe16(b[2..4]) == typ
    requires ATTRLEN <= len && Align(len) <= |b|
    ensures var first, others := ParsePayload(sc, typ, b[ATTRLEN..len]), ParseAttrs(sc, b[Align(len)..]);
            ParseAttrs(sc, b) == if first.None? || others.None? then None else Some([first.value] + others.value)
  {
    hide FromLe16, Align, ParsePayload;
  }

  lemma ParseOneAttribute(sc: Schema, b: seq<byte>, typ: nat, payload: seq<byte>, tail: seq<byte>)
    requires typ < 65536 && ATTRLEN + |payload| < 65536 && |b| == Align(ATTRLEN + |payload|) + |tail|
    requires b[..2] == Le16(ATTRLEN + |payload|) && b[2..4] == Le16(typ)
    requires b[ATTRLEN..ATTRLEN + |payload|] == payload && b[Align(ATTRLEN + |payload|)..] == tail
    ensures var first, others := ParsePayload(sc, typ, payload), ParseAttrs(sc, tail);
            ParseAttrs(sc, b) == if first.None? || others.None? then None else Some([first.value] + others.value)
  {
    hide Le16, FromLe16, Align, ParseAttrs, ParsePayload;
    var len := ATTRLEN + |payload|;
    Le16RoundTrip(len);
    Le16RoundTrip(typ);
    Below65536(len);
    Below65536(typ);
    ParseStep(sc, b, len, typ);
  }

  lemma Below65536(x: nat)
    requires x < 65536
    ensures x % 65536 == x
  {
  }

  /** What follows from an item's fitting and conforming, as an attribute with a type and a payload. */
  lemma AttributeOf(sc: Schema, x: Item)
    requires ConformsAttr(sc, x) && Fits(x)
    ensures !x.Raw? && x.typ < 65536
    ensures var payload := if x.Leaf? then x.data else SerializeAll(x.items);
            Serialize(x) == Attribute(x.typ, payload) && ATTRLEN + |payload| < 65536
    ensures x.Leaf? ==> x.typ !in sc.nested
    ensures x.Nest? ==> x.typ in sc.nested && Conforms(sc.nested[x.typ], x.items) && FitsAll(x.items)
  {
    hide Attribute, SerializeAll, Conforms, FitsAll;
  }

  lemma {:induction false} ParseSerializedAttrs(sc: Schema, xs: seq<Item>)
    requires ConformsAttrs(sc, xs) && FitsAll(xs)
    ensures ParseAttrs(sc, SerializeAll(xs)) == Some(xs)
    decreases xs, 1
  {
    if xs != [] {
      hide ConformsAttr, Fits, Attribute, ParseAttrs, Serialize, Le16, Align;
      var x, rest := xs[0], xs[1..];
      AttributeOf(sc, x);
      var payload, tail := if x.Leaf? then x.data else SerializeAll(x.items), SerializeAll(rest);
      assert SerializeAll(xs) == Attribute(x.typ, payload) + tail;
      ParseSerializedAttrs(sc, rest);
      AttributeLayout(x.typ, payload, tail);
      ParseOneAttribute(sc, Attribute(x.typ, payload) + tail, x.typ, payload, tail);
      if x.Nest? {
        ParseSerializedBlock(sc.nested[x.typ], x.items);
      }
      assert ParsePayload(sc, x.typ, payload) == Some(x);
      assert xs == [x] + rest;
    }
  }

  lemma RawLayout(bytes: seq<byte>, tail: seq<byte>)
    ensures var b := Serialize(Raw(bytes)) + tail;
            b[..|bytes|] == bytes && b[Align(|bytes|)..] == tail
  {
  }

  lemma {:induction false} ParseSerializedBlock(sc: Schema, xs: seq<Item>)
    requires Conforms(sc, xs) && FitsAll(xs)
    ensures ParseBlock(sc, SerializeAll(xs)) == Some(xs)
    decreases xs, 2
  {
    hide ConformsAttrs, ParseAttrs;
    if sc.header == 0 {
      ParseSerializedAttrs(sc, xs);
    } else {
      var tail := SerializeAll(xs[1..]);
      ParseSerializedAttrs(sc, xs[1..]);
      RawLayout(xs[0].bytes, tail);
      assert SerializeAll(xs) == Serialize(xs[0]) + tail;
      assert xs == [xs[0]] + xs[1..];
    }
  }

  /** One attribute in front of others. */
  lemma AttributeFits(sc: Schema, first: Item, len: nat, typ: nat, payload: seq<byte>)
    requires ParsePayload(sc, typ, payload) == Some(first)
    requires ATTRLEN <= len < 65536 && |payload| == len - ATTRLEN
    requires typ in sc.nested ==> first.Nest? && FitsAll(first.items) && SizeAll(first.items) == |payload|
    ensures Fits(first) && Size(first) == Align(len)
  {
    hide FitsAll, ItemsUnits, ParseBlock;
    if first.Nest? {
      AlignUnits(1 + ItemsUnits(first.items));
    }
  }

  lemma ConsFits(x: Item, xs: seq<Item>)
    requires Fits(x) && FitsAll(xs)
    ensures FitsAll([x] + xs) && SizeAll([x] + xs) == Size(x) + SizeAll(xs)
  {
    hide Fits, ItemUnits;
    assert ([x] + xs)[1..] == xs;
  }

  /** What a successful parse of a non-empty attribute list is made of. */
  lemma ParsedParts(sc: Schema, b: seq<byte>)
    requires b != [] && ParseAttrs(sc, b).Some?
    ensures |b| >= ATTRLEN
    ensures var len, typ := FromLe16(b[..2]), FromLe16(b[2..4]);
            && ATTRLEN <= len && Align(len) <= |b|
            && ParsePayload(sc, typ, b[ATTRLEN..len]).Some? && ParseAttrs(sc, b[Align(len)..]).Some?
            && ParseAttrs(sc, b).value == [ParsePayload(sc, typ, b[ATTRLEN..len]).value] + ParseAttrs(sc, b[Align(len)..]).value
  {
    hide FromLe16, Align, ParsePayload;
  }

  /** Whatever the bytes are, the parser yields attributes that fit their length fields, and accounts for every byte. */
  lemma {:induction false} ParsedAttrsFit(sc: Schema, b: seq<byte>)
    ensures var r := ParseAttrs(sc, b); r.Some? ==> FitsAll(r.value) && SizeAll(r.value) == |b|
    decreases |b|, 0
  {
    if b == [] {
      assert ParseAttrs(sc, b) == Some([]);
    } else if ParseAttrs(sc, b).Some? {
      ParsedParts(sc, b);
      hide ParseAttrs, FitsAll, ItemsUnits, ItemUnits, Fits, FromLe16, ParseBlock;
      var len, typ := FromLe16(b[..2]), FromLe16(b[2..4]);
      var payload, tail := b[ATTRLEN..len], b[Align(len)..];
      var first := ParsePayload(sc, typ, payload).value;
      ParsedAttrsFit(sc, tail);
      if typ in sc.nested {
        ParsedBlockFits(sc.nested[typ], payload);
      }
      AttributeFits(sc, first, len, typ, payload);
      ConsFits(first, ParseAttrs(sc, tail).value);
    }
  }

  lemma {:induction false} ParsedBlockFits(sc: Schema, b: seq<byte>)
    ensures var r := ParseBlock(sc, b); r.Some? ==> FitsAll(r.value) && SizeAll(r.value) == |b|
    decreases |b|, 1
  {
    hide ParseAttrs, FitsAll;
    if sc.header == 0 {
      ParsedAttrsFit(sc, b);
    } else if ParseBlock(sc, b).Some? {
      var header, tail := Raw(b[..sc.header]), b[Align(sc.header)..];
      ParsedAttrsFit(sc, tail);
      ConsFits(header, ParseAttrs(sc, tail).value);
    }
  }

  /** The parser on a message with a right length. */
  lemma ParseWhole(sc: Schema, rest: seq<byte>, body: seq<byte>)
    requires |rest| == 12 && HDRLEN + |body| < 0x1_0000_0000
    ensures var items := ParseBlock(sc, body);
            ParseMessage(sc, Le32(HDRLEN + |body|) + rest + body) == if items.None? then None else Some((rest, items.value))
  {
    hide ParseBlock, Le32, FromLe32;
    var len := HDRLEN + |body|;
    var b := Le32(len) + rest + body;
    Le32Exact(len);
    assert b[..4] == Le32(len) && b[4..HDRLEN] == rest && b[HDRLEN..len] == body;
  }

  /** A message too long for its 32-bit length is cut short, so the parser gets a tree of another size at best. */
  lemma ParseCutShort(sc: Schema, rest: seq<byte>, xs: seq<Item>)
    requires |rest| == 12 && HDRLEN + SizeAll(xs) >= 0x1_0000_0000
    ensures ParseMessage(sc, SerializeMessage(rest, xs)) != Some((rest, xs))
  {
    hide ParseBlock, Le32, FromLe32, SerializeAll;
    var b, size := SerializeMessage(rest, xs), HDRLEN + SizeAll(xs);
    Le32RoundTrip(size);
    assert b[..4] == Le32(size);
    var len := FromLe32(b[..4]);
    assert len < 0x1_0000_0000 <= size;
    if HDRLEN <= len && len <= |b| {
      ParsedBlockFits(sc, b[HDRLEN..len]);
    }
  }

  /** The exact condition for the round trip: the parser recovers the tree iff every attribute length is
      below 65536 and the message length below 2^32.  Longer ones have their length field truncated and are misread. */
  lemma RoundTrip(sc: Schema, rest: seq<byte>, xs: seq<Item>)
    requires |rest| == 12 && Conforms(sc, xs)
    ensures ParseMessage(sc, SerializeMessage(rest, xs)) == Some((rest, xs)) <==>
              FitsAll(xs) && HDRLEN + SizeAll(xs) < 0x1_0000_0000
  {
    hide Conforms, FitsAll, ParseMessage, ParseBlock, SerializeAll, Le32;
    if HDRLEN + SizeAll(xs) >= 0x1_0000_0000 {
      ParseCutShort(sc, rest, xs);
    } else {
      ParseWhole(sc, rest, SerializeAll(xs));
      if FitsAll(xs) {
        ParseSerializedBlock(sc, xs);
      } else {
        ParsedBlockFits(sc, SerializeAll(xs));
      }
    }
  }

  /** An attribute whose stored length is shorter than its own header. */
  lemma ShortLength(sc: Schema, b: seq<byte>)
    requires |b| >= ATTRLEN && FromLe16(b[..2]) < ATTRLEN
    ensures ParseAttrs(sc, b) == None
  {
    hide FromLe16;
  }

  /** The truncation is real: 65532 payload bytes make a 65536-byte attribute whose length field is 0. */
  lemma LongAttributeIsLost(rest: seq<byte>, data: seq<byte>)
    requires |rest| == 12 && |data| == 65532
    ensures ParseMessage(Schema(0, map[]), SerializeMessage(rest, [Leaf(1, data)])) == None
  {
    var sc, xs := Schema(0, map[]), [Leaf(1, data)];
    assert SerializeAll(xs) == Attribute(1, data) by { assert xs[1..] == []; }
    hide ParseMessage, ParseAttrs, SerializeAll, Le32, Le16, FromLe16, Attribute;
    AttributeLayout(1, data, []);
    assert Attribute(1, data) + [] == Attribute(1, data);
    Le16RoundTrip(65536);
    ShortLength(sc, Attribute(1, data));
    ParseWhole(sc, rest, SerializeAll(xs));
  }
}
