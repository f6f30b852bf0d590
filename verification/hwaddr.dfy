/** The hardware-address parser lxc_convert_mac of toy_docker/step_network/lxc_network/network.c. */
module HardwareAddress {
  import opened Base

  const EINVAL := 22
  const ETH_ALEN := 6
  const COLON: byte := 58

  predicate IsHex(c: byte) {
    (48 <= c <= 57) || (97 <= c <= 102) || (65 <= c <= 70)
  }

  /** The value of a hexadecimal digit of either case. */
  function HexValue(c: byte): (v: nat)
    requires IsHex(c)
    ensures v < 16
  {
    if c <= 57 then c - 48 else if c >= 97 then c - 97 + 10 else c - 65 + 10
  }

  /** The return code and the bytes stored. */
  datatype Parsed = Parsed(err: int, data: seq<byte>)

  /** What the parser makes of the characters s that remain before the NUL, with room for n more bytes. */
  function Parse(s: seq<byte>, n: nat): (r: Parsed)
    ensures |r.data| <= n
    decreases n
  {
    if s == [] || n == 0 then Parsed(0, [])
    else if !IsHex(s[0]) then Parsed(-EINVAL, [])
    else if |s| == 1 then Parsed(0, [HexValue(s[0])])
    else if !IsHex(s[1]) && s[1] != COLON then Parsed(-EINVAL, [])
    else
      var val: byte := if IsHex(s[1]) then 16 * HexValue(s[0]) + HexValue(s[1]) else HexValue(s[0]);
      var r := Parse(SkipColon(s[2..]), n - 1);
      Parsed(r.err, [val] + r.data)
  }

  function SkipColon(s: seq<byte>): seq<byte> {
    if s != [] && s[0] == COLON then s[1..] else s
  }

  /** One pass of the loop: done is what was stored before, val the byte it stores, after what it leaves to read. */
  lemma StepBack(s: seq<byte>, n: nat, done: seq<byte>, val: byte, after: seq<byte>)
    requires s != [] && n > 0 && IsHex(s[0]) && (|s| > 1 ==> IsHex(s[1]) || s[1] == COLON)
    requires val == if |s| > 1 && IsHex(s[1]) then 16 * HexValue(s[0]) + HexValue(s[1]) else HexValue(s[0])
    requires after == SkipColon(if |s| > 1 then s[2..] else [])
    ensures Parse(s, n).err == Parse(after, n - 1).err
    ensures done + Parse(s, n).data == (done + [val]) + Parse(after, n - 1).data
  {
    if |s| == 1 {
      assert after == [];
    }
  }

  lemma Stops(s: seq<byte>, n: nat)
    requires s == [] || n == 0
    ensures Parse(s, n) == Parsed(0, [])
  {
  }

  lemma Rejects(s: seq<byte>, n: nat)
    requires s != [] && n > 0 && (!IsHex(s[0]) || (|s| > 1 && !IsHex(s[1]) && s[1] != COLON))
    ensures Parse(s, n) == Parsed(-EINVAL, [])
  {
  }

  /** A NUL-terminated string: the NUL is the last element and occurs nowhere else. */
  predicate CString(s: seq<byte>) {
    s != [] && s[|s| - 1] == 0 && forall i :: 0 <= i < |s| - 1 ==> s[i] != 0
  }

  /** The characters at p spell a byte. */
  predicate Acceptable(macaddr: seq<byte>, p: nat)
    requires p + 1 < |macaddr|
  {
    IsHex(macaddr[p]) && (macaddr[p + 1] != 0 ==> IsHex(macaddr[p + 1]) || macaddr[p + 1] == COLON)
  }

  /** The one or two characters that give the next byte; ok is false where the source returns -EINVAL. */
  method ReadByte(macaddr: seq<byte>, p: nat) returns (ok: bool, val: byte, p': nat)
    requires CString(macaddr) && p < |macaddr| - 1
    ensures ok == Acceptable(macaddr, p)
    ensures ok ==> val == if IsHex(macaddr[p + 1]) then 16 * HexValue(macaddr[p]) + HexValue(macaddr[p + 1]) else HexValue(macaddr[p])
    ensures ok ==> p' == (if macaddr[p + 1] != 0 then p + 2 else p + 1) && p' < |macaddr|
  {
    ok, val, p' := false, 0, p;
    var c := macaddr[p'];
    p' := p' + 1;
    if !IsHex(c) {
      return;
    }
    var v := HexValue(c);
    v := v * 16;
    c := macaddr[p'];
    if IsHex(c) {
      v := v + HexValue(c);
    } else if c == COLON || c == 0 {
      v := v / 16;
    } else {
      return;
    }
    if c != 0 {
      p' := p' + 1;
    }
    ok, val := true, v;
  }

  /** With `done` stored and the characters from p on left for n bytes, the outcome is still `all`. */
  predicate Agrees(all: Parsed, macaddr: seq<byte>, p: nat, n: nat, done: seq<byte>)
    requires p < |macaddr|
  {
    var left := Parse(macaddr[p..|macaddr| - 1], n);
    all.err == left.err && all.data == done + left.data
  }

  lemma AgreesAtFirst(macaddr: seq<byte>, n: nat)
    requires macaddr != []
    ensures Agrees(Parse(macaddr[..|macaddr| - 1], n), macaddr, 0, n, [])
  {
    hide Parse;
    assert macaddr[0..|macaddr| - 1] == macaddr[..|macaddr| - 1];
  }

  lemma AgreesAtEnd(all: Parsed, macaddr: seq<byte>, p: nat, n: nat, done: seq<byte>)
    requires CString(macaddr) && p < |macaddr| && (macaddr[p] == 0 || n == 0) && Agrees(all, macaddr, p, n, done)
    ensures all == Parsed(0, done)
  {
    hide Parse;
    Stops(macaddr[p..|macaddr| - 1], n);
  }

  /** A pass that fails. */
  lemma PassRejects(all: Parsed, macaddr: seq<byte>, p: nat, n: nat, done: seq<byte>)
    requires CString(macaddr) && p < |macaddr| - 1 && n > 0 && !Acceptable(macaddr, p) && Agrees(all, macaddr, p, n, done)
    ensures all == Parsed(-EINVAL, done)
  {
    hide Parse, IsHex;
    var s := macaddr[p..|macaddr| - 1];
    assert s[0] == macaddr[p] && (|s| > 1 ==> s[1] == macaddr[p + 1]);
    assert |s| == 1 ==> macaddr[p + 1] == 0;
    Rejects(s, n);
  }

  /** A pass that stores val and goes on at q. */
  lemma PassAccepts(all: Parsed, macaddr: seq<byte>, p: nat, q: nat, n: nat, done: seq<byte>, val: byte)
    requires CString(macaddr) && p < |macaddr| - 1 && n > 0 && Acceptable(macaddr, p) && Agrees(all, macaddr, p, n, done)
    requires val == if IsHex(macaddr[p + 1]) then 16 * HexValue(macaddr[p]) + HexValue(macaddr[p + 1]) else HexValue(macaddr[p])
    requires var p' := if macaddr[p + 1] != 0 then p + 2 else p + 1;
             p' < |macaddr| && q == if macaddr[p'] == COLON then p' + 1 else p'
    ensures q < |macaddr| && Agrees(all, macaddr, q, n - 1, done + [val])
  {
    hide Parse, IsHex, HexValue;
    var nul := |macaddr| - 1;
    var s, p' := macaddr[p..nul], if macaddr[p + 1] != 0 then p + 2 else p + 1;
    assert s[0] == macaddr[p] && (|s| > 1 ==> s[1] == macaddr[p + 1]);
    assert |s| == 1 <==> macaddr[p + 1] == 0;
    NulIsNotHex();
    SkipOne(macaddr, p');
    assert macaddr[p'..nul] == if |s| > 1 then s[2..] else [];
    StepBack(s, n, done, val, macaddr[q..nul]);
  }

  lemma SkipOne(macaddr: seq<byte>, p: nat)
    requires CString(macaddr) && p < |macaddr|
    ensures var nul, q := |macaddr| - 1, if macaddr[p] == COLON then p + 1 else p;
            q <= nul && macaddr[q..nul] == SkipColon(macaddr[p..nul])
  {
    var rest := macaddr[p..|macaddr| - 1];
    if macaddr[p] == COLON {
      assert p < |macaddr| - 1 && rest[0] == COLON;
    } else if rest != [] {
      assert rest[0] == macaddr[p];
    }
  }

  /** One pass of the loop: a byte is stored and p advances, or the string is rejected. */
  method Pass(macaddr: seq<byte>, p: nat, sa_data: array<byte>, i: nat,
              ghost all: Parsed, ghost done: seq<byte>, ghost kept: seq<byte>)
    returns (ok: bool, q: nat, ghost done': seq<byte>)
    requires CString(macaddr) && p < |macaddr| && macaddr[p] != 0 && i == |done| < ETH_ALEN && i < |kept|
    requires Agrees(all, macaddr, p, ETH_ALEN - i, done) && Overwritten(sa_data[..], done, kept)
    modifies sa_data
    ensures !ok ==> done' == done && all == Parsed(-EINVAL, done) && Overwritten(sa_data[..], done, kept)
    ensures ok ==> q < |macaddr| && |done'| == i + 1
    ensures ok ==> Agrees(all, macaddr, q, ETH_ALEN - (i + 1), done') && Overwritten(sa_data[..], done', kept)
  {
    hide Parse, IsHex, HexValue, Acceptable, Agrees, Overwritten;
    done' := done;
    var val: byte;
    ok, val, q := ReadByte(macaddr, p);
    if !ok {
      PassRejects(all, macaddr, p, ETH_ALEN - i, done);
      return;
    }
    if macaddr[q] == COLON {
      q := q + 1;
    }
    PassAccepts(all, macaddr, p, q, ETH_ALEN - i, done, val);
    OneMore(sa_data[..], done, kept, val);
    StoreByte(sa_data, i, val);
    done' := done + [val];
  }

  /** The parser itself.  Every index into macaddr is at most that of the NUL. */
  method ConvertMac(macaddr: seq<byte>, sa_data: array<byte>) returns (err: int)
    requires CString(macaddr) && sa_data.Length >= ETH_ALEN
    modifies sa_data
    ensures var r := Parse(macaddr[..|macaddr| - 1], ETH_ALEN);
            && err == r.err
            && sa_data[..] == r.data + old(sa_data[..])[|r.data|..]
    ensures err == 0 || err == -22
    ensures forall bs :: |bs| == 6 && Renders(bs, macaddr[..|macaddr| - 1]) ==> err == 0 && sa_data[..6] == bs
    ensures forall bs :: |bs| == 6 && macaddr[..|macaddr| - 1] in [Render(false, bs), Render(true, bs)] ==>
              err == 0 && sa_data[..6] == bs
  {
    assert macaddr != [];
    hide Parse, Agrees, CString, Overwritten, Renders, Render;
    forall bs | |bs| == 6 && Renders(bs, macaddr[..|macaddr| - 1])
      ensures Parse(macaddr[..|macaddr| - 1], ETH_ALEN) == Parsed(0, bs)
    {
      RenderRoundTrip(bs, macaddr[..|macaddr| - 1]);
    }
    forall bs | |bs| == 6 && macaddr[..|macaddr| - 1] in [Render(false, bs), Render(true, bs)]
      ensures Renders(bs, macaddr[..|macaddr| - 1])
    {
      RenderRenders(false, bs);
      RenderRenders(true, bs);
    }
    var p, i := 0, 0;
    ghost var all := Parse(macaddr[..|macaddr| - 1], ETH_ALEN);
    ghost var done, kept: seq<byte> := [], sa_data[..];
    AgreesAtFirst(macaddr, ETH_ALEN);
    NoneYet(kept);
    while macaddr[p] != 0 && i < ETH_ALEN
      invariant 0 <= p < |macaddr| && 0 <= i <= ETH_ALEN && |done| == i
      invariant Agrees(all, macaddr, p, ETH_ALEN - i, done) && Overwritten(sa_data[..], done, kept)
      decreases ETH_ALEN - i
    {
      var ok, q;
      ok, q, done := Pass(macaddr, p, sa_data, i, all, done, kept);
      if !ok {
        SplitAt(sa_data[..], done, kept);
        return -EINVAL;
      }
      p, i := q, i + 1;
    }
    AgreesAtEnd(all, macaddr, p, ETH_ALEN - i, done);
    SplitAt(sa_data[..], done, kept);
    return 0;
  }

  method StoreByte(data: array<byte>, i: nat, val: byte)
    requires i < data.Length
    modifies data
    ensures data[..] == old(data[..])[i := val]
  {
    data[i] := val;
  }

  /** The bytes `done` have replaced the first ones of `kept`. */
  predicate Overwritten(now: seq<byte>, done: seq<byte>, kept: seq<byte>) {
    |done| <= |kept| && now == done + kept[|done|..]
  }

  lemma NoneYet(kept: seq<byte>)
    ensures Overwritten(kept, [], kept)
  {
  }

  lemma OneMore(now: seq<byte>, done: seq<byte>, kept: seq<byte>, val: byte)
    requires Overwritten(now, done, kept) && |done| < |kept|
    ensures |now| == |kept| && Overwritten(now[|done| := val], done + [val], kept)
  {
  }

  lemma SplitAt(now: seq<byte>, done: seq<byte>, kept: seq<byte>)
    requires Overwritten(now, done, kept)
    ensures |done| <= |kept| && now == done + kept[|done|..]
  {
  }

  lemma NulIsNotHex()
    ensures !IsHex(0)
  {
  }

  // ---------------------------------------------------------------------------------------------
  // Round trip
  // ---------------------------------------------------------------------------------------------

  const LOWER := "0123456789abcdef"
  const UPPER := "0123456789ABCDEF"

  /** c is a digit, of either case, for v. */
  predicate DigitFor(c: byte, v: nat)
    requires v < 16
  {
    LOWER[v] as int == c || UPPER[v] as int == c
  }

  /** The characters taken as digits are these 22, and each stands for its place. */
  lemma DigitValue(c: byte, v: nat)
    requires v < 16
    ensures IsHex(c) && HexValue(c) == v <==> DigitFor(c, v)
  {
  }

  /** t spells the byte b with one or two hexadecimal digits of either case. */
  predicate Spells(t: seq<byte>, b: byte) {
    || (|t| == 1 && b < 16 && DigitFor(t[0], b))
    || (|t| == 2 && DigitFor(t[0], b / 16) && DigitFor(t[1], b % 16))
  }

  /** What the parser makes of a spelling. */
  lemma SpelledValue(t: seq<byte>, b: byte)
    requires Spells(t, b)
    ensures t != [] && IsHex(t[0]) && (|t| == 1 ==> HexValue(t[0]) == b)
    ensures |t| > 1 ==> |t| == 2 && IsHex(t[1]) && 16 * HexValue(t[0]) + HexValue(t[1]) == b
  {
    hide DigitFor, HexValue, IsHex;
    DigitValue(t[0], if |t| == 1 then b else b / 16);
    if |t| == 2 {
      DigitValue(t[1], b % 16);
    }
  }

  function Join(ts: seq<seq<byte>>): seq<byte> {
    if ts == [] then [] else if |ts| == 1 then ts[0] else ts[0] + [COLON] + Join(ts[1..])
  }

  lemma ParseSpelled(t: seq<byte>, b: byte, tail: seq<byte>, n: nat)
    requires Spells(t, b) && n > 0
    requires tail != [] ==> tail[0] == COLON && (|tail| > 1 ==> tail[1] != COLON)
    ensures Parse(t + tail, n).err == Parse(SkipColon(tail), n - 1).err
    ensures Parse(t + tail, n).data == [b] + Parse(SkipColon(tail), n - 1).data
  {
    hide DigitFor, Spells, HexValue;
    SpelledValue(t, b);
    var s := t + tail;
    assert |t| == 2 ==> s[2..] == tail;
    assert |t| == 1 && tail != [] ==> s[2..] == tail[1..];
    if |s| == 1 {
      Stops(SkipColon(tail), n - 1);
    }
  }

  function JoinTail(ts: seq<seq<byte>>): seq<byte>
    requires ts != []
  {
    if |ts| == 1 then [] else [COLON] + Join(ts[1..])
  }

  lemma JoinParts(ts: seq<seq<byte>>)
    requires ts != []
    ensures Join(ts) == ts[0] + JoinTail(ts) && SkipColon(JoinTail(ts)) == Join(ts[1..])
    ensures JoinTail(ts) != [] ==> |ts| > 1 && JoinTail(ts)[0] == COLON
    ensures |JoinTail(ts)| > 1 ==> |ts| > 1 && Join(ts[1..]) != [] && JoinTail(ts)[1] == Join(ts[1..])[0]
  {
    if |ts| == 1 {
      assert ts[1..] == [];
    }
  }

  /** Any colon-separated spelling of at most n bytes parses to those bytes. */
  lemma {:induction false} ParseJoined(ts: seq<seq<byte>>, bs: seq<byte>, n: nat)
    requires |ts| == |bs| <= n
    requires forall k :: 0 <= k < |ts| ==> Spells(ts[k], bs[k])
    ensures Parse(Join(ts), n) == Parsed(0, bs)
  {
    hide Parse, IsHex, HexValue, Spells, SkipColon, Join, JoinTail;
    if ts == [] {
      JoinNone();
      Stops([], n);
    } else {
      JoinParts(ts);
      if |ts| > 1 {
        JoinStart(ts[1..], bs[1]);
      }
      ParseSpelled(ts[0], bs[0], JoinTail(ts), n);
      ParseJoined(ts[1..], bs[1..], n - 1);
      assert bs == [bs[0]] + bs[1..];
    }
  }

  lemma JoinNone()
    ensures Join([]) == []
  {
  }

  lemma JoinStart(ts: seq<seq<byte>>, b: byte)
    requires ts != [] && Spells(ts[0], b)
    ensures Join(ts) != [] && Join(ts)[0] != COLON
  {
    SpelledValue(ts[0], b);
  }

  /** s is the usual form of the bytes: two digits for each, of either case and the high one first, and colons in
      between. */
  predicate Renders(bs: seq<byte>, s: seq<byte>) {
    && |s| + 1 == 3 * |bs|
    && (forall k :: 0 <= k < |bs| ==> RendersAt(bs, s, k))
  }

  predicate RendersAt(bs: seq<byte>, s: seq<byte>, k: nat)
    requires k < |bs| && |s| + 1 == 3 * |bs|
  {
    && DigitFor(s[3 * k], bs[k] / 16) && DigitFor(s[3 * k + 1], bs[k] % 16)
    && (k < |bs| - 1 ==> s[3 * k + 2] as int == ':' as int)
  }

  function Digit(upper: bool, v: nat): (c: byte)
    requires v < 16
    ensures DigitFor(c, v)
  {
    if upper then UPPER[v] as byte else LOWER[v] as byte
  }

  /** The usual form with digits of one case: printf's %02x:%02x:.. is Render(false, ..). */
  function Render(upper: bool, bs: seq<byte>): seq<byte>
    requires bs != []
  {
    seq(3 * |bs| - 1, i requires 0 <= i < 3 * |bs| - 1 =>
      if i % 3 == 2 then ':' as byte
      else Digit(upper, if i % 3 == 0 then bs[i / 3] / 16 else bs[i / 3] % 16))
  }

  lemma RenderRenders(upper: bool, bs: seq<byte>)
    requires bs != []
    ensures Renders(bs, Render(upper, bs))
  {
    hide DigitFor, Digit;
    var s := Render(upper, bs);
    forall k | 0 <= k < |bs| ensures RendersAt(bs, s, k) {
      assert s[3 * k] == Digit(upper, bs[k] / 16) && s[3 * k + 1] == Digit(upper, bs[k] % 16);
    }
  }

  lemma {:induction false} RenderedPieces(bs: seq<byte>, s: seq<byte>) returns (ts: seq<seq<byte>>)
    requires Renders(bs, s)
    ensures |ts| == |bs| && Join(ts) == s && forall k :: 0 <= k < |ts| ==> Spells(ts[k], bs[k])
  {
    hide DigitFor;
    assert RendersAt(bs, s, 0);
    var b := bs[0];
    assert Spells(s[..2], b);
    if |bs| == 1 {
      ts := [s];
      assert s == s[..2];
    } else {
      RendersRest(bs, s);
      var us := RenderedPieces(bs[1..], s[3..]);
      ts := [s[..2]] + us;
      assert ts[1..] == us && s == s[..2] + [COLON] + s[3..];
      forall k | 0 <= k < |ts| ensures Spells(ts[k], bs[k]) {
        assert k > 0 ==> ts[k] == us[k - 1] && bs[k] == bs[1..][k - 1];
      }
    }
  }

  lemma RendersRest(bs: seq<byte>, s: seq<byte>)
    requires Renders(bs, s) && |bs| > 1
    ensures s[2] == COLON && Renders(bs[1..], s[3..])
  {
    hide DigitFor;
    assert RendersAt(bs, s, 0);
    forall k | 0 <= k < |bs| - 1 ensures RendersAt(bs[1..], s[3..], k) {
      assert RendersAt(bs, s, k + 1);
    }
  }

  /** Any bytes, written with digits of either case, are parsed back. */
  lemma RenderRoundTrip(bs: seq<byte>, s: seq<byte>)
    requires Renders(bs, s)
    ensures Parse(s, |bs|) == Parsed(0, bs)
  {
    hide Parse, Renders, Spells, Join;
    var ts := RenderedPieces(bs, s);
    ParseJoined(ts, bs, |bs|);
  }

  // ---------------------------------------------------------------------------------------------
  // Which strings are accepted
  // ---------------------------------------------------------------------------------------------

  /** What one pass takes: a digit, then a second digit or a colon, then perhaps one more colon. */
  predicate Token(t: seq<byte>) {
    2 <= |t| <= 3 && IsHex(t[0]) && (IsHex(t[1]) || t[1] == COLON) && (|t| == 3 ==> t[2] == COLON)
  }

  predicate LoneDigit(t: seq<byte>) {
    |t| == 1 && IsHex(t[0])
  }

  function Concat(ts: seq<seq<byte>>): seq<byte> {
    if ts == [] then [] else ts[0] + Concat(ts[1..])
  }

  /** s is made of at most n tokens, of which the last may be a lone digit that ends s; after n tokens anything
      may follow. */
  ghost predicate Reads(s: seq<byte>, n: nat, ts: seq<seq<byte>>) {
    && |ts| <= n
    && (forall k :: 0 <= k < |ts| ==> Token(ts[k]) || (k == |ts| - 1 && LoneDigit(ts[k]) && Concat(ts) == s))
    && (Concat(ts) == s || (|ts| == n && Concat(ts) <= s))
  }

  lemma ConcatCons(t: seq<byte>, ts: seq<seq<byte>>)
    ensures Concat([t] + ts) == t + Concat(ts)
  {
    assert ([t] + ts)[1..] == ts;
  }

  lemma ReadsCons(t: seq<byte>, s: seq<byte>, n: nat, ts: seq<seq<byte>>)
    requires Token(t) && Reads(s, n, ts)
    ensures Reads(t + s, n + 1, [t] + ts)
  {
    hide Token, LoneDigit, Concat;
    ConcatCons(t, ts);
    var us := [t] + ts;
    forall k | 0 <= k < |us| ensures Token(us[k]) || (k == |us| - 1 && LoneDigit(us[k]) && Concat(us) == t + s) {
      if k > 0 {
        assert us[k] == ts[k - 1];
      }
    }
  }

  /** What one pass takes of a longer string that does not fail at once. */
  lemma FirstToken(s: seq<byte>) returns (t: seq<byte>, rest: seq<byte>)
    requires |s| >= 2 && IsHex(s[0]) && (IsHex(s[1]) || s[1] == COLON)
    ensures Token(t) && s == t + rest && rest == SkipColon(s[2..])
  {
    var k := if |s| > 2 && s[2] == COLON then 3 else 2;
    t, rest := s[..k], s[k..];
    assert SkipColon(s[2..]) == rest;
  }

  lemma LoneSplits(s: seq<byte>, n: nat)
    requires LoneDigit(s) && n > 0
    ensures Reads(s, n, [s])
  {
    var ts := [s];
    assert ts[1..] == [];
    assert Concat(ts) == s;
  }

  /** A string the parser accepts splits into tokens. */
  lemma {:induction false} AcceptedSplits(s: seq<byte>, n: nat) returns (ts: seq<seq<byte>>)
    requires Parse(s, n).err == 0
    ensures Reads(s, n, ts)
    decreases n
  {
    if s == [] || n == 0 {
      ts := [];
    } else if |s| == 1 {
      ts := [s];
      LoneSplits(s, n);
    } else {
      var t, rest := FirstToken(s);
      assert Parse(rest, n - 1).err == 0;
      hide Parse;
      var us := AcceptedSplits(rest, n - 1);
      ReadsCons(t, rest, n - 1, us);
      ts := [t] + us;
    }
  }

  /** A string that splits into tokens is accepted. */
  lemma {:induction false} SplitIsAccepted(s: seq<byte>, n: nat, ts: seq<seq<byte>>)
    requires Reads(s, n, ts)
    ensures Parse(s, n).err == 0
    decreases n
  {
    if s == [] || n == 0 {
      Stops(s, n);
    } else {
      var t := ts[0];
      assert Concat(ts) == t + Concat(ts[1..]);
      assert s[0] == t[0] && |t| <= |s|;
      if Token(t) {
        assert s[1] == t[1];
        ReadsRest(s, n, ts);
        var rest := SkipColon(s[2..]);
        if n == 1 {
          Stops(rest, 0);
        } else {
          SplitIsAccepted(rest, n - 1, ts[1..]);
        }
      }
    }
  }

  /** The rest of a split string, after its first token. */
  lemma ReadsRest(s: seq<byte>, n: nat, ts: seq<seq<byte>>)
    requires Reads(s, n, ts) && n > 0 && ts != [] && Token(ts[0])
    ensures |s| >= 2 && (n > 1 ==> Reads(SkipColon(s[2..]), n - 1, ts[1..]))
  {
    var t, us := ts[0], ts[1..];
    assert Concat(ts) == t + Concat(us);
    var rest := s[|t|..];
    assert s == t + rest;
    assert Concat(us) == rest || (|us| == n - 1 && Concat(us) <= rest) by { TailOf(s, t, Concat(us), rest); }
    if n > 1 {
      assert SkipColon(s[2..]) == rest by {
        StartOf(us, rest);
        SkipRest(s, t, rest);
      }
      hide Token, LoneDigit, Concat, SkipColon;
      forall k | 0 <= k < |us| ensures Token(us[k]) || (k == |us| - 1 && LoneDigit(us[k]) && Concat(us) == rest) {
        assert us[k] == ts[k + 1];
        if LoneDigit(us[k]) && !Token(us[k]) {
          TailOf(s, t, Concat(us), rest);
        }
      }
    }
  }

  lemma TailOf(s: seq<byte>, t: seq<byte>, c: seq<byte>, rest: seq<byte>)
    requires s == t + rest
    ensures t + c == s ==> c == rest
    ensures t + c <= s ==> c <= rest
  {
    if t + c <= s {
      assert c == (t + c)[|t|..] == s[|t|..][..|c|];
    }
  }

  /** What starts with tokens, or is empty, does not start with a colon. */
  lemma StartOf(us: seq<seq<byte>>, rest: seq<byte>)
    requires us != [] ==> (Token(us[0]) || LoneDigit(us[0])) && Concat(us) <= rest
    requires us == [] ==> rest == []
    ensures rest == [] || rest[0] != COLON
  {
    if us != [] {
      assert Concat(us) == us[0] + Concat(us[1..]);
      assert rest[0] == us[0][0];
    }
  }

  lemma SkipRest(s: seq<byte>, t: seq<byte>, rest: seq<byte>)
    requires Token(t) && s == t + rest && (rest == [] || rest[0] != COLON)
    ensures SkipColon(s[2..]) == rest
  {
    if |t| == 3 {
      assert s[2..][0] == COLON && s[2..][1..] == rest;
    } else {
      assert s[2..] == rest;
    }
  }

  /** The parser accepts a string exactly when it splits into tokens. */
  lemma AcceptsIff(s: seq<byte>, n: nat)
    ensures Parse(s, n).err == 0 <==> exists ts :: Reads(s, n, ts)
  {
    hide Parse, Reads;
    if Parse(s, n).err == 0 {
      var ts := AcceptedSplits(s, n);
      assert Reads(s, n, ts);
    }
    if exists ts :: Reads(s, n, ts) {
      var ts :| Reads(s, n, ts);
      SplitIsAccepted(s, n, ts);
    }
  }
}
