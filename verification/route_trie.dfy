/** The routing trie of network/route/route_test.cpp.

    Addresses are strings of '0' and '1'.  `search` is meant as longest-prefix match; its fallback loop descends
    instead of going back, and the lemmas below say for which addresses it meets that intent. */
module RouteTrie {

  predicate IsBits(s: string) {
    forall i :: 0 <= i < |s| ==> s[i] == '0' || s[i] == '1'
  }

  function Bit(c: char): bool
    requires c == '0' || c == '1'
  {
    c == '1'
  }

  /** The path to the child of p by bit b. */
  function Ext(p: string, b: bool): string {
    p + [if b then '1' else '0']
  }

  lemma ExtUnique(p: string, b: bool)
    ensures forall q, c :: Ext(q, c) == Ext(p, b) ==> q == p && c == b
    ensures forall c :: Ext(Ext(p, b), c) != Ext(p, b)
    ensures Ext(p, b) != p
  {
    var e := Ext(p, b);
    forall q, c | Ext(q, c) == e ensures q == p && c == b {
      assert Ext(q, c)[..|q|] == q && e[..|p|] == p;
      assert Ext(q, c)[|q|] == e[|p|];
    }
    forall c ensures Ext(e, c) != e {
      assert |Ext(e, c)| == |e| + 1;
    }
    assert |e| == |p| + 1;
  }

  predicate StartsWith(s: string, p: string) {
    p <= s
  }

  /** The first i + 1 bits of an address, as a path. */
  lemma PathStep(s: string, i: nat)
    requires i < |s| && (s[i] == '0' || s[i] == '1')
    ensures s[..i + 1] == Ext(s[..i], Bit(s[i]))
    ensures forall q :: StartsWith(s[..i + 1], q) <==> StartsWith(s[..i], q) || q == s[..i + 1]
  {
    forall q ensures StartsWith(s[..i + 1], q) <==> StartsWith(s[..i], q) || q == s[..i + 1] {
      if q <= s[..i + 1] && |q| <= i {
        assert s[..i + 1][..|q|] == s[..i][..|q|];
      }
      if q <= s[..i] {
        assert s[..i][..|q|] == s[..i + 1][..|q|];
      }
    }
  }

  /** p is on the way from the root to an entry. */
  ghost predicate OnPath(keys: set<string>, p: string) {
    p == "" || exists q :: q in keys && p <= q
  }

  lemma OnPathInserted(keys: set<string>, k: string, p: string)
    ensures OnPath(keys + {k}, p) <==> OnPath(keys, p) || StartsWith(k, p)
  {
    if p != "" && p <= k {
      assert k in keys + {k};
    }
    if p != "" && OnPath(keys, p) {
      var q :| q in keys && p <= q;
      assert q in keys + {k};
    }
  }

  // ---------------------------------------------------------------------------------------------
  // What search computes, on the set of entries
  // ---------------------------------------------------------------------------------------------

  /** How far the address can be followed from its first i bits. */
  ghost function WalkFrom(keys: set<string>, ip: string, i: nat): (n: nat)
    requires i <= |ip|
    ensures i <= n <= |ip|
    decreases |ip| - i
  {
    if i < |ip| && OnPath(keys, ip[..i + 1]) then WalkFrom(keys, ip, i + 1) else i
  }

  ghost function Walk(keys: set<string>, ip: string): string {
    ip[..WalkFrom(keys, ip, 0)]
  }

  /** No entry is longer. */
  ghost function MaxLen(keys: set<string>): (n: nat)
    ensures forall k :: k in keys ==> |k| <= n
  {
    if keys == {} then 0
    else
      var k :| k in keys;
      var rest := MaxLen(keys - {k});
      assert forall q :: q in keys && q != k ==> q in keys - {k};
      if |k| > rest then |k| else rest
  }

  /** One of the two children leads on from a node that is no entry. */
  lemma SomeChild(keys: set<string>, p: string)
    requires keys != {} && OnPath(keys, p) && p !in keys && forall k :: k in keys ==> IsBits(k)
    ensures OnPath(keys, Ext(p, false)) || OnPath(keys, Ext(p, true))
    ensures |p| < MaxLen(keys)
  {
    var q :| q in keys && p <= q;
    assert |q| == |p| ==> q == p;
    assert q[|p|] == '0' || q[|p|] == '1';
    assert Ext(p, Bit(q[|p|])) <= q;
  }

  /** The entry the fallback loop ends at: always to child 0 if there is one, else to child 1. */
  ghost function Descend(keys: set<string>, p: string): (e: string)
    requires keys != {} && OnPath(keys, p) && forall k :: k in keys ==> IsBits(k)
    ensures e in keys && p <= e
    decreases MaxLen(keys) - |p|
  {
    if p in keys then p
    else
      SomeChild(keys, p);
      if OnPath(keys, Ext(p, false)) then Descend(keys, Ext(p, false)) else Descend(keys, Ext(p, true))
  }

  lemma {:induction false} WalkIsOnPath(keys: set<string>, ip: string, i: nat)
    requires i <= |ip| && OnPath(keys, ip[..i])
    ensures OnPath(keys, ip[..WalkFrom(keys, ip, i)])
    decreases |ip| - i
  {
    if i < |ip| && OnPath(keys, ip[..i + 1]) {
      WalkIsOnPath(keys, ip, i + 1);
    }
  }

  /** Nothing longer than the walk leads to an entry. */
  lemma {:induction false} WalkIsLongest(keys: set<string>, ip: string, i: nat, j: nat)
    requires i <= j <= |ip| && OnPath(keys, ip[..j])
    ensures j <= WalkFrom(keys, ip, i)
    decreases |ip| - i
  {
    if i < j {
      PathDown(keys, ip, i + 1, j);
      WalkIsLongest(keys, ip, i + 1, j);
    }
  }

  lemma {:induction false} PathDown(keys: set<string>, ip: string, i: nat, j: nat)
    requires i <= j <= |ip| && OnPath(keys, ip[..j])
    ensures OnPath(keys, ip[..i])
  {
    if i < j {
      var q :| q in keys && ip[..j] <= q;
      assert ip[..i] <= q;
    }
  }

  /** The entry that search answers from. */
  ghost function Answer(keys: set<string>, ip: string): (e: string)
    requires keys != {} && forall k :: k in keys ==> IsBits(k)
    ensures e in keys
  {
    WalkIsOnPath(keys, ip, 0);
    Descend(keys, Walk(keys, ip))
  }

  /** e is the longest entry that the address starts with. */
  ghost predicate LongestMatch(keys: set<string>, ip: string, e: string) {
    e in keys && e <= ip && forall q :: q in keys && q <= ip ==> |q| <= |e|
  }

  /** search answers from an entry that matches the address iff the walk ends at an entry, and that entry is then
      the longest match; otherwise it answers from an entry that does not match at all. */
  lemma AnswerIsLongestMatchIff(keys: set<string>, ip: string)
    requires keys != {} && forall k :: k in keys ==> IsBits(k)
    ensures Answer(keys, ip) <= ip <==> Walk(keys, ip) in keys
    ensures LongestMatch(keys, ip, Answer(keys, ip)) <==> Walk(keys, ip) in keys
  {
    var n, w, e := WalkFrom(keys, ip, 0), Walk(keys, ip), Answer(keys, ip);
    WalkIsOnPath(keys, ip, 0);
    if e <= ip {
      assert ip[..|e|] == e;
      assert OnPath(keys, e);
      WalkIsLongest(keys, ip, 0, |e|);
      assert e == w;
    }
    if w in keys {
      forall q | q in keys && q <= ip ensures |q| <= |e| {
        assert ip[..|q|] == q;
        WalkIsLongest(keys, ip, 0, |q|);
      }
    }
  }

  /** An address that has a match is answered from its longest match iff the walk does not run past that match. */
  lemma RightIffNotPast(keys: set<string>, ip: string, e: string)
    requires keys != {} && forall k :: k in keys ==> IsBits(k)
    requires LongestMatch(keys, ip, e)
    ensures Answer(keys, ip) == e <==> Walk(keys, ip) == e
  {
    AnswerIsLongestMatchIff(keys, ip);
    WalkIsOnPath(keys, ip, 0);
    if Walk(keys, ip) in keys {
      var a := Answer(keys, ip);
      assert ip[..|e|] == e && ip[..|a|] == a;
    }
  }

  /** Routes for 1 and for 111: the address 110 matches the first only, but is answered from the second. */
  lemma FallbackMissesShorterMatch()
    ensures LongestMatch({"1", "111"}, "110", "1")
    ensures Answer({"1", "111"}, "110") == "111"
  {
    var keys, ip := {"1", "111"}, "110";
    assert ip[..0] == "" && ip[..1] == "1" && ip[..2] == "11" && ip[..3] == "110";
    assert "1" <= "1" && "11" <= "111" && "111" <= "111";
    assert OnPath(keys, "1") && OnPath(keys, "11") && OnPath(keys, "111");
    assert !OnPath(keys, "110") by {
      assert "111"[2] != "110"[2];
    }
    assert Walk(keys, ip) == "11" by {
      assert WalkFrom(keys, ip, 2) == 2;
      assert WalkFrom(keys, ip, 1) == 2;
      assert WalkFrom(keys, ip, 0) == 2;
    }
    assert Ext("11", false) == "110" && Ext("11", true) == "111";
    assert Descend(keys, "111") == "111";
    assert Descend(keys, "11") == "111";
    assert Answer(keys, ip) == "111";
  }

  /** An address that can be followed to a route and no further is answered from that route. */
  lemma AnswerAt(keys: set<string>, ip: string, n: nat)
    requires (forall k :: k in keys ==> IsBits(k)) && n <= |ip| && ip[..n] in keys
    requires n < |ip| ==> !OnPath(keys, ip[..n + 1])
    ensures keys != {} && Answer(keys, ip) == ip[..n]
  {
    assert OnPath(keys, ip[..n]);
    hide OnPath;
    WalkIsOnPath(keys, ip, 0);
    WalkIsLongest(keys, ip, 0, n);
    if WalkFrom(keys, ip, 0) > n {
      PathDown(keys, ip, n + 1, WalkFrom(keys, ip, 0));
    }
  }

  /** Routes for 10 and 11: an address that matches neither is answered from the one below child 0. */
  lemma FallbackTakesChildZero()
    ensures Answer({"10", "11"}, "0") == "10"
  {
    var keys, ip := {"10", "11"}, "0";
    assert "1" <= "10" && "10" <= "10" && "11" <= "11";
    assert OnPath(keys, "1") && OnPath(keys, "10") && OnPath(keys, "11");
    assert !OnPath(keys, "0") by {
      assert "10"[0] != "0"[0] && "11"[0] != "0"[0];
    }
    assert ip[..0] == "" && ip[..1] == "0";
    assert WalkFrom(keys, ip, 0) == 0;
    assert Ext("", false) == "0" && Ext("", true) == "1";
    assert Ext("1", false) == "10" && Ext("1", true) == "11";
    assert Descend(keys, "10") == "10";
    assert Descend(keys, "1") == "10";
    assert Descend(keys, "") == "10";
  }

  // ---------------------------------------------------------------------------------------------
  // The linked nodes
  // ---------------------------------------------------------------------------------------------

  /** What a TrieNode holds: children[0], children[1] and the rest. */
  datatype Cell = Cell(zero: TrieNode?, one: TrieNode?, isLeaf: bool, prefix: string, nexthop: string)

  class TrieNode {
    var zero: TrieNode?
    var one: TrieNode?
    var isLeaf: bool
    var prefix: string
    var nexthop: string
    ghost const path: string  // the bits on the way from the root

    constructor (ghost path: string)
      ensures Held() == Cell(null, null, false, "", "") && this.path == path
    {
      zero, one, isLeaf, prefix, nexthop := null, null, false, "", "";
      this.path := path;
    }

    ghost function Held(): Cell
      reads this
    {
      Cell(zero, one, isLeaf, prefix, nexthop)
    }
  }

  /** The bits of a route that count: a negative length means none. */
  function Key(ip: string, prefixLen: int): (k: string)
    ensures k <= ip && |k| == if prefixLen < 0 then 0 else if prefixLen <= |ip| then prefixLen else |ip|
  {
    if prefixLen < 0 then "" else if prefixLen <= |ip| then ip[..prefixLen] else ip
  }

  type Nodes = map<string, TrieNode>
  type Cells = map<string, Cell>

  function At(nodes: Nodes, p: string): TrieNode? {
    if p in nodes then nodes[p] else null
  }

  /** The nodes form a tree: the child of p by bit b is the node at Ext(p, b), if there is one. */
  ghost predicate Linked(nodes: Nodes, cells: Cells) {
    && cells.Keys == nodes.Keys && "" in nodes
    && (forall p {:trigger cells[p]} :: p in cells ==> cells[p].zero == At(nodes, Ext(p, false)))
    && (forall p {:trigger cells[p]} :: p in cells ==> cells[p].one == At(nodes, Ext(p, true)))
    && (forall p, b :: Ext(p, b) in nodes ==> p in nodes)
  }

  /** The marked nodes are the routes. */
  ghost predicate Marked(cells: Cells, table: map<string, string>) {
    && (forall p {:trigger cells[p]} :: p in cells ==> (cells[p].isLeaf <==> p in table))
    && (forall p {:trigger cells[p]} :: p in cells && p in table ==> cells[p].nexthop == table[p])
    && (forall p :: p in table ==> p in cells && IsBits(p))
  }

  ghost predicate Labelled(cells: Cells) {
    forall p {:trigger cells[p]} :: p in cells ==> cells[p].prefix == p
  }

  /** A new node, already labelled, below the node at p. */
  function WithChild(cells: Cells, p: string, b: bool, child: TrieNode): Cells
    requires p in cells
  {
    cells[p := if b then cells[p].(one := child) else cells[p].(zero := child)]
         [Ext(p, b) := Cell(null, null, false, Ext(p, b), "")]
  }

  lemma ChildLinked(nodes: Nodes, cells: Cells, p: string, b: bool, child: TrieNode)
    requires Linked(nodes, cells) && p in nodes && Ext(p, b) !in nodes
    ensures Linked(nodes[Ext(p, b) := child], WithChild(cells, p, b, child))
  {
    hide Ext;
    ExtUnique(p, b);
    ExtUnique(p, !b);
    var e := Ext(p, b);
    var nodes1, cells1 := nodes[e := child], WithChild(cells, p, b, child);
    forall q | q in cells1
      ensures cells1[q].zero == At(nodes1, Ext(q, false)) && cells1[q].one == At(nodes1, Ext(q, true))
    {
      if q == e {
        assert Ext(e, false) !in nodes && Ext(e, true) !in nodes;
      } else if q != p {
        assert cells1[q] == cells[q];
      }
    }
  }

  lemma ChildOf(nodes: Nodes, cells: Cells, p: string, b: bool)
    requires Linked(nodes, cells) && p in nodes
    ensures p in cells && cells.Keys == nodes.Keys && (if b then cells[p].one else cells[p].zero) == At(nodes, Ext(p, b))
  {
  }

  lemma RootKept(nodes: Nodes, cells: Cells, e: string)
    requires Linked(nodes, cells) && e !in nodes
    ensures e != ""
  {
  }

  lemma LabelKept(cells: Cells, e: string)
    requires Labelled(cells) && e in cells
    ensures cells[e].prefix == e
  {
  }

  /** The paths are the prefixes of entries and those of s. */
  ghost predicate PathsTo(nodes: Nodes, keys: set<string>, s: string) {
    forall q :: q in nodes <==> OnPath(keys, q) || StartsWith(s, q)
  }

  lemma PathsStart(nodes: Nodes, cells: Cells, table: map<string, string>, s: string)
    requires Linked(nodes, cells) && forall p :: p in nodes <==> OnPath(table.Keys, p)
    ensures s[..0] == "" && "" in nodes && PathsTo(nodes, table.Keys, s[..0])
  {
    hide Ext;
    assert forall q :: StartsWith(s[..0], q) ==> q == "";
  }

  lemma PathsStep(nodes: Nodes, keys: set<string>, s: string, i: nat, child: TrieNode)
    requires i < |s| && (s[i] == '0' || s[i] == '1') && PathsTo(nodes, keys, s[..i])
    ensures PathsTo(nodes[s[..i + 1] := child], keys, s[..i + 1])
  {
    hide OnPath, StartsWith;
    PathStep(s, i);
  }

  lemma PathsDone(nodes: Nodes, keys: set<string>, s: string)
    requires PathsTo(nodes, keys, s)
    ensures forall q :: q in nodes <==> OnPath(keys + {s}, q)
  {
    hide OnPath, StartsWith;
    forall q ensures q in nodes <==> OnPath(keys + {s}, q) {
      OnPathInserted(keys, s, q);
    }
  }

  lemma SearchStart(nodes: Nodes, cells: Cells, table: map<string, string>)
    requires Linked(nodes, cells) && Marked(cells, table) && table != map[]
    ensures "" in nodes && table.Keys != {} && forall k :: k in table.Keys ==> IsBits(k)
  {
  }

  lemma DescentStart(nodes: Nodes, table: map<string, string>, ip: string)
    requires table.Keys != {} && (forall k :: k in table.Keys ==> IsBits(k))
    requires forall p :: p in nodes <==> OnPath(table.Keys, p)
    ensures OnPath(table.Keys, Walk(table.Keys, ip))
    ensures Descend(table.Keys, Walk(table.Keys, ip)) == Answer(table.Keys, ip)
  {
    WalkIsOnPath(table.Keys, ip, 0);
  }

  /** From an unmarked node there is a child to go to, and it leads to the same entry. */
  lemma DescentStep(nodes: Nodes, cells: Cells, table: map<string, string>, p: string)
    requires Linked(nodes, cells) && Marked(cells, table) && forall q :: q in nodes <==> OnPath(table.Keys, q)
    requires table.Keys != {} && (forall k :: k in table.Keys ==> IsBits(k))
    requires p in cells && p in nodes && !cells[p].isLeaf
    ensures var b := cells[p].zero == null;
            && Ext(p, b) in nodes && OnPath(table.Keys, Ext(p, b))
            && nodes[Ext(p, b)] == (if b then cells[p].one else cells[p].zero)
            && Descend(table.Keys, Ext(p, b)) == Descend(table.Keys, p)
            && |p| < |Ext(p, b)| && |p| < MaxLen(table.Keys)
  {
    SomeChild(table.Keys, p);
  }

  lemma DescentDone(nodes: Nodes, cells: Cells, table: map<string, string>, p: string)
    requires Marked(cells, table) && p in cells && cells[p].isLeaf
    requires table.Keys != {} && (forall k :: k in table.Keys ==> IsBits(k)) && OnPath(table.Keys, p)
    ensures p in table && cells[p].nexthop == table[p] && Descend(table.Keys, p) == p
  {
  }

  lemma BitsAt(s: string, i: nat)
    requires IsBits(s) && i < |s|
    ensures s[i] == '0' || s[i] == '1'
  {
  }

  lemma RootAlone(root: TrieNode)
    ensures Linked(map["" := root], map["" := Cell(null, null, false, "", "")])
    ensures Marked(map["" := Cell(null, null, false, "", "")], map[])
    ensures Labelled(map["" := Cell(null, null, false, "", "")])
  {
    forall p, b ensures Ext(p, b) != "" {
    }
  }

  /** The node at k, marked. */
  function WithRoute(cells: Cells, k: string, hop: string): Cells
    requires k in cells
  {
    cells[k := cells[k].(isLeaf := true, nexthop := hop)]
  }

  lemma RouteLinked(nodes: Nodes, cells: Cells, k: string, hop: string)
    requires Linked(nodes, cells) && k in nodes
    ensures k in cells && Linked(nodes, WithRoute(cells, k, hop))
  {
    hide Ext;
  }

  /** Marking the node at k adds the route for k, or replaces its next hop. */
  lemma RouteMarked(cells: Cells, table: map<string, string>, k: string, hop: string)
    requires Marked(cells, table) && Labelled(cells) && k in cells && IsBits(k)
    ensures Marked(WithRoute(cells, k, hop), table[k := hop]) && Labelled(WithRoute(cells, k, hop))
    ensures table[k := hop].Keys == table.Keys + {k}
  {
    hide IsBits;
  }

  lemma ChildMarked(nodes: Nodes, cells: Cells, table: map<string, string>, p: string, b: bool, child: TrieNode)
    requires Marked(cells, table) && Labelled(cells) && p in cells && Ext(p, b) !in cells
    ensures Marked(WithChild(cells, p, b, child), table) && Labelled(WithChild(cells, p, b, child))
  {
    hide Ext, IsBits;
  }

  datatype Route = Route(ip: string, prefixLen: int, nexthop: string)

  predicate WellFormed(r: Route) {
    r.prefixLen <= |r.ip| && IsBits(Key(r.ip, r.prefixLen))
  }

  /** The table after inserting the routes in order. */
  function Routes(rs: seq<Route>): map<string, string>
    requires forall j :: 0 <= j < |rs| ==> WellFormed(rs[j])
    decreases rs
  {
    if rs == [] then map[]
    else
      var r := rs[|rs| - 1];
      Routes(rs[..|rs| - 1])[Key(r.ip, r.prefixLen) := r.nexthop]
  }

  /** The route for k is the one inserted last. */
  lemma {:induction false} LastRouteWins(rs: seq<Route>, i: nat)
    requires (forall j :: 0 <= j < |rs| ==> WellFormed(rs[j])) && i < |rs|
    requires forall j :: i < j < |rs| ==> Key(rs[j].ip, rs[j].prefixLen) != Key(rs[i].ip, rs[i].prefixLen)
    ensures Key(rs[i].ip, rs[i].prefixLen) in Routes(rs)
    ensures Routes(rs)[Key(rs[i].ip, rs[i].prefixLen)] == rs[i].nexthop
    ensures 0 <= rs[i].prefixLen <= |rs[i].ip| ==>
              var k := rs[i].ip[..rs[i].prefixLen];
              k in Routes(rs) && Routes(rs)[k] == rs[i].nexthop
    decreases rs
  {
    var n := |rs| - 1;
    if i < n {
      LastRouteWins(rs[..n], i);
    }
  }

  /** The address starts with the first prefixLen bits of the route. */
  predicate Covers(r: Route, addr: string) {
    r.prefixLen <= |r.ip| && r.prefixLen <= |addr| && forall k :: 0 <= k < r.prefixLen ==> addr[k] == r.ip[k]
  }

  lemma CoversIffPrefix(r: Route, addr: string)
    requires WellFormed(r)
    ensures Covers(r, addr) <==> Key(r.ip, r.prefixLen) <= addr
  {
    hide IsBits;
    var k := Key(r.ip, r.prefixLen);
    assert forall j :: 0 <= j < |k| ==> k[j] == r.ip[j];
    if Covers(r, addr) {
      assert forall j :: 0 <= j < |k| ==> k[j] == addr[j];
    }
    if k <= addr {
      assert forall j :: 0 <= j < |k| ==> k[j] == addr[j];
    }
  }

  /** Every prefix in the table is that of a route. */
  lemma {:induction false} SomeRoute(rs: seq<Route>, k: string) returns (j: nat)
    requires (forall j :: 0 <= j < |rs| ==> WellFormed(rs[j])) && k in Routes(rs)
    ensures j < |rs| && k == Key(rs[j].ip, rs[j].prefixLen)
    decreases rs
  {
    var n := |rs| - 1;
    if k == Key(rs[n].ip, rs[n].prefixLen) {
      j := n;
    } else {
      j := SomeRoute(rs[..n], k);
    }
  }

  lemma {:induction false} RouteIsListed(rs: seq<Route>, i: nat)
    requires (forall j :: 0 <= j < |rs| ==> WellFormed(rs[j])) && i < |rs|
    ensures Key(rs[i].ip, rs[i].prefixLen) in Routes(rs)
    decreases rs
  {
    var n := |rs| - 1;
    if i < n {
      RouteIsListed(rs[..n], i);
    }
  }

  /** A route that covers an address, while no route with more bits does, gives the address its longest match. */
  lemma LongestRouteMatches(rs: seq<Route>, i: nat, addr: string)
    requires (forall j :: 0 <= j < |rs| ==> WellFormed(rs[j])) && i < |rs| && rs[i].prefixLen >= 0
    requires Covers(rs[i], addr)
    requires forall j :: 0 <= j < |rs| && rs[j].prefixLen > rs[i].prefixLen ==> !Covers(rs[j], addr)
    ensures LongestMatch(Routes(rs).Keys, addr, rs[i].ip[..rs[i].prefixLen])
  {
    hide Covers, IsBits, Routes;
    var k := Key(rs[i].ip, rs[i].prefixLen);
    CoversIffPrefix(rs[i], addr);
    RouteIsListed(rs, i);
    forall q | q in Routes(rs) && q <= addr ensures |q| <= |k| {
      var j := SomeRoute(rs, q);
      CoversIffPrefix(rs[j], addr);
    }
  }

  /** No route with more than n bits shares the first n + 1 bits with the address. */
  predicate NoneGoesOn(rs: seq<Route>, n: nat, addr: string) {
    forall j :: 0 <= j < |rs| && rs[j].prefixLen > n ==> !Covers(rs[j].(prefixLen := n + 1), addr)
  }

  lemma NotOnPath(rs: seq<Route>, n: nat, addr: string)
    requires (forall j :: 0 <= j < |rs| ==> WellFormed(rs[j])) && n < |addr|
    ensures OnPath(Routes(rs).Keys, addr[..n + 1]) ==> !NoneGoesOn(rs, n, addr)
  {
    hide IsBits, Routes;
    if OnPath(Routes(rs).Keys, addr[..n + 1]) {
      var q :| q in Routes(rs).Keys && addr[..n + 1] <= q;
      var j := SomeRoute(rs, q);
      assert forall k :: 0 <= k < n + 1 ==> addr[k] == addr[..n + 1][k] == q[k] == rs[j].ip[k];
      assert Covers(rs[j].(prefixLen := n + 1), addr);
    }
  }

  /** A route that covers an address, and is the last for its prefix, answers the address if no route with more bits
      goes on along it. */
  lemma RouteAnswers(rs: seq<Route>, i: nat, addr: string)
    requires (forall j :: 0 <= j < |rs| ==> WellFormed(rs[j])) && i < |rs| && rs[i].prefixLen >= 0
    requires Covers(rs[i], addr) && NoneGoesOn(rs, rs[i].prefixLen, addr)
    requires forall j :: i < j < |rs| ==> Key(rs[j].ip, rs[j].prefixLen) != rs[i].ip[..rs[i].prefixLen]
    ensures (forall k :: k in Routes(rs).Keys ==> IsBits(k)) && Routes(rs).Keys != {}
    ensures Routes(rs)[Answer(Routes(rs).Keys, addr)] == rs[i].nexthop
  {
    hide Answer, IsBits, Routes, OnPath, NoneGoesOn;
    var n := rs[i].prefixLen;
    CoversIffPrefix(rs[i], addr);
    assert addr[..n] == rs[i].ip[..n] == Key(rs[i].ip, n);
    hide Covers;
    LastRouteWins(rs, i);
    forall k | k in Routes(rs).Keys ensures IsBits(k) {
      var j := SomeRoute(rs, k);
      assert WellFormed(rs[j]);
    }
    if n < |addr| {
      NotOnPath(rs, n, addr);
    }
    AnswerAt(Routes(rs).Keys, addr, n);
  }

  class Trie {
    const root: TrieNode
    ghost var Repr: set<TrieNode>
    ghost var nodes: Nodes                     // the node at the end of each path
    ghost var cells: Cells                     // what those nodes hold
    ghost var table: map<string, string>       // the routes: prefix to the next hop inserted last

    /** The ghost views agree with the nodes. */
    ghost predicate Tied()
      reads `nodes, `cells, `Repr, Repr
    {
      && cells.Keys == nodes.Keys
      && (forall p :: p in nodes ==> nodes[p] in Repr && nodes[p].path == p)
      && (forall n :: n in Repr ==> n.path in cells && nodes[n.path] == n)
      && (forall n :: n in Repr ==> cells[n.path] == Cell(n.zero, n.one, n.isLeaf, n.prefix, n.nexthop))
    }

    ghost predicate Tree()
      reads this, Repr
    {
      Tied() && Linked(nodes, cells) && Marked(cells, table) && Labelled(cells) && nodes[""] == root
    }

    /** Moreover the paths are exactly the prefixes of routes, and the root. */
    ghost predicate Valid()
      reads this, Repr
    {
      Tree() && forall p :: p in nodes <==> OnPath(table.Keys, p)
    }

    constructor ()
      ensures Valid() && table == map[] && fresh(Repr)
    {
      root := new TrieNode("");
      new;
      Repr := {root};
      nodes, table, cells := map["" := root], map[], map["" := Cell(null, null, false, "", "")];
      RootAlone(root);
    }

    /** children[b] = child, on the node at p. */
    method SetChild(ghost p: string, node: TrieNode, b: bool, child: TrieNode)
      requires Tied() && p in nodes && nodes[p] == node
      modifies this`cells, node`zero, node`one
      ensures Tied() && cells == old(cells)[p := if b then old(cells)[p].(one := child) else old(cells)[p].(zero := child)]
    {
      if b {
        node.one := child;
      } else {
        node.zero := child;
      }
      cells := cells[p := if b then cells[p].(one := child) else cells[p].(zero := child)];
    }

    /** Writes a label that is already there. */
    method SetPrefix(node: TrieNode, bits: string)
      requires Tied() && bits in nodes && nodes[bits] == node && bits in cells && cells[bits].prefix == bits
      modifies node`prefix
      ensures Tied()
    {
      node.prefix := bits;
    }

    /** The node becomes part of the tree at its path. */
    ghost method Adopt(e: string, node: TrieNode)
      requires Tied() && e !in nodes && node.path == e
      modifies this`cells, this`nodes, this`Repr
      ensures Tied() && nodes == old(nodes)[e := node] && cells == old(cells)[e := node.Held()]
      ensures Repr == old(Repr) + {node}
    {
      nodes := nodes[e := node];
      cells := cells[e := node.Held()];
      Repr := Repr + {node};
    }

    /** Allocates the missing child of the node at p by bit b. */
    method NewChild(ghost p: string, node: TrieNode, b: bool, bits: string) returns (child: TrieNode)
      requires Tied() && p in nodes && nodes[p] == node && p in cells && bits == Ext(p, b) && bits !in nodes
      modifies this`cells, this`nodes, this`Repr, node`zero, node`one
      ensures Tied() && nodes == old(nodes)[bits := child] && cells == WithChild(old(cells), p, b, child)
      ensures fresh(child) && Repr == old(Repr) + {child}
    {
      hide Ext, Tied;
      ExtUnique(p, b);
      child := new TrieNode(bits);
      SetChild(p, node, b, child);
      child.prefix := bits;
      Adopt(bits, child);
    }

    /** One round of the insertion loop: the child of the node at p by the next bit, allocated if it is missing,
        and labelled with its path. */
    method NextNode(ghost p: string, node: TrieNode, b: bool, bits: string) returns (child: TrieNode)
      requires Tree() && p in nodes && nodes[p] == node && bits == Ext(p, b)
      modifies this`cells, this`nodes, this`Repr, Repr
      ensures Tree() && nodes == old(nodes)[bits := child]
      ensures fresh(Repr - old(Repr))
    {
      hide Ext, IsBits, Linked, Marked, Labelled, Tied, WithChild;
      ChildOf(nodes, cells, p, b);
      NodeOf(p);
      NodeOf(bits);
      var next := if b then node.one else node.zero;
      if next == null {
        child := NewChild(p, node, b, bits);
        ChildLinked(old(nodes), old(cells), p, b, child);
        ChildMarked(old(nodes), old(cells), table, p, b, child);
        RootKept(old(nodes), old(cells), bits);
      } else {
        child := next;
        LabelKept(cells, bits);
        SetPrefix(child, bits);
        assert nodes == nodes[bits := child];
      }
    }

    lemma NodeOf(p: string)
      requires Tied()
      ensures p in nodes ==> p in cells && nodes[p] in Repr && nodes[p].path == p && cells[p] == nodes[p].Held()
    {
    }

    /** isLeaf = true and nexthop = hop, on the node at key. */
    method SetRoute(ghost key: string, node: TrieNode, hop: string)
      requires Tied() && key in nodes && nodes[key] == node
      modifies this`cells, node`isLeaf, node`nexthop
      ensures Tied() && key in old(cells) && cells == WithRoute(old(cells), key, hop)
    {
      node.isLeaf := true;
      node.nexthop := hop;
      cells := WithRoute(cells, key, hop);
    }

    /** Marks the node at key and stores the next hop in it. */
    method Mark(ghost key: string, node: TrieNode, hop: string)
      requires Tree() && key in nodes && nodes[key] == node && IsBits(key)
      modifies this`cells, this`table, node`isLeaf, node`nexthop
      ensures Tree() && table == old(table)[key := hop] && table.Keys == old(table).Keys + {key}
    {
      hide Ext, IsBits, Linked, Marked, Labelled, Tied, WithRoute;
      RouteLinked(nodes, cells, key, hop);
      RouteMarked(cells, table, key, hop);
      SetRoute(key, node, hop);
      table := table[key := hop];
    }

    /** insert: the route is added, or its next hop replaced. */
    method Insert(ip: string, prefixLen: int, nexthop: string)
      requires Valid() && prefixLen <= |ip| && IsBits(Key(ip, prefixLen))
      modifies this, Repr
      ensures Valid() && table == old(table)[Key(ip, prefixLen) := nexthop]
      ensures prefixLen >= 0 ==> ip[..prefixLen] in table && table[ip[..prefixLen]] == nexthop
      ensures prefixLen >= 0 ==> table - {ip[..prefixLen]} == old(table) - {ip[..prefixLen]}
      ensures fresh(Repr - old(Repr))
    {
      hide Ext, Linked, Marked, Labelled, OnPath, StartsWith, Tied, PathsTo;
      var node := root;
      ghost var key := Key(ip, prefixLen);
      var i := 0;
      PathsStart(nodes, cells, table, key);
      while i < prefixLen
        invariant 0 <= i <= |key| && Tree() && table == old(table)
        invariant key[..i] in nodes && nodes[key[..i]] == node
        invariant PathsTo(nodes, table.Keys, key[..i])
        invariant fresh(Repr - old(Repr))
      {
        hide Tree;
        PathStep(key, i);
        assert ip[..i + 1] == key[..i + 1];
        ghost var was := nodes;
        node := NextNode(key[..i], node, Bit(ip[i]), ip[..i + 1]);
        PathsStep(was, table.Keys, key, i, node);
        i := i + 1;
      }
      assert key[..i] == key;
      PathsDone(nodes, table.Keys, key);
      NodeOf(key);
      Mark(key, node, nexthop);
    }

    /** A routing table is built by inserting its routes. */
    method InsertAll(rs: seq<Route>)
      requires Valid() && table == map[] && forall j :: 0 <= j < |rs| ==> WellFormed(rs[j])
      modifies this, Repr
      ensures Valid() && table == Routes(rs) && fresh(Repr - old(Repr))
      ensures forall j :: 0 <= j < |rs| && 0 <= rs[j].prefixLen <= |rs[j].ip| ==> rs[j].ip[..rs[j].prefixLen] in table
    {
      hide Tree, OnPath, Valid;
      var i := 0;
      while i < |rs|
        invariant 0 <= i <= |rs| && Valid() && table == Routes(rs[..i])
        invariant fresh(Repr - old(Repr))
      {
        assert rs[..i + 1][..i] == rs[..i];
        Insert(rs[i].ip, rs[i].prefixLen, rs[i].nexthop);
        i := i + 1;
      }
      assert rs[..i] == rs;
      forall j | 0 <= j < |rs| && 0 <= rs[j].prefixLen <= |rs[j].ip| ensures rs[j].ip[..rs[j].prefixLen] in table {
        RouteIsListed(rs, j);
      }
    }

    /** search: answers with the next hop of the entry that Answer describes. */
    method Search(ip: string) returns (hop: string)
      requires Valid() && table != map[] && IsBits(ip)
      ensures table.Keys != {} && forall k :: k in table.Keys ==> IsBits(k)
      ensures hop == table[Answer(table.Keys, ip)]
      ensures Answer(table.Keys, ip) <= ip <==> Walk(table.Keys, ip) in table
      ensures LongestMatch(table.Keys, ip, Answer(table.Keys, ip)) <==> Walk(table.Keys, ip) in table
    {
      hide Ext, IsBits, Linked, Marked, Labelled, OnPath, StartsWith, Tied, Answer, LongestMatch, Descend, MaxLen;
      ghost var keys := table.Keys;
      var node := root;
      var i := 0;
      SearchStart(nodes, cells, table);
      while i < |ip|
        invariant 0 <= i <= |ip| && ip[..i] in nodes && nodes[ip[..i]] == node
        invariant WalkFrom(keys, ip, 0) == WalkFrom(keys, ip, i)
        decreases |ip| - i
      {
        BitsAt(ip, i);
        PathStep(ip, i);
        NodeOf(ip[..i]);
        ChildOf(nodes, cells, ip[..i], Bit(ip[i]));
        var next := if Bit(ip[i]) then node.one else node.zero;
        if next == null {
          break;
        }
        node := next;
        i := i + 1;
      }
      ghost var entry := ip[..i];
      assert Walk(keys, ip) == entry;
      DescentStart(nodes, table, ip);
      NodeOf(entry);
      while !node.isLeaf
        invariant entry in nodes && nodes[entry] == node && OnPath(keys, entry) && Descend(keys, entry) == Answer(keys, ip)
        invariant entry in cells && cells[entry] == node.Held()
        decreases MaxLen(keys) - |entry|
      {
        DescentStep(nodes, cells, table, entry);
        entry := if node.zero != null then Ext(entry, false) else Ext(entry, true);
        node := if node.zero != null then node.zero else node.one;
        NodeOf(entry);
      }
      DescentDone(nodes, cells, table, entry);
      hop := node.nexthop;
      AnswerIsLongestMatchIff(keys, ip);
    }
  }

  // ---------------------------------------------------------------------------------------------
  // The routing table of main
  // ---------------------------------------------------------------------------------------------

  const MAIN_ROUTES: seq<Route> := [
    Route("10000000", 1, "192.168.1.1"), Route("11000000", 2, "192.168.2.1"),
    Route("11000000", 3, "192.168.3.1"), Route("11100000", 3, "192.168.4.1")]

  lemma MainTable()
    ensures forall j :: 0 <= j < |MAIN_ROUTES| ==> WellFormed(MAIN_ROUTES[j])
    ensures Routes(MAIN_ROUTES)
         == map["1" := "192.168.1.1", "11" := "192.168.2.1", "110" := "192.168.3.1", "111" := "192.168.4.1"]
  {
    var rs := MAIN_ROUTES;
    assert Key("10000000", 1) == "1" && Key("11000000", 2) == "11";
    assert Key("11000000", 3) == "110" && Key("11100000", 3) == "111";
    assert rs[..3][..2] == rs[..2] && rs[..2][..1] == rs[..1] && rs[..1][..0] == [];
    assert Routes(rs[..1]) == map["1" := "192.168.1.1"];
    assert Routes(rs[..2]) == map["1" := "192.168.1.1", "11" := "192.168.2.1"];
    assert Routes(rs[..3]) == map["1" := "192.168.1.1", "11" := "192.168.2.1", "110" := "192.168.3.1"];
  }

  const MAIN_KEYS: set<string> := {"1", "11", "110", "111"}

  lemma MainPaths()
    ensures forall p :: OnPath(MAIN_KEYS, p) <==> p == "" || p in MAIN_KEYS
  {
    forall p ensures OnPath(MAIN_KEYS, p) <==> p == "" || p in MAIN_KEYS {
      if p in MAIN_KEYS {
        assert p <= p;
      }
      if p != "" && OnPath(MAIN_KEYS, p) {
        var q :| q in MAIN_KEYS && p <= q;
        assert p == q[..|p|] && (|p| == |q| ==> p == q);
        assert "11"[..1] == "1" && "110"[..1] == "1" && "110"[..2] == "11" && "111"[..1] == "1" && "111"[..2] == "11";
      }
    }
  }

  lemma MainAnswer(ip: string, n: nat)
    requires n <= |ip| && ip[..n] in MAIN_KEYS && (n < |ip| ==> ip[..n + 1] !in MAIN_KEYS)
    ensures Answer(MAIN_KEYS, ip) == ip[..n]
  {
    hide Answer, OnPath;
    MainPaths();
    AnswerAt(MAIN_KEYS, ip, n);
  }

  lemma MainAnswers()
    ensures Answer(MAIN_KEYS, "11000011") == "110" && Answer(MAIN_KEYS, "11010101") == "110"
    ensures Answer(MAIN_KEYS, "11100011") == "111" && Answer(MAIN_KEYS, "10011000") == "1"
  {
    hide Answer;
    assert "11000011"[..3] == "110" && "11000011"[..4] == "1100";
    assert "11010101"[..3] == "110" && "11010101"[..4] == "1101";
    assert "11100011"[..3] == "111" && "11100011"[..4] == "1110";
    assert "10011000"[..1] == "1" && "10011000"[..2] == "10";
    MainAnswer("11000011", 3);
    MainAnswer("11010101", 3);
    MainAnswer("11100011", 3);
    MainAnswer("10011000", 1);
  }

  /** main: four routes, four lookups.  The second address is expected to give 192.168.2.1 by the comment beside it. */
  method MainLookups() returns (answers: seq<string>)
    ensures answers == ["192.168.3.1", "192.168.3.1", "192.168.4.1", "192.168.1.1"]
  {
    hide Answer, LongestMatch, OnPath, Walk, Routes, WellFormed, Trie.Valid;
    MainTable();
    MainAnswers();
    var trie := new Trie();
    trie.InsertAll(MAIN_ROUTES);
    assert trie.table.Keys == MAIN_KEYS;
    var a := trie.Search("11000011");
    var b := trie.Search("11010101");
    var c := trie.Search("11100011");
    var d := trie.Search("10011000");
    answers := [a, b, c, d];
  }
}
