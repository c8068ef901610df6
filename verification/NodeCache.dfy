/** fst_node.c: the cache of supernodes, a list in order of preference with a hash
    by host beside it. */
module NodeCache {
  import opened Nodes

  //////////////////////////////////////////////////////////////////////////
  // The order.
  //////////////////////////////////////////////////////////////////////////

  /** load * (100 - load) in C: an unsigned product stored in an int. */
  function Score(load: nat): int {
    var u := load * (100 - load) % 0x1_0000_0000;
    if u < 0x8000_0000 then u else u - 0x1_0000_0000
  }

  datatype Rank = Rank(lastSeen: nat, load: nat)

  function RankOf(n: Node): Rank
    reads n`lastSeen, n`load
  {
    Rank(n.lastSeen, n.load)
  }

  /** nodecache_cmp_nodes. */
  function Compare(a: Rank, b: Rank): int {
    if a.lastSeen / 300 == b.lastSeen / 300 then
      var aa, bb := Score(a.load), Score(b.load);
      if aa > bb then -1 else if aa < bb then 1 else 0
    else if a.lastSeen > b.lastSeen then -1
    else 1
  }

  /** For a load of one byte, as servers send it, the score is the plain product, which
      is negative for more than 100 percent. */
  lemma ScoreOfByte(load: nat)
    requires load < 256
    ensures Score(load) == load * (100 - load)
  {
    assert load <= 100 ==> 0 <= load * (100 - load) <= 100 * 100;
    assert load > 100 ==> 0 < load * (load - 100) <= 256 * 156;
    assert load * (100 - load) == -(load * (load - 100));
  }

  /** The node is no worse than another: it was seen in a later period of five minutes,
      or in the same one and its score is no smaller. */
  ghost predicate Ahead(a: Node, b: Node)
    reads a`lastSeen, a`load, b`lastSeen, b`load
  {
    a.lastSeen / 300 > b.lastSeen / 300 || (a.lastSeen / 300 == b.lastSeen / 300 && Score(a.load) >= Score(b.load))
  }

  /** The order compares five-minute periods first, and within a period the scores,
      which for loads of one byte are the plain products. */
  lemma CompareIs(a: Rank, b: Rank)
    ensures Compare(a, b) <= 0 <==>
            a.lastSeen / 300 > b.lastSeen / 300 ||
            (a.lastSeen / 300 == b.lastSeen / 300 && Score(a.load) >= Score(b.load))
    ensures a.load < 256 && b.load < 256 ==>
              (Compare(a, b) <= 0 <==>
               a.lastSeen / 300 > b.lastSeen / 300 ||
               (a.lastSeen / 300 == b.lastSeen / 300 && a.load * (100 - a.load) >= b.load * (100 - b.load)))
  {
    hide Score;
    if a.load < 256 && b.load < 256 {
      ScoreOfByte(a.load);
      ScoreOfByte(b.load);
    }
  }

  /** It is a total preorder, and the comparison is the same from both sides. */
  lemma CompareOrders(a: Rank, b: Rank, c: Rank)
    ensures Compare(a, a) == 0 && Compare(b, a) == -Compare(a, b)
    ensures Compare(a, b) <= 0 && Compare(b, c) <= 0 ==> Compare(a, c) <= 0
  {
    hide Score;
    CompareIs(a, b);
    CompareIs(b, a);
    CompareIs(b, c);
    CompareIs(a, c);
  }

  ghost predicate Ordered(rs: seq<Rank>) {
    forall i, j :: 0 <= i < j < |rs| ==> Compare(rs[i], rs[j]) <= 0
  }

  /** Where list_insert_sorted puts an element. */
  function Place(rs: seq<Rank>, r: Rank): (k: nat)
    ensures k <= |rs|
    ensures forall i :: 0 <= i < k ==> Compare(r, rs[i]) > 0
    ensures k < |rs| ==> Compare(r, rs[k]) <= 0
  {
    if rs == [] || Compare(r, rs[0]) <= 0 then 0 else 1 + Place(rs[1..], r)
  }

  /** Inserting there keeps a list in order. */
  lemma PlaceKeepsOrder(rs: seq<Rank>, r: Rank)
    requires Ordered(rs)
    ensures Ordered(Inserted(rs, Place(rs, r), r))
  {
    hide Compare, Place;
    var k := Place(rs, r);
    var s := Inserted(rs, k, r);
    forall i, j | 0 <= i < j < |s|
      ensures Compare(s[i], s[j]) <= 0
    {
      if i == k && k < j - 1 {
        CompareOrders(r, rs[k], rs[j - 1]);
      } else if j == k {
        CompareOrders(r, rs[i], r);
      }
    }
  }

  //////////////////////////////////////////////////////////////////////////
  // The cache.
  //////////////////////////////////////////////////////////////////////////

  ghost function Ranks(nodes: seq<Node>): (rs: seq<Rank>)
    reads nodes`lastSeen, nodes`load
    ensures |rs| == |nodes| && forall i :: 0 <= i < |nodes| ==> rs[i] == RankOf(nodes[i])
  {
    if nodes == [] then [] else [RankOf(nodes[0])] + Ranks(nodes[1..])
  }

  function Data(cells: seq<Cell>): (nodes: seq<Node>)
    ensures |nodes| == |cells|
  {
    seq(|cells|, i requires 0 <= i < |cells| => cells[i].data)
  }

  function Without(s: seq<Node>, x: Node): seq<Node> {
    if s == [] then [] else if s[0] == x then s[1..] else [s[0]] + Without(s[1..], x)
  }

  lemma DataInserted(cells: seq<Cell>, k: nat, cell: Cell)
    requires k <= |cells|
    ensures Data(Inserted(cells, k, cell)) == Inserted(Data(cells), k, cell.data)
  {
  }

  lemma {:induction false} DataRemoved(cells: seq<Cell>, k: nat)
    requires k < |cells| && forall i :: 0 <= i < k ==> cells[i].data != cells[k].data
    ensures Data(Removed(cells, k)) == Without(Data(cells), cells[k].data)
  {
    if k == 0 {
      assert Data(Removed(cells, k)) == Data(cells)[1..];
    } else {
      DataRemoved(cells[1..], k - 1);
      assert Removed(cells, k) == [cells[0]] + Removed(cells[1..], k - 1);
      assert Data(Removed(cells, k)) == [cells[0].data] + Data(Removed(cells[1..], k - 1));
      assert Data(cells[1..]) == Data(cells)[1..];
    }
  }

  datatype InsertPos = Front | Back | Sorted

  /** The nodes and the cells are one to one, by the cells' data and the nodes' links. */
  ghost predicate LinkedBack(repr: set<Cell>, nodes: set<Node>)
    reads nodes`link
  {
    (forall c :: c in repr ==> c.data in nodes && c.data.link == c) &&
    (forall n :: n in nodes ==> n.link != null && n.link in repr && n.link.data == n)
  }

  ghost predicate Backed(repr: set<Cell>, nodes: set<Node>)
    reads nodes
  {
    LinkedBack(repr, nodes) && forall n :: n in nodes ==> n.Valid()
  }

  /** Where an element belongs among others. */
  function Position(pos: InsertPos, others: seq<Rank>, r: Rank): (k: nat)
    ensures k <= |others|
  {
    match pos
    case Front => 0
    case Back => |others|
    case Sorted => Place(others, r)
  }

  /** Where a node is put among others: at the front, at the back, or behind those that
      are better and before those that are not. */
  ghost predicate IsPlace(pos: InsertPos, others: seq<Node>, node: Node, k: nat)
    requires k <= |others|
    reads node`lastSeen, node`load, others`lastSeen, others`load
  {
    match pos
    case Front => k == 0
    case Back => k == |others|
    case Sorted =>
      (forall i :: 0 <= i < k ==> !Ahead(node, others[i])) && forall i :: k == i < |others| ==> Ahead(node, others[i])
  }

  lemma PositionIs(pos: InsertPos, others: seq<Node>, node: Node)
    ensures IsPlace(pos, others, node, Position(pos, Ranks(others), RankOf(node)))
  {
    hide Compare, Ranks, Ahead;
    forall i | 0 <= i < |others|
      ensures Ahead(node, others[i]) <==> Compare(RankOf(node), RankOf(others[i])) <= 0
    {
      AheadIs(node, others[i]);
    }
  }

  lemma OrderedAhead(s: seq<Node>)
    requires Ordered(Ranks(s))
    ensures forall i, j :: 0 <= i < j < |s| ==> Ahead(s[i], s[j])
  {
    hide Compare, Score, Ranks, Ahead;
    var rs := Ranks(s);
    forall i, j | 0 <= i < j < |s|
      ensures Ahead(s[i], s[j])
    {
      assert Compare(rs[i], rs[j]) <= 0;
      AheadIs(s[i], s[j]);
    }
  }

  /** What the comparison says of two nodes. */
  lemma AheadIs(a: Node, b: Node)
    ensures Ahead(a, b) <==> Compare(RankOf(a), RankOf(b)) <= 0
  {
    hide Compare, Score;
    CompareIs(RankOf(a), RankOf(b));
  }

  /** The index nodes of a list. */
  ghost function Indexes(s: seq<Node>): seq<Node>
    reads s`klass
  {
    if s == [] then []
    else Indexes(s[..|s| - 1]) + if s[|s| - 1].klass == Index then [s[|s| - 1]] else []
  }

  lemma {:induction false} IndexesAre(s: seq<Node>)
    ensures multiset(Indexes(s)) <= multiset(s)
    ensures forall n :: n in Indexes(s) <==> n in s && n.klass == Index
  {
    if s != [] {
      IndexesAre(s[..|s| - 1]);
      assert s == s[..|s| - 1] + [s[|s| - 1]];
    }
  }

  const MAX_NODESFILE_SIZE := 1000

  /** What is left of a sorted cache: its front, and the index nodes behind that. */
  ghost function Kept(s: seq<Node>): seq<Node>
    reads s`klass
  {
    if |s| <= MAX_NODESFILE_SIZE then s else s[..MAX_NODESFILE_SIZE] + Indexes(s[MAX_NODESFILE_SIZE..])
  }

  /** The first thousand nodes stay as they are, and of the others the index nodes, in
      their order. */
  lemma KeptIs(s: seq<Node>)
    ensures |s| <= 1000 ==> Kept(s) == s
    ensures |s| > 1000 ==>
              |Kept(s)| >= 1000 && Kept(s)[..1000] == s[..1000] &&
              forall n :: n in Kept(s)[1000..] <==> n in s[1000..] && n.klass == Index
  {
    if |s| > 1000 {
      IndexesAre(s[1000..]);
      hide Indexes;
      assert Kept(s)[1000..] == Indexes(s[1000..]);
    }
  }

  lemma {:induction false} IndexesInOrder(a: seq<Node>, b: seq<Node>)
    ensures Indexes(a + b) == Indexes(a) + Indexes(b)
  {
    if b == [] {
      assert a + b == a;
    } else {
      var t := b[..|b| - 1];
      IndexesInOrder(a, t);
      assert (a + b)[..|a + b| - 1] == a + t;
    }
  }

  /** The list when the nodes before q have been looked at. */
  ghost function Clipped(s: seq<Node>, q: nat): seq<Node>
    requires MAX_NODESFILE_SIZE <= q <= |s|
    reads s`klass
  {
    s[..MAX_NODESFILE_SIZE] + Indexes(s[MAX_NODESFILE_SIZE..q]) + s[q..]
  }

  lemma ClipStep(s: seq<Node>, q: nat)
    requires MAX_NODESFILE_SIZE <= q < |s|
    ensures var p := MAX_NODESFILE_SIZE + |Indexes(s[MAX_NODESFILE_SIZE..q])|;
            p < |Clipped(s, q)| && Clipped(s, q)[p] == s[q] &&
            (s[q].klass == Index ==> Clipped(s, q + 1) == Clipped(s, q)) &&
            (s[q].klass != Index ==> Clipped(s, q + 1) == Removed(Clipped(s, q), p)) &&
            |Indexes(s[MAX_NODESFILE_SIZE..q + 1])| ==
            |Indexes(s[MAX_NODESFILE_SIZE..q])| + if s[q].klass == Index then 1 else 0
  {
    var t := s[MAX_NODESFILE_SIZE..q + 1];
    assert t[..|t| - 1] == s[MAX_NODESFILE_SIZE..q] && t[|t| - 1] == s[q];
    assert s[q..] == [s[q]] + s[q + 1..];
    var front, rest := s[..MAX_NODESFILE_SIZE] + Indexes(s[MAX_NODESFILE_SIZE..q]), s[q + 1..];
    hide Indexes;
    assert Clipped(s, q) == front + [s[q]] + rest;
    Middle(front, s[q], rest);
    if s[q].klass == Index {
      assert s[..MAX_NODESFILE_SIZE] + (Indexes(s[MAX_NODESFILE_SIZE..q]) + [s[q]]) == front + [s[q]];
    }
  }

  lemma Middle(a: seq<Node>, x: Node, b: seq<Node>)
    ensures (a + [x] + b)[|a|] == x && Removed(a + [x] + b, |a|) == a + b
  {
  }

  lemma ClipEnds(s: seq<Node>)
    ensures |s| >= MAX_NODESFILE_SIZE ==> Clipped(s, MAX_NODESFILE_SIZE) == s && Clipped(s, |s|) == Kept(s)
    ensures |s| == MAX_NODESFILE_SIZE ==> Kept(s) == s
  {
    if |s| >= MAX_NODESFILE_SIZE {
      assert s[MAX_NODESFILE_SIZE..MAX_NODESFILE_SIZE] == [];
      assert s[..MAX_NODESFILE_SIZE] + [] + s[MAX_NODESFILE_SIZE..] == s;
      assert s[|s|..] == [] && s[MAX_NODESFILE_SIZE..|s|] == s[MAX_NODESFILE_SIZE..];
      if |s| == MAX_NODESFILE_SIZE {
        assert s[MAX_NODESFILE_SIZE..] == [];
      }
    }
  }

  class Cache {
    var list: Cell?
    var last: Cell?
    var hash: map<Host, Node>
    ghost var cells: seq<Cell>
    ghost var repr: set<Cell>
    ghost var nodes: set<Node>

    ghost predicate IsList()
      reads this`list, this`last, this`cells, this`repr, repr
    {
      Chain(list, cells, repr) && last == At(cells, |cells| - 1)
    }

    /** The list has a cell for every node of the cache, which the node links to. */
    ghost predicate LinksBack()
      reads this`repr, this`nodes, nodes
    {
      Backed(repr, nodes)
    }

    /** The hash maps exactly the listed hosts to the listed nodes. */
    ghost predicate Hashes()
      reads this`hash, this`nodes, nodes`host
    {
      (forall n :: n in nodes ==> n.host in hash && hash[n.host] == n) &&
      (forall h :: h in hash ==> hash[h] in nodes && hash[h].host == h)
    }

    ghost predicate Valid()
      reads this, repr, nodes
    {
      IsList() && LinksBack() && Hashes()
    }

    /** A node has no link unless it is listed here. */
    ghost predicate Knows(node: Node)
      reads this`nodes, node
    {
      node.Valid() && (node.link != null <==> node in nodes)
    }

    /** fst_nodecache_create. */
    constructor ()
      ensures Valid() && cells == [] && nodes == {} && repr == {} && hash == map[]
    {
      list, last, hash, cells, repr, nodes := null, null, map[], [], {}, {};
    }

    /** No node and no host is listed twice. */
    lemma {:induction false} NoDuplicates(i: nat, j: nat)
      requires Valid() && i < j < |cells|
      ensures cells[i].data != cells[j].data && cells[i].data.host != cells[j].data.host
    {
      assert cells[i] in repr && cells[j] in repr;
      assert cells[i] != cells[j];
    }

    ghost function Listed(): seq<Node>
      reads this`cells
    {
      Data(cells)
    }

    lemma UnlistedData(k: nat)
      requires IsList() && LinksBack() && k < |cells|
      ensures Data(Removed(cells, k)) == Without(Listed(), cells[k].data)
    {
      assert cells[k] in repr;
      forall i | 0 <= i < k
        ensures cells[i].data != cells[k].data
      {
        assert cells[i] in repr;
      }
      DataRemoved(cells, k);
    }

    /** IsList but for the pointer to the last cell. */
    ghost predicate Linked()
      reads this`list, this`cells, this`repr, repr
    {
      Chain(list, cells, repr)
    }

    lemma LastRemoved(k: nat)
      requires k < |cells| && Distinct(cells)
      ensures At(Removed(cells, k), |cells| - 2) ==
              if cells[k] == At(cells, |cells| - 1) then At(cells, k - 1) else At(cells, |cells| - 1)
    {
      AtRemoved(cells, k, |cells| - 2);
    }

    lemma InList(link: Cell)
      requires Linked()
      ensures link in repr <==> link in cells
    {
      if link in cells {
        assert cells[IndexOf(cells, link)] in repr;
      }
    }

    /** Takes a cell out of the list, and leaves the hash and the nodes alone. */
    method CutOut(link: Cell)
      requires Linked() && link in repr
      modifies this`list, this`cells, this`repr, repr
      ensures link in old(cells) && cells == Removed(old(cells), IndexOf(old(cells), link))
      ensures Linked() && repr == old(repr) - {link}
    {
      hide Distinct, Removed, IndexOf, At, Chain;
      InList(link);
      ghost var k := IndexOf(cells, link);
      list := RemoveLink(list, link, cells, repr, k);
      cells := Removed(cells, k);
      repr := repr - {link};
    }

    /** The end of a node's time in the cache. */
    method Release(node: Node, ghost cells: set<Cell>, ghost nodes: set<Node>)
      requires Backed(cells, nodes) && node in nodes
      modifies node`link, node`ref, node`holders
      ensures node.Valid() && node.link == null && node.holders == old(node.holders) - multiset{Cached}
      ensures Backed(cells - {old(node.link)}, nodes - {node})
    {
      node.link := null;
      var left := node.Release(Cached);
    }

    /** fst_nodecache_remove for a listed node. */
    method Unlist(node: Node)
      requires Valid() && node in nodes
      modifies this, repr, node`link, node`ref, node`holders
      ensures Valid() && Listed() == Without(old(Listed()), node)
      ensures nodes == old(nodes) - {node} && Knows(node) && repr == old(repr) - {old(node.link)}
      ensures hash == old(hash) - {node.host}
      ensures node.holders == old(node.holders) - multiset{Cached}
    {
      hide Removed, Without, Chain, At, Node.Valid, Hashes, Backed, IndexOf, Data;
      LinkedHere(node);
      InList(node.link);
      UnlistedData(IndexOf(cells, node.link));
      Cut(node);
    }

    method Cut(node: Node)
      requires Valid() && node in nodes && node.link != null && node.link in repr
      modifies this, repr, node`link, node`ref, node`holders
      ensures Valid()
      ensures old(node.link) in old(cells) && cells == Removed(old(cells), IndexOf(old(cells), old(node.link)))
      ensures nodes == old(nodes) - {node} && Knows(node) && repr == old(repr) - {old(node.link)}
      ensures hash == old(hash) - {node.host}
      ensures node.holders == old(node.holders) - multiset{Cached}
    {
      hide Removed, Node.Valid, Hashes, Backed, IndexOf, Chain, At, Distinct;
      NewLast(node.link);
      if node.link == last {
        last := node.link.prev;
      }
      Discard(node);
    }

    lemma NewLast(link: Cell)
      requires IsList() && link in repr
      ensures link in cells
      ensures At(Removed(cells, IndexOf(cells, link)), |cells| - 2) == if link == last then link.prev else last
    {
      InList(link);
      ChainAt(list, cells, repr, IndexOf(cells, link));
      hide IndexOf;
      LastRemoved(IndexOf(cells, link));
    }

    /** Ends a node's time in the cache, but for the pointer to the last cell. */
    method Discard(node: Node)
      requires Linked() && LinksBack() && Hashes() && node in nodes && node.link != null && node.link in repr
      modifies this`hash, this`nodes, this`list, this`cells, this`repr, repr, node`link, node`ref, node`holders
      ensures Linked() && LinksBack() && Hashes()
      ensures old(node.link) in old(cells) && cells == Removed(old(cells), IndexOf(old(cells), old(node.link)))
      ensures nodes == old(nodes) - {node} && Knows(node) && repr == old(repr) - {old(node.link)}
      ensures hash == old(hash) - {node.host}
      ensures node.holders == old(node.holders) - multiset{Cached}
    {
      hide Removed, Linked, Node.Valid, Hashes, Backed, IndexOf;
      ghost var cells0, nodes0 := repr, nodes;
      Unhash(node);
      CutOut(node.link);
      Release(node, cells0, nodes0);
    }

    lemma LinkedHere(node: Node)
      requires LinksBack() && node in nodes
      ensures node.link != null && node.link in repr && node.link.data == node
    {
    }

    method Unhash(node: Node)
      requires Hashes() && node in nodes
      modifies this`hash, this`nodes
      ensures Hashes() && nodes == old(nodes) - {node} && hash == old(hash) - {node.host}
    {
      hash := hash - {node.host};
      nodes := nodes - {node};
    }

    /** fst_nodecache_remove. */
    method Remove(node: Node?)
      requires Valid() && (node != null ==> Knows(node))
      modifies this, repr
      modifies (if node != null then {node} else {})`link, (if node != null then {node} else {})`ref
      modifies (if node != null then {node} else {})`holders
      ensures Valid() && repr <= old(repr)
      ensures node == null ==> nodes == old(nodes)
      ensures node != null ==>
                Knows(node) && node.link == null && nodes == old(nodes) - {node} &&
                node.holders == old(node.holders) - multiset{Cached}
      ensures Listed() == if node == null || old(node.link) == null then old(Listed()) else Without(old(Listed()), node)
    {
      if node == null {
        return;
      }
      NotHeldHere(node);
      if node.link != null {
        Unlist(node);
      }
    }

    lemma NotHeldHere(node: Node)
      requires Knows(node)
      ensures node.link == null ==> node !in nodes && node.holders - multiset{Cached} == node.holders
    {
    }

    //////////////////////////////////////////////////////////////////////////
    // Inserting.
    //////////////////////////////////////////////////////////////////////////

    lemma LastInserted(k: nat, cell: Cell)
      requires k <= |cells|
      ensures At(Inserted(cells, k, cell), |cells|) == if k == |cells| then cell else At(cells, |cells| - 1)
      ensures At(Inserted(cells, k, cell), k) == cell
    {
      AtInserted(cells, k, cell, |cells|);
      AtInserted(cells, k, cell, k);
    }

    /** A new cell for the node, between two neighbours. */
    method PutIn(node: Node, before: Cell?, after: Cell?, ghost k: nat) returns (cell: Cell)
      requires IsList() && k <= |cells| && before == At(cells, k - 1) && after == At(cells, k)
      modifies this`list, this`last, this`cells, this`repr, repr
      ensures fresh(cell) && cell.data == node
      ensures IsList() && cells == Inserted(old(cells), k, cell) && repr == old(repr) + {cell}
    {
      hide Inserted, At, Chain;
      list, cell := Insert(list, before, after, node, cells, repr, k);
      LastInserted(k, cell);
      if after == null {
        last := cell;
      }
      ghost var old_cells := cells;
      AfterNone(old_cells, k);
      cells := Inserted(cells, k, cell);
      repr := repr + {cell};
    }

    lemma AfterNone(s: seq<Cell>, k: nat)
      requires k <= |s|
      ensures At(s, k) == null <==> k == |s|
    {
    }

    /** Puts a node into the cache that its caller holds: the reference goes to the
        list, and the hash gets an entry. */
    method Enlist(node: Node, before: Cell?, after: Cell?, ghost k: nat) returns (cell: Cell)
      requires Valid() && Knows(node) && node !in nodes && node.host !in hash && Temporary in node.holders
      requires k <= |cells| && before == At(cells, k - 1) && after == At(cells, k)
      modifies this, repr, node`link, node`holders
      ensures Valid() && nodes == old(nodes) + {node} && Knows(node) && hash == old(hash)[node.host := node]
      ensures node.holders == old(node.holders) - multiset{Temporary} + multiset{Cached}
      ensures node.link == cell && cell.data == node && fresh(cell) && repr == old(repr) + {cell}
      ensures cells == Inserted(old(cells), k, cell)
    {
      hide Inserted, At, Chain, Hashes, IsList, Node.Valid, Backed;
      ghost var cells0 := repr;
      cell := PutIn(node, before, after, k);
      Attach(node, cell, cells0, nodes);
      Enhash(node);
    }

    method Enhash(node: Node)
      requires Hashes() && node !in nodes && node.host !in hash
      modifies this`hash, this`nodes
      ensures Hashes() && nodes == old(nodes) + {node} && hash == old(hash)[node.host := node]
    {
      hash := hash[node.host := node];
      nodes := nodes + {node};
    }

    /** The beginning of a node's time in the cache. */
    method Attach(node: Node, cell: Cell, ghost cells: set<Cell>, ghost nodes: set<Node>)
      requires Backed(cells, nodes) && node !in nodes && cell.data == node
      requires node.Valid() && node.link == null && Temporary in node.holders
      modifies node`link, node`holders
      ensures node.Valid() && node.link == cell
      ensures node.holders == old(node.holders) - multiset{Temporary} + multiset{Cached}
      ensures Backed(cells + {cell}, nodes + {node})
    {
      node.link := cell;
      node.holders := node.holders - multiset{Temporary} + multiset{Cached};
    }

    /** Where a node belongs, by walking down the list. */
    method FindPlace(node: Node) returns (before: Cell?, after: Cell?, ghost k: nat)
      requires IsList()
      ensures k == Place(Ranks(Listed()), RankOf(node)) && before == At(cells, k - 1) && after == At(cells, k)
    {
      hide Compare, Ranks;
      before, after, k := null, list, 0;
      ghost var rs := Ranks(Listed());
      assert rs[0..] == rs;
      while after != null && Compare(RankOf(node), RankOf(after.data)) > 0
        invariant k <= |cells| && before == At(cells, k - 1) && after == At(cells, k)
        invariant Place(rs, RankOf(node)) == k + Place(rs[k..], RankOf(node))
        decreases |cells| - k
      {
        assert after == cells[k] && rs[k] == RankOf(after.data);
        before, after, k := after, after.next, k + 1;
        assert rs[k - 1..][1..] == rs[k..];
      }
      if after != null {
        assert after == cells[k] && rs[k] == RankOf(after.data);
      }
    }

    /** The first half of fst_nodecache_move: out of the list, but still held. */
    method TakeOut(node: Node)
      requires Valid() && node in nodes
      modifies this, repr, node`link, node`ref, node`holders
      ensures Valid() && Knows(node) && nodes == old(nodes) - {node} && hash == old(hash) - {node.host}
      ensures node.holders == old(node.holders) + multiset{Temporary} - multiset{Cached}
      ensures repr <= old(repr) && Listed() == Without(old(Listed()), node)
    {
      hide Removed, Without, IsList, Hashes, Data;
      HeldHere(node);
      node.AddRef(Temporary);
      assert LinksBack();
      Unlist(node);
    }

    lemma HashedHere(node: Node)
      requires Hashes() && node in nodes
      ensures (hash - {node.host})[node.host := node] == hash && nodes - {node} + {node} == nodes
    {
    }

    lemma HeldHere(node: Node)
      requires LinksBack() && node in nodes
      ensures Knows(node) && node.ref == |node.holders| && node.ref > 0 && Cached in node.holders
    {
      assert Cached in node.holders;
      assert |node.holders| > 0;
    }

    /** The cells a node belongs between. */
    method Neighbours(node: Node, pos: InsertPos) returns (before: Cell?, after: Cell?)
      requires IsList()
      ensures var k := Position(pos, Ranks(Listed()), RankOf(node)); before == At(cells, k - 1) && after == At(cells, k)
    {
      hide Place, Ranks;
      match pos {
        case Front => return null, list;
        case Back => return last, null;
        case Sorted =>
          ghost var k;
          before, after, k := FindPlace(node);
      }
    }

    /** The second half of fst_nodecache_move. */
    method PutBack(node: Node, pos: InsertPos) returns (ghost place: nat)
      requires Valid() && Knows(node) && node !in nodes && node.host !in hash && Temporary in node.holders
      modifies this, repr, node`link, node`holders
      ensures Valid() && Knows(node) && nodes == old(nodes) + {node} && hash == old(hash)[node.host := node]
      ensures node.holders == old(node.holders) - multiset{Temporary} + multiset{Cached}
      ensures place <= |old(Listed())| && Listed() == Inserted(old(Listed()), place, node)
      ensures IsPlace(pos, old(Listed()), node, place)
      ensures forall c :: c in repr ==> c in old(repr) || fresh(c)
    {
      hide Inserted, Position, LinksBack, Hashes, Node.Valid, Data, IsList, At, IsPlace;
      ghost var cells0 := cells;
      place := Position(pos, Ranks(Listed()), RankOf(node));
      PositionIs(pos, Listed(), node);
      var before, after := Neighbours(node, pos);
      var cell := Enlist(node, before, after, place);
      DataInserted(cells0, place, cell);
    }

    /** fst_nodecache_move. */
    method Move(node: Node, pos: InsertPos) returns (moved: bool, ghost place: nat)
      requires Valid() && Knows(node)
      modifies this, repr, node`link, node`ref, node`holders
      ensures Valid() && Knows(node) && moved == (old(node.link) != null)
      ensures nodes == old(nodes) && node.holders == old(node.holders) && hash == old(hash)
      ensures !moved ==> Listed() == old(Listed())
      ensures moved ==>
                var others := Without(old(Listed()), node);
                place <= |others| && Listed() == Inserted(others, place, node) && IsPlace(pos, others, node, place)
      ensures forall c :: c in repr ==> c in old(repr) || fresh(c)
    {
      hide Inserted, LinksBack, Hashes, Node.Valid, Data, IsList, Without, IsPlace;
      if node.link == null {
        return false, 0;
      }
      HeldHere(node);
      HashedHere(node);
      TakeOut(node);
      place := PutBack(node, pos);
      moved := true;
    }

    lemma AtFront(others: seq<Node>, node: Node)
      ensures Inserted(others, 0, node) == [node] + others
    {
    }

    /** fst_nodecache_add for a host that is listed: its node is updated and moved. */
    method Refresh(node: Node, klass: Klass, port: nat, load: nat, lastSeen: nat)
      requires Valid() && node in nodes
      modifies this, repr, node
      ensures Valid() && Knows(node) && node.holders == old(node.holders)
      ensures nodes == old(nodes) && hash == old(hash) && Listed() == [node] + Without(old(Listed()), node)
      ensures node.klass == klass && node.host == old(node.host) && node.port == port
      ensures node.load == load && node.lastSeen == lastSeen
      ensures forall c :: c in repr ==> c in old(repr) || fresh(c)
    {
      hide Without, Inserted, Data, IsList, Position;
      LinkedHere(node);
      node.Update(klass, node.host, port, load, lastSeen);
      assert LinksBack() && Hashes();
      AtFront(Without(Listed(), node), node);
      hide LinksBack, Hashes, Node.Valid;
      ghost var place;
      var moved;
      moved, place := Move(node, Front);
    }

    /** fst_nodecache_add. */
    method Add(klass: Klass, host: Host, port: nat, load: nat, lastSeen: nat) returns (node: Node)
      requires Valid()
      modifies this, repr, if host in hash then {hash[host]} else {}
      ensures Valid() && Knows(node) && nodes == old(nodes) + {node} && hash == old(hash)[host := node]
      ensures host in old(hash) ==>
                node == old(hash[host]) && node.holders == old(hash[host].holders) &&
                Listed() == [node] + Without(old(Listed()), node)
      ensures host !in old(hash) ==>
                fresh(node) && node.holders == multiset{Cached} && Listed() == [node] + old(Listed())
      ensures node.klass == klass && node.host == host && node.port == port
      ensures node.load == load && node.lastSeen == lastSeen
      ensures forall c :: c in repr ==> c in old(repr) || fresh(c)
    {
      hide Without, Inserted, Data, IsList, Backed, Node.Valid;
      if host in hash {
        node := hash[host];
        Refresh(node, klass, port, load, lastSeen);
      } else {
        node := new Node(klass, host, port, load, lastSeen);
        ghost var cells0 := cells;
        AtStart(list);
        var cell := Enlist(node, null, list, 0);
        DataInserted(cells0, 0, cell);
        AtFront(Data(cells0), node);
      }
    }

    lemma AtStart(list: Cell?)
      requires IsList() && list == this.list
      ensures At(cells, -1) == null && At(cells, 0) == list
    {
    }

    lemma FrontListed()
      requires Valid()
      ensures list == null <==> Listed() == []
      ensures list != null ==> list.data in nodes && list.data.link != null && Listed()[0] == list.data
    {
    }

    /** fst_nodecache_get_front. */
    method GetFront() returns (node: Node?)
      requires Valid()
      modifies (if list == null then {} else {list.data})`ref, (if list == null then {} else {list.data})`holders
      ensures Valid() && (node == null <==> Listed() == [])
      ensures node != null ==>
                node == Listed()[0] && node.holders == old(list.data.holders) + multiset{Temporary} && Knows(node)
    {
      hide Data, Chain, At, Backed, Hashes, Node.Valid;
      FrontListed();
      if list == null {
        return null;
      }
      node := list.data;
      Hold(node, repr, nodes);
    }

    method Hold(node: Node, ghost cells: set<Cell>, ghost nodes: set<Node>)
      requires Backed(cells, nodes) && node in nodes
      modifies node`ref, node`holders
      ensures Backed(cells, nodes) && node.Valid() && node.holders == old(node.holders) + multiset{Temporary}
    {
      assert Cached in node.holders;
      node.AddRef(Temporary);
    }

    /** fst_node_release by code that held a node for a while. */
    method LetGo(node: Node)
      requires Valid() && Knows(node) && Temporary in node.holders
      modifies node`ref, node`holders
      ensures Valid() && Knows(node) && node.holders == old(node.holders) - multiset{Temporary}
    {
      hide Data, Chain, At, Backed, Hashes;
      ReleaseHeld(node, repr, nodes);
    }

    method ReleaseHeld(node: Node, ghost cells: set<Cell>, ghost nodes: set<Node>)
      requires Backed(cells, nodes) && node.Valid() && Temporary in node.holders
      modifies node`ref, node`holders
      ensures Backed(cells, nodes) && node.Valid() && node.holders == old(node.holders) - multiset{Temporary}
    {
      var left := node.Release(Temporary);
    }

    //////////////////////////////////////////////////////////////////////////
    // Sorting.
    //////////////////////////////////////////////////////////////////////////

    /** The cells in order: each is taken from the list and put where it belongs. */
    method CellsInOrder() returns (s: seq<Cell>, ghost rs: seq<Rank>)
      requires Linked()
      ensures |s| == |rs| == |cells| && Ordered(rs)
      ensures forall i :: 0 <= i < |s| ==> rs[i] == RankOf(s[i].data)
      ensures Distinct(s) && Covers(s, repr)
      ensures multiset(Data(s)) == multiset(Data(cells))
    {
      hide Compare, Place, Inserted, Chain, Distinct, Covers, Data, Ordered, At;
      var ptr, rank := list, [];
      s, rs := [], [];
      ghost var i, taken: set<Cell> := 0, {};
      Beginning(s, rs);
      while ptr != null
        invariant 0 <= i <= |cells| && ptr == At(cells, i) && |s| == |rank| == i && rank == rs
        invariant Ordered(rs) && forall j :: 0 <= j < i ==> rs[j] == RankOf(s[j].data)
        invariant Distinct(s) && Covers(s, taken) && Covers(cells[..i], taken)
        invariant multiset(Data(s)) == multiset(Data(cells[..i]))
        decreases |cells| - i
      {
        Walk(i);
        var c: Cell, r := ptr, RankOf(ptr.data);
        var k := Place(rank, r);
        TakenNext(s, rs, k, c, i, taken);
        s, rank, rs := Inserted(s, k, c), Inserted(rank, k, r), Inserted(rs, k, r);
        taken := taken + {c};
        ptr, i := c.next, i + 1;
      }
      Walk(i);
      assert cells[..i] == cells;
      AllTaken(s, taken);
    }

    lemma Beginning(s: seq<Cell>, rs: seq<Rank>)
      requires Linked() && s == [] && rs == []
      ensures list == At(cells, 0) && Ordered(rs) && Distinct(s) && Covers(s, {}) && Covers(cells[..0], {})
      ensures multiset(Data(s)) == multiset(Data(cells[..0]))
    {
    }

    /** Where a walk down the list is. */
    lemma Walk(i: nat)
      requires Linked() && i <= |cells|
      ensures At(cells, i) == null <==> i == |cells|
      ensures i < |cells| ==> cells[i] == At(cells, i) && cells[i].next == At(cells, i + 1) && cells[i] !in cells[..i]
    {
    }

    lemma AllTaken(s: seq<Cell>, taken: set<Cell>)
      requires Linked() && Covers(s, taken) && Covers(cells, taken)
      ensures Covers(s, repr)
    {
      assert taken == repr;
    }

    lemma {:induction false} TakenNext(s: seq<Cell>, rs: seq<Rank>, k: nat, c: Cell, i: nat, taken: set<Cell>)
      requires i < |cells| && cells[i] == c && c !in cells[..i] && |s| == |rs| == i
      requires Ordered(rs) && forall j :: 0 <= j < i ==> rs[j] == RankOf(s[j].data)
      requires Distinct(s) && Covers(s, taken) && Covers(cells[..i], taken) && k == Place(rs, RankOf(c.data))
      requires multiset(Data(s)) == multiset(Data(cells[..i]))
      ensures Distinct(Inserted(s, k, c)) && Covers(Inserted(s, k, c), taken + {c})
      ensures Covers(cells[..i + 1], taken + {c}) && Ordered(Inserted(rs, k, RankOf(c.data)))
      ensures forall j :: 0 <= j <= i ==> Inserted(rs, k, RankOf(c.data))[j] == RankOf(Inserted(s, k, c)[j].data)
      ensures multiset(Data(Inserted(s, k, c))) == multiset(Data(cells[..i + 1]))
    {
      hide Compare, Place, Chain, Ordered, At, Inserted, Data, Distinct, Covers;
      PlaceKeepsOrder(rs, RankOf(c.data));
      NotTaken(s, c, cells[..i], taken);
      InsertedDistinct(s, k, c);
      InsertedCovers(s, taken, k, c);
      OneMore(i);
      InsertedCovers(cells[..i], taken, i, c);
      DataInserted(s, k, c);
      DataInserted(cells[..i], i, c);
      InsertedMultiset(Data(s), k, c.data);
      InsertedMultiset(Data(cells[..i]), i, c.data);
      RanksInserted(s, rs, k, c);
    }

    lemma OneMore(i: nat)
      requires i < |cells|
      ensures cells[..i + 1] == Inserted(cells[..i], i, cells[i])
    {
    }

    lemma NotTaken(s: seq<Cell>, c: Cell, others: seq<Cell>, taken: set<Cell>)
      requires Covers(s, taken) && Covers(others, taken) && c !in others
      ensures c !in s
    {
      assert c !in taken;
    }

    lemma RanksInserted(s: seq<Cell>, rs: seq<Rank>, k: nat, c: Cell)
      requires k <= |s| == |rs| && forall j :: 0 <= j < |s| ==> rs[j] == RankOf(s[j].data)
      ensures forall j :: 0 <= j <= |s| ==> Inserted(rs, k, RankOf(c.data))[j] == RankOf(Inserted(s, k, c)[j].data)
    {
    }

    lemma InsertedMultiset(s: seq<Node>, k: nat, x: Node)
      requires k <= |s|
      ensures multiset(Inserted(s, k, x)) == multiset(s) + multiset{x}
    {
      assert s == s[..k] + s[k..];
    }

    /** list_sort: relinks the cells, and leaves the pointer to the last cell. */
    method SortList()
      requires Linked()
      modifies this`list, this`cells, repr
      ensures Linked() && multiset(Listed()) == multiset(old(Listed())) && Ordered(Ranks(Listed()))
    {
      hide Compare, Data, Ordered, Covers, Distinct, Links;
      ghost var rs;
      var s;
      s, rs := CellsInOrder();
      Relink(s, repr);
      list := if |s| > 0 then s[0] else null;
      cells := s;
      RanksAre(s, rs);
    }

    //////////////////////////////////////////////////////////////////////////
    // Clipping.
    //////////////////////////////////////////////////////////////////////////

    lemma IndexOfCell(k: nat)
      requires Linked() && k < |cells|
      ensures cells[k] in repr && cells[k] in cells && IndexOf(cells, cells[k]) == k
    {
    }

    /** Drops the node behind a cell. */
    method DropNext(cell: Cell, node: Node, ghost p: nat)
      requires Linked() && LinksBack() && Hashes() && p + 1 < |cells| && cells[p] == cell
      requires node == cells[p + 1].data
      modifies this`hash, this`nodes, this`list, this`cells, this`repr, repr, node`link, node`ref, node`holders
      ensures Linked() && LinksBack() && Hashes() && cells == Removed(old(cells), p + 1) && repr <= old(repr)
      ensures nodes == old(nodes) - {node} && node in old(nodes) && Knows(node) && node.link == null
      ensures node.holders == old(node.holders) - multiset{Cached} && hash == old(hash) - {node.host}
    {
      hide Removed, Linked, Node.Valid, Hashes, IndexOf;
      IndexOfCell(p + 1);
      Discard(node);
    }

    /** A cell and the one behind it. */
    lemma NextCell(p: nat)
      requires Linked() && LinksBack() && p < |cells|
      ensures cells[p].next == At(cells, p + 1) && cells[p].data in nodes && Listed()[p] == cells[p].data
    {
      assert cells[p] in repr;
    }

    /** list_nth. */
    method Nth(n: nat) returns (cell: Cell?)
      requires Linked()
      ensures cell == At(cells, n)
    {
      hide Chain;
      cell := list;
      var i := 0;
      Start();
      while i < n && cell != null
        invariant i <= n && cell == At(cells, i)
      {
        Walk(i);
        cell, i := cell.next, i + 1;
      }
    }

    lemma Start()
      requires Linked()
      ensures list == At(cells, 0)
    {
    }

    /** list_last. */
    method FindLast() returns (cell: Cell?)
      requires Linked()
      ensures cell == At(cells, |cells| - 1)
    {
      hide Chain, At;
      Start();
      Walk(0);
      cell := list;
      ghost var i := 0;
      ListEnds(0);
      while cell != null && cell.next != null
        invariant cell == At(cells, i) && 0 <= i && (i < |cells| || cells == [])
        decreases |cells| - i
      {
        ListEnds(i);
        Walk(i);
        cell, i := cell.next, i + 1;
      }
      ListEnds(i);
    }

    lemma ListEnds(i: nat)
      requires Linked()
      ensures i < |cells| ==> At(cells, i) == cells[i] && (cells[i].next == null <==> i == |cells| - 1)
      ensures i < |cells| ==> cells[i].next == At(cells, i + 1)
      ensures cells == [] ==> At(cells, i) == null && At(cells, -1) == null
    {
    }

    /** What has become of the nodes since they were all listed: those still listed
        are held as before, the others have lost their link and one reference. */
    twostate predicate Settled(before: set<Node>)
      reads this`nodes, before
    {
      nodes <= before &&
      (forall n :: n in nodes ==> n.holders == old(n.holders)) &&
      (forall n :: n in before && n !in nodes ==>
                     n.Valid() && n.link == null && n.holders == old(n.holders) - multiset{Cached})
    }

    /** The cell that has been reached when the nodes before q have been looked at. */
    ghost predicate Reached(cell: Cell, s: seq<Node>, q: nat)
      requires MAX_NODESFILE_SIZE <= q <= |s|
      reads this`cells, s`klass
    {
      var p := MAX_NODESFILE_SIZE - 1 + |Indexes(s[MAX_NODESFILE_SIZE..q])|;
      Listed() == Clipped(s, q) && p < |cells| && cells[p] == cell
    }

    /** One turn of the loop of fst_nodecache_sort: the next node is kept or dropped. */
    method ClipOne(cell: Cell, ghost s: seq<Node>, ghost q: nat) returns (next: Cell)
      requires Linked() && LinksBack() && Hashes() && MAX_NODESFILE_SIZE <= q < |s| && Reached(cell, s, q)
      modifies this`hash, this`nodes, this`list, this`cells, this`repr, repr
      modifies nodes`link, nodes`ref, nodes`holders
      ensures Linked() && LinksBack() && Hashes() && Reached(next, s, q + 1) && repr <= old(repr)
      ensures Settled(old(nodes))
    {
      hide Linked, Node.Valid, Hashes, Backed, Clipped, Indexes, Removed, Data;
      ghost var p := MAX_NODESFILE_SIZE - 1 + |Indexes(s[MAX_NODESFILE_SIZE..q])|;
      ClipStep(s, q);
      NextCell(p);
      NextCell(p + 1);
      AtIndex(p + 1);
      var node := cell.next.data;
      if node.klass == Index {
        return cell.next;
      }
      ghost var before := cells;
      DropNext(cell, node, p);
      DataRemovedAt(before, p + 1);
      next := cell;
    }

    lemma AtIndex(i: nat)
      requires i < |cells|
      ensures At(cells, i) == cells[i]
    {
    }

    /** There is a next cell exactly while there are nodes to look at. */
    lemma AtEnd(cell: Cell, s: seq<Node>, q: nat)
      requires Linked() && MAX_NODESFILE_SIZE <= q <= |s| && Reached(cell, s, q)
      ensures cell.next == null <==> q == |s|
      ensures q == |s| ==> cell == At(cells, |cells| - 1)
    {
      hide Indexes;
      ChainAt(list, cells, repr, MAX_NODESFILE_SIZE - 1 + |Indexes(s[MAX_NODESFILE_SIZE..q])|);
      assert |cells| == |Clipped(s, q)|;
    }

    /** The loop of fst_nodecache_sort that drops what is behind the first thousand. */
    method Clip(cell0: Cell, ghost s: seq<Node>) returns (cell: Cell)
      requires Linked() && LinksBack() && Hashes() && |s| >= MAX_NODESFILE_SIZE
      requires Reached(cell0, s, MAX_NODESFILE_SIZE)
      modifies this`hash, this`nodes, this`list, this`cells, this`repr, repr
      modifies nodes`link, nodes`ref, nodes`holders
      ensures Linked() && LinksBack() && Hashes() && Settled(old(nodes)) && repr <= old(repr)
      ensures Reached(cell, s, |s|) && cell == At(cells, |cells| - 1)
    {
      hide Linked, LinksBack, Hashes, Reached, Node.Valid, At;
      cell := cell0;
      ghost var q := MAX_NODESFILE_SIZE;
      AtEnd(cell, s, q);
      while cell.next != null
        invariant Linked() && LinksBack() && Hashes() && MAX_NODESFILE_SIZE <= q <= |s| && Reached(cell, s, q)
        invariant cell.next == null <==> q == |s|
        invariant Settled(old(nodes)) && repr <= old(repr)
        decreases |s| - q
      {
        cell := ClipOne(cell, s, q);
        q := q + 1;
        AtEnd(cell, s, q);
      }
      AtEnd(cell, s, q);
    }

    /** fst_nodecache_sort: the nodes are put in order, and behind the first thousand
        only the index nodes are kept. */
    method Sort() returns (size: nat, ghost sorted: seq<Node>)
      requires Valid()
      modifies this`list, this`last, this`hash, this`nodes, this`cells, this`repr, repr
      modifies nodes`link, nodes`ref, nodes`holders
      ensures Valid() && Settled(old(nodes)) && size == |Listed()| && repr <= old(repr)
      ensures multiset(sorted) == multiset(old(Listed())) && Listed() == Kept(sorted)
      ensures forall i, j :: 0 <= i < j < |sorted| ==> Ahead(sorted[i], sorted[j])
    {
      hide Chain, At, Data, Backed, Hashes, Ordered, Kept, Node.Valid, Compare, Ranks, Score, Ahead;
      if list == null {
        NothingListed();
        return 0, [];
      }
      SortList();
      sorted := Listed();
      ghost var rs := Ranks(sorted);
      ClipAll(sorted);
      SameRanks(sorted, rs);
      OrderedAhead(sorted);
      size := Length();
    }

    /** The part of fst_nodecache_sort behind the call of list_sort. */
    method ClipAll(ghost s: seq<Node>)
      requires Linked() && LinksBack() && Hashes() && s == Listed()
      modifies this`list, this`last, this`hash, this`nodes, this`cells, this`repr, repr
      modifies nodes`link, nodes`ref, nodes`holders
      ensures IsList() && LinksBack() && Hashes() && Settled(old(nodes)) && Listed() == Kept(s) && repr <= old(repr)
    {
      hide Chain, At, Data, LinksBack, Hashes, Kept, Node.Valid, Reached;
      var cell := Nth(MAX_NODESFILE_SIZE - 1);
      if cell != null {
        ReachedFirst(cell);
        cell := Clip(cell, s);
        ReachedLast(cell, s);
        last := cell;
      } else {
        NoneToDrop();
        last := FindLast();
      }
    }

    lemma NoneToDrop()
      requires Linked() && At(cells, MAX_NODESFILE_SIZE - 1) == null
      ensures Kept(Listed()) == Listed()
    {
    }

    lemma ReachedLast(cell: Cell, s: seq<Node>)
      requires |s| >= MAX_NODESFILE_SIZE && Reached(cell, s, |s|)
      ensures Listed() == Kept(s)
    {
      hide Indexes, Clipped, Kept;
      ClipEnds(s);
    }

    lemma SameRanks(s: seq<Node>, rs: seq<Rank>)
      requires |rs| == |s| && forall i :: 0 <= i < |s| ==> rs[i] == RankOf(s[i])
      ensures Ranks(s) == rs
    {
    }

    lemma NothingListed()
      requires Valid() && list == null
      ensures Listed() == [] && Ordered(Ranks([])) && Kept([]) == []
    {
    }

    lemma ReachedFirst(cell: Cell)
      requires Linked() && cell == At(cells, MAX_NODESFILE_SIZE - 1)
      ensures |cells| >= MAX_NODESFILE_SIZE && Reached(cell, Listed(), MAX_NODESFILE_SIZE)
    {
      ClipEnds(Listed());
      assert Listed()[MAX_NODESFILE_SIZE..MAX_NODESFILE_SIZE] == [];
    }

    /** list_length. */
    method Length() returns (n: nat)
      requires Linked()
      ensures n == |cells|
    {
      hide Chain;
      var cell := list;
      n := 0;
      Start();
      while cell != null
        invariant n <= |cells| && cell == At(cells, n)
        decreases |cells| - n
      {
        Walk(n);
        cell, n := cell.next, n + 1;
      }
      Walk(n);
    }
  }

  lemma DataRemovedAt(cells: seq<Cell>, k: nat)
    requires k < |cells|
    ensures Data(Removed(cells, k)) == Removed(Data(cells), k)
    ensures k > 0 ==> Removed(cells, k)[k - 1] == cells[k - 1]
  {
  }

  lemma RanksAre(s: seq<Cell>, rs: seq<Rank>)
    requires |rs| == |s| && forall i :: 0 <= i < |s| ==> rs[i] == RankOf(s[i].data)
    ensures Ranks(Data(s)) == rs
  {
  }

  /** Links the cells in this order. */
  method Relink(s: seq<Cell>, ghost repr: set<Cell>)
    requires Distinct(s) && Covers(s, repr)
    modifies repr
    ensures Links(s)
  {
    hide Covers, At;
    for i := 0 to |s|
      invariant forall j :: 0 <= j < i ==> s[j].prev == At(s, j - 1) && s[j].next == At(s, j + 1)
    {
      Neighbour(s, i - 1);
      Neighbour(s, i + 1);
      Covered(s, repr, i);
      s[i].prev := if i > 0 then s[i - 1] else null;
      s[i].next := if i + 1 < |s| then s[i + 1] else null;
    }
  }

  lemma Neighbour(s: seq<Cell>, i: int)
    ensures At(s, i) == if 0 <= i < |s| then s[i] else null
  {
  }

  lemma Covered(s: seq<Cell>, repr: set<Cell>, i: nat)
    requires Covers(s, repr) && i < |s|
    ensures s[i] in repr
  {
  }
}
