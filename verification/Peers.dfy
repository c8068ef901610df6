/** fst_peer.c and the node handling of fst_session.c: which connected nodes have
    which peers, seen from the sessions and from the peers. */
module Peers {
  import opened Nodes

  /** What a session knows of nodes: its own, and its peers with their list cells. */
  class Connection {
    var node: Node?
    var peers: map<Node, Cell>

    constructor ()
      ensures node == null && peers == map[]
    {
      node, peers := null, map[];
    }
  }

  /** Pairs of a connected node and a peer are one to one with the cells of the peers'
      lists, where peerOf is the peer whose list a cell is in. */
  ghost predicate OneToOne(links: map<(Node, Node), Cell>, peerOf: map<Cell, Node>) {
    (forall k :: k in links ==> links[k] in peerOf && peerOf[links[k]] == k.1 && links[k].data == k.0) &&
    (forall c :: c in peerOf ==> (c.data, peerOf[c]) in links && links[(c.data, peerOf[c])] == c)
  }

  lemma OneLess(links: map<(Node, Node), Cell>, peerOf: map<Cell, Node>, c: Cell)
    requires OneToOne(links, peerOf) && c in peerOf
    ensures OneToOne(links - {(c.data, peerOf[c])}, peerOf - {c})
  {
  }

  lemma OneMore(links: map<(Node, Node), Cell>, peerOf: map<Cell, Node>, c: Cell, peer: Node)
    requires OneToOne(links, peerOf) && c !in peerOf && (c.data, peer) !in links
    ensures OneToOne(links[(c.data, peer) := c], peerOf[c := peer])
  {
  }

  /** The lists' cells, list by list and cell by cell. */
  ghost predicate Groups(reprs: map<Node, set<Cell>>, peerOf: map<Cell, Node>) {
    (forall c :: c in peerOf ==> peerOf[c] in reprs && c in reprs[peerOf[c]]) &&
    (forall p, c :: p in reprs && c in reprs[p] ==> c in peerOf && peerOf[c] == p)
  }

  function Put<T>(m: map<Node, T>, p: Node, some: bool, x: T): map<Node, T> {
    if some then m[p := x] else m - {p}
  }

  lemma PutKeys<T>(m: map<Node, T>, p: Node, some: bool, x: T)
    ensures var r := Put(m, p, some, x);
            (p in r <==> some) && (some ==> r[p] == x) &&
            r.Keys == (if some then m.Keys + {p} else m.Keys - {p}) &&
            forall q :: q in m && q != p ==> r[q] == m[q]
  {
  }

  lemma GroupLess(reprs: map<Node, set<Cell>>, peerOf: map<Cell, Node>, c: Cell, some: bool)
    requires Groups(reprs, peerOf) && c in peerOf
    requires !some ==> reprs[peerOf[c]] - {c} == {}
    ensures Groups(Put(reprs, peerOf[c], some, reprs[peerOf[c]] - {c}), peerOf - {c})
  {
  }

  ghost predicate IsPeerList(list: Cell, cells: seq<Cell>, repr: set<Cell>)
    reads repr
  {
    cells != [] && Chain(list, cells, repr)
  }

  /** The peers' lists, by their heads, their cells in order and as sets. */
  ghost predicate AreLists(heads: map<Node, Cell>, chains: map<Node, seq<Cell>>, reprs: map<Node, set<Cell>>,
                           peerOf: map<Cell, Node>)
    reads peerOf.Keys
  {
    heads.Keys == chains.Keys == reprs.Keys && Groups(reprs, peerOf) &&
    forall p :: p in heads ==> IsPeerList(heads[p], chains[p], reprs[p])
  }

  function Headed(heads: map<Node, Cell>, p: Node, list: Cell?): map<Node, Cell> {
    if list != null then heads[p := list] else heads - {p}
  }

  lemma HeadedKeys(heads: map<Node, Cell>, p: Node, list: Cell?)
    ensures var r := Headed(heads, p, list);
            r.Keys == (if list != null then heads.Keys + {p} else heads.Keys - {p}) &&
            (list != null ==> p in r && r[p] == list) &&
            forall q :: q in heads && q != p ==> q in r && r[q] == heads[q]
  {
  }

  /** The lists when one of them has lost a cell. */
  lemma AfterRemoval(heads: map<Node, Cell>, chains: map<Node, seq<Cell>>, reprs: map<Node, set<Cell>>,
                     peerOf: map<Cell, Node>, c: Cell, list: Cell?, cells: seq<Cell>)
    requires heads.Keys == chains.Keys == reprs.Keys && Groups(reprs, peerOf) && c in peerOf
    requires forall p :: p in heads && p != peerOf[c] ==> IsPeerList(heads[p], chains[p], reprs[p])
    requires peerOf[c] in reprs && Chain(list, cells, reprs[peerOf[c]] - {c})
    ensures var p := peerOf[c];
            AreLists(Headed(heads, p, list), Put(chains, p, list != null, cells),
                     Put(reprs, p, list != null, reprs[p] - {c}), peerOf - {c})
  {
    hide Groups, Put, Headed, Chain;
    var p := peerOf[c];
    EmptyOrNot(list, cells, reprs[p] - {c});
    GroupLess(reprs, peerOf, c, list != null);
    PutKeys(chains, p, list != null, cells);
    PutKeys(reprs, p, list != null, reprs[p] - {c});
    HeadedKeys(heads, p, list);
    var heads1 := Headed(heads, p, list);
    var chains1, reprs1 := Put(chains, p, list != null, cells), Put(reprs, p, list != null, reprs[p] - {c});
    forall q | q in heads1
      ensures IsPeerList(heads1[q], chains1[q], reprs1[q])
    {
      if q != p {
        assert q in heads;
      }
    }
  }

  lemma GroupMore(reprs: map<Node, set<Cell>>, peerOf: map<Cell, Node>, p: Node, c: Cell)
    requires Groups(reprs, peerOf) && c !in peerOf
    ensures Groups(reprs[p := (if p in reprs then reprs[p] else {}) + {c}], peerOf[c := p])
  {
  }

  /** The lists when one of them has a new cell. */
  lemma {:induction false} AfterInsertion(heads: map<Node, Cell>, chains: map<Node, seq<Cell>>,
                                          reprs: map<Node, set<Cell>>,
                       peerOf: map<Cell, Node>, p: Node, c: Cell, list: Cell, cells: seq<Cell>)
    requires heads.Keys == chains.Keys == reprs.Keys && Groups(reprs, peerOf) && c !in peerOf
    requires forall q :: q in heads && q != p ==> IsPeerList(heads[q], chains[q], reprs[q])
    requires cells != [] && Chain(list, cells, (if p in reprs then reprs[p] else {}) + {c})
    ensures AreLists(heads[p := list], chains[p := cells],
                     reprs[p := (if p in reprs then reprs[p] else {}) + {c}], peerOf[c := p])
  {
    hide Groups, Chain;
    GroupMore(reprs, peerOf, p, c);
  }

  lemma EmptyOrNot(list: Cell?, cells: seq<Cell>, repr: set<Cell>)
    requires Chain(list, cells, repr)
    ensures list == null <==> cells == []
    ensures cells == [] ==> repr == {}
  {
    assert forall c :: c in repr ==> c in cells;
  }

  /** The holders of a peer include every node that has it as a peer, once. */
  ghost predicate HeldAsPeer(holders: multiset<Holder>, p: Node, links: map<(Node, Node), Cell>) {
    (forall h :: h in holders && h.AsPeer? ==> (h.of, p) in links && holders[h] == 1) &&
    (forall k :: k in links && k.1 == p ==> AsPeer(k.0) in holders)
  }

  /** The same holders, but for a node that may have let go of its peer. */
  ghost predicate OnlyLess(node: Node?, a: multiset<Holder>, b: multiset<Holder>) {
    b <= a && forall h :: h in a ==> b[h] == a[h] || (h.AsPeer? && h.of == node)
  }

  lemma LessAgain(node: Node?, a: multiset<Holder>, b: multiset<Holder>, c: multiset<Holder>)
    requires OnlyLess(node, a, b) && OnlyLess(node, b, c)
    ensures OnlyLess(node, a, c)
  {
  }

  lemma OneLessHolder(node: Node, a: multiset<Holder>)
    ensures OnlyLess(node, a, a - multiset{AsPeer(node)})
  {
  }

  ghost predicate CountedBy(p: Node, links: map<(Node, Node), Cell>)
    reads p
  {
    p.Valid() && HeldAsPeer(p.holders, p, links)
  }

  /** A session's map is the slice of all pairs for its node. */
  ghost predicate IsSlice(peers: map<Node, Cell>, node: Node?, links: map<(Node, Node), Cell>) {
    (forall p :: p in peers ==> node != null && (node, p) in links && links[(node, p)] == peers[p]) &&
    (forall k :: k in links && k.0 == node ==> k.1 in peers)
  }

  lemma SliceSet(peers: map<Node, Cell>, node: Node, links: map<(Node, Node), Cell>, peer: Node, c: Cell)
    requires IsSlice(peers, node, links)
    ensures IsSlice(peers[peer := c], node, links[(node, peer) := c])
    ensures peer in peers <==> (node, peer) in links
  {
  }

  lemma SliceLess(peers: map<Node, Cell>, node: Node, links: map<(Node, Node), Cell>, peer: Node)
    requires IsSlice(peers, node, links)
    ensures IsSlice(peers - {peer}, node, links - {(node, peer)})
  {
  }

  /** Other nodes' pairs make no difference to a session. */
  lemma SliceBeside(peers: map<Node, Cell>, n: Node, links: map<(Node, Node), Cell>, node: Node, peer: Node, c: Cell)
    requires IsSlice(peers, n, links) && n != node
    ensures IsSlice(peers, n, links[(node, peer) := c])
  {
  }

  lemma SliceOfOthers(peers: map<Node, Cell>, n: Node, links: map<(Node, Node), Cell>, node: Node?)
    requires IsSlice(peers, n, links) && n != node
    ensures IsSlice(peers, n, Others(links, node))
  {
  }

  ghost predicate ArePeers(held: set<Node>, links: map<(Node, Node), Cell>) {
    (forall k :: k in links ==> k.1 in held) && forall p :: p in held ==> exists k :: k in links && k.1 == p
  }

  lemma PeersLess(held: set<Node>, links: map<(Node, Node), Cell>, pair: (Node, Node)) returns (r: set<Node>)
    requires ArePeers(held, links) && pair in links
    ensures ArePeers(r, links - {pair}) && r <= held && held <= r + {pair.1}
  {
    if k :| k in links && k.1 == pair.1 && k != pair {
      r := held;
      forall p | p in r
        ensures exists j :: j in links - {pair} && j.1 == p
      {
        var j :| j in links && j.1 == p;
        assert p == pair.1 ==> k in links - {pair};
        assert p != pair.1 ==> j in links - {pair};
      }
    } else {
      r := held - {pair.1};
      forall p | p in r
        ensures exists j :: j in links - {pair} && j.1 == p
      {
        var j :| j in links && j.1 == p;
        assert j in links - {pair};
      }
    }
  }

  lemma PeersMore(held: set<Node>, links: map<(Node, Node), Cell>, pair: (Node, Node), c: Cell)
    requires ArePeers(held, links)
    ensures ArePeers(held + {pair.1}, links[pair := c])
  {
    var links1 := links[pair := c];
    assert pair in links1;
    forall p | p in held + {pair.1}
      ensures exists j :: j in links1 && j.1 == p
    {
      if p != pair.1 {
        var j :| j in links && j.1 == p;
        assert j in links1;
      }
    }
  }

  /** Nodes are held as before, but for a node that may have let go of them. */
  ghost predicate StillHeldBy(before: map<Node, multiset<Holder>>, links: map<(Node, Node), Cell>, node: Node?)
    reads before.Keys
  {
    forall p :: p in before ==> CountedBy(p, links) && OnlyLess(node, before[p], p.holders)
  }

  lemma HeldStill(before: map<Node, multiset<Holder>>, links: map<(Node, Node), Cell>, node: Node?)
    requires StillHeldBy(before, links, node)
    ensures forall p :: p in before ==> CountedBy(p, links) && OnlyLess(node, before[p], p.holders)
  {
  }

  /** Other peers' pairs make no difference to a peer. */
  lemma CountedStill(p: Node, links: map<(Node, Node), Cell>, links1: map<(Node, Node), Cell>, pair: (Node, Node))
    requires CountedBy(p, links) && pair.1 != p
    requires forall k :: k != pair ==> (k in links <==> k in links1)
    ensures CountedBy(p, links1)
  {
  }

  class Registry {
    /** For every peer the list of the connected nodes that have it. */
    var gpeers: map<Node, Cell>
    ghost var chains: map<Node, seq<Cell>>
    ghost var reprs: map<Node, set<Cell>>
    ghost var peerOf: map<Cell, Node>
    /** The cell of every pair of a connected node and a peer of it. */
    ghost var links: map<(Node, Node), Cell>
    /** The peers among them. */
    ghost var held: set<Node>
    /** The nodes with a session, the only ones that have peers. */
    ghost var connected: set<Node>

    ghost predicate Lists()
      reads this`chains, this`reprs, this`gpeers, this`peerOf, peerOf.Keys
    {
      AreLists(gpeers, chains, reprs, peerOf)
    }

    ghost predicate Counted(p: Node)
      reads this`links, p
    {
      CountedBy(p, links)
    }

    ghost predicate AllCounted()
      reads this`links, this`held, held
    {
      ArePeers(held, links) && forall p :: p in held ==> CountedBy(p, links)
    }

    ghost predicate Valid()
      reads this, peerOf.Keys, held
    {
      Lists() && OneToOne(links, peerOf) && AllCounted() && OnlyConnected()
    }

    ghost predicate OnlyConnected()
      reads this`links, this`connected
    {
      forall k :: k in links ==> k.0 in connected
    }

    /** A session's map is the registry's, for its node. */
    ghost predicate Mirrors(conn: Connection)
      reads this`links, conn
    {
      IsSlice(conn.peers, conn.node, links)
    }

    constructor ()
      ensures Valid() && links == map[] && peerOf == map[] && held == {} && connected == {}
    {
      gpeers, chains, reprs, peerOf, links := map[], map[], map[], map[], map[];
      held, connected := {}, {};
    }

    lemma {:induction false} ListOf(c: Cell)
      requires Lists() && c in peerOf
      ensures peerOf[c] in gpeers && c in reprs[peerOf[c]] && c in chains[peerOf[c]]
      ensures reprs[peerOf[c]] <= peerOf.Keys
      ensures Chain(gpeers[peerOf[c]], chains[peerOf[c]], reprs[peerOf[c]])
      ensures forall p :: p in reprs && p != peerOf[c] ==> reprs[p] !! reprs[peerOf[c]]
    {
      hide Chain;
      var peer := peerOf[c];
      assert IsPeerList(gpeers[peer], chains[peer], reprs[peer]);
      InChain(gpeers[peer], chains[peer], reprs[peer], c);
      forall p | p in reprs && p != peer
        ensures reprs[p] !! reprs[peer]
      {
        assert forall d :: d in reprs[p] ==> peerOf[d] == p;
      }
    }

    lemma InChain(list: Cell?, cells: seq<Cell>, repr: set<Cell>, c: Cell)
      requires Chain(list, cells, repr) && c in repr
      ensures c in cells
    {
    }

    /** list_remove_link on a peer's list; the registry still has the old head. */
    method Unlink(peer: Node, nodelink: Cell) returns (lnew: Cell?, ghost c1: seq<Cell>)
      requires Lists() && nodelink in peerOf && peerOf[nodelink] == peer && peer in gpeers && peer in reprs
      modifies peerOf.Keys
      ensures AreLists(Headed(gpeers, peer, lnew), Put(chains, peer, lnew != null, c1),
                       Put(reprs, peer, lnew != null, reprs[peer] - {nodelink}), peerOf - {nodelink})
    {
      hide Chain, IndexOf, Removed, Groups, Put, Headed;
      ListOf(nodelink);
      ghost var k := IndexOf(chains[peer], nodelink);
      c1 := Removed(chains[peer], k);
      lnew := RemoveLink(gpeers[peer], nodelink, chains[peer], reprs[peer], k);
      AfterRemoval(gpeers, chains, reprs, peerOf, nodelink, lnew, c1);
    }

    lemma {:induction false} HasList(c: Cell)
      requires Lists() && c in peerOf
      ensures peerOf[c] in gpeers && peerOf[c] in reprs && peerOf[c] in chains
    {
    }

    /** remove_global, but for the release of the peer. */
    method Unchain(peer: Node, nodelink: Cell)
      requires Lists() && nodelink in peerOf && peerOf[nodelink] == peer
      modifies this`gpeers, this`chains, this`reprs, this`peerOf, peerOf.Keys
      ensures Lists() && peerOf == old(peerOf) - {nodelink}
    {
      hide AreLists, Put;
      HasList(nodelink);
      var l := gpeers[peer];
      var lnew;
      ghost var c1;
      lnew, c1 := Unlink(peer, nodelink);
      if l != lnew {
        if lnew != null {
          gpeers := gpeers[peer := lnew];
        } else {
          gpeers := gpeers - {peer};
        }
      }
      assert gpeers == Headed(old(gpeers), peer, lnew);
      chains, reprs, peerOf :=
        Put(chains, peer, lnew != null, c1),
        Put(reprs, peer, lnew != null, reprs[peer] - {nodelink}), peerOf - {nodelink};
    }

    lemma {:induction false} ListOrNone(p: Node)
      requires Lists()
      ensures p in gpeers <==> p in chains
      ensures p in gpeers <==> p in reprs
      ensures p in gpeers ==> Chain(gpeers[p], chains[p], reprs[p]) && reprs[p] <= peerOf.Keys
      ensures forall q :: q in reprs && q != p && p in reprs ==> reprs[q] !! reprs[p]
      ensures Chain(null, [], {})
    {
      hide Chain;
      if p in reprs {
        assert IsPeerList(gpeers[p], chains[p], reprs[p]);
        forall q | q in reprs && q != p
          ensures reprs[q] !! reprs[p]
        {
          assert forall d :: d in reprs[q] ==> peerOf[d] == q;
        }
      }
      NoCells();
    }

    lemma NoCells()
      ensures Chain(null, [], {})
    {
    }

    /** list_prepend on a peer's list, which may not exist yet. */
    method Link(peer: Node, node: Node) returns (head: Cell, link: Cell, ghost c1: seq<Cell>)
      requires Lists()
      modifies peerOf.Keys
      ensures fresh(link) && link.data == node && link !in peerOf
      ensures AreLists(gpeers[peer := head], chains[peer := c1],
                       reprs[peer := (if peer in reprs then reprs[peer] else {}) + {link}], peerOf[link := peer])
    {
      hide Chain, Inserted, Groups, At;
      ListOrNone(peer);
      var l: Cell? := if peer in gpeers then gpeers[peer] else null;
      ghost var c0 := if peer in chains then chains[peer] else [];
      ghost var r0 := if peer in reprs then reprs[peer] else {};
      HeadOf(l, c0, r0);
      var h;
      h, link := Nodes.Insert(l, null, l, node, c0, r0, 0);
      c1 := Inserted(c0, 0, link);
      head := link;
      NewHead(h, c0, link);
      AfterInsertion(gpeers, chains, reprs, peerOf, peer, link, head, c1);
    }

    lemma HeadOf(l: Cell?, cells: seq<Cell>, repr: set<Cell>)
      requires Chain(l, cells, repr)
      ensures l == At(cells, 0) && At(cells, -1) == null
    {
    }

    lemma NewHead(head: Cell?, cells: seq<Cell>, link: Cell)
      requires head == At(Inserted(cells, 0, link), 0)
      ensures head == link && Inserted(cells, 0, link) != []
    {
    }

    /** add_global, but for the reference to the peer. */
    method Prepend(peer: Node, node: Node) returns (link: Cell)
      requires Lists()
      modifies this`gpeers, this`chains, this`reprs, this`peerOf, peerOf.Keys
      ensures Lists() && peerOf == old(peerOf)[link := peer]
      ensures fresh(link) && link.data == node && link !in old(peerOf)
    {
      hide AreLists;
      var head;
      ghost var c1;
      head, link, c1 := Link(peer, node);
      gpeers := gpeers[peer := head];
      chains, reprs, peerOf := chains[peer := c1],
        reprs[peer := (if peer in reprs then reprs[peer] else {}) + {link}], peerOf[link := peer];
    }

    //////////////////////////////////////////////////////////////////////////
    // Pairs and references.
    //////////////////////////////////////////////////////////////////////////

    /** A node that nobody holds is no node's peer. */
    lemma NobodysPeer(p: Node)
      requires Counted(p) && p.ref == 0
      ensures forall k :: k in links ==> k.1 != p
    {
      assert |p.holders| == 0;
    }

    /** A node with a list is some node's peer. */
    lemma ListedPeer(p: Node)
      requires Lists() && OneToOne(links, peerOf) && p in gpeers
      ensures exists k :: k in links && k.1 == p
    {
      hide Chain;
      assert IsPeerList(gpeers[p], chains[p], reprs[p]);
      HeadInList(gpeers[p], chains[p], reprs[p]);
      assert (gpeers[p].data, p) in links;
    }

    lemma NotListedPeer(p: Node)
      requires Lists() && OneToOne(links, peerOf) && p !in gpeers
      ensures forall k :: k in links ==> k.1 != p
    {
      hide Chain, IsPeerList;
    }

    lemma HeadInList(list: Cell, cells: seq<Cell>, repr: set<Cell>)
      requires Chain(list, cells, repr)
      ensures list in repr
    {
    }

    /** A peer's list has exactly the nodes that have it as a peer, each once. */
    lemma ListIsExact(peer: Node)
      requires Lists() && OneToOne(links, peerOf) && peer in gpeers
      ensures peer in chains && peer in reprs && Covers(chains[peer], reprs[peer]) && Distinct(chains[peer])
      ensures forall c :: c in reprs[peer] ==> (c.data, peer) in links && links[(c.data, peer)] == c
      ensures forall k :: k in links && k.1 == peer ==> links[k] in reprs[peer] && links[k].data == k.0
    {
      hide Links, Covers, Distinct, At;
      assert IsPeerList(gpeers[peer], chains[peer], reprs[peer]);
    }

    /** Ends one node's hold of a peer. */
    method Unpair(node: Node, peer: Node)
      requires AllCounted() && (node, peer) in links
      modifies this`links, this`held, peer`ref, peer`holders
      ensures AllCounted() && Counted(peer) && links == old(links) - {(node, peer)} && held <= old(held)
      ensures peer.holders == old(peer.holders) - multiset{AsPeer(node)}
    {
      hide CountedBy, ArePeers;
      PeerHeld((node, peer));
      ghost var before := links;
      ghost var rest := PeersLess(held, links, (node, peer));
      links := links - {(node, peer)};
      held := rest;
      ReleasePeer(node, peer, before);
      forall p | p in held
        ensures CountedBy(p, links)
      {
        if p != peer {
          CountedStill(p, before, links, (node, peer));
        }
      }
    }

    lemma PeerHeld(k: (Node, Node))
      requires AllCounted() && k in links
      ensures k.1 in held && Counted(k.1)
    {
    }

    method ReleasePeer(node: Node, peer: Node, ghost before: map<(Node, Node), Cell>)
      requires CountedBy(peer, before) && (node, peer) in before && links == before - {(node, peer)}
      modifies peer`ref, peer`holders
      ensures CountedBy(peer, links) && peer.holders == old(peer.holders) - multiset{AsPeer(node)}
    {
      var left := peer.Release(AsPeer(node));
    }

    /** Begins a node's hold of a peer. */
    method Pair(node: Node, peer: Node, ghost link: Cell)
      requires AllCounted() && (node, peer) !in links && Counted(peer) && peer.ref > 0
      modifies this`links, this`held, peer`ref, peer`holders
      ensures AllCounted() && Counted(peer) && links == old(links)[(node, peer) := link]
      ensures peer.holders == old(peer.holders) + multiset{AsPeer(node)}
    {
      hide CountedBy, ArePeers;
      ghost var before := links;
      PeersMore(held, links, (node, peer), link);
      links := links[(node, peer) := link];
      held := held + {peer};
      HoldPeer(node, peer, before, link);
      forall p | p in held
        ensures CountedBy(p, links)
      {
        if p != peer {
          CountedStill(p, before, links, (node, peer));
        }
      }
    }

    method HoldPeer(node: Node, peer: Node, ghost before: map<(Node, Node), Cell>, ghost link: Cell)
      requires CountedBy(peer, before) && (node, peer) !in before && links == before[(node, peer) := link]
      requires peer.ref > 0
      modifies peer`ref, peer`holders
      ensures CountedBy(peer, links) && peer.holders == old(peer.holders) + multiset{AsPeer(node)}
    {
      assert AsPeer(node) !in peer.holders;
      peer.AddRef(AsPeer(node));
    }

    /** remove_global. */
    method RemoveGlobal(peer: Node, nodelink: Cell)
      requires Valid() && nodelink in peerOf && peerOf[nodelink] == peer
      modifies this, peerOf.Keys, peer`ref, peer`holders
      ensures Valid() && Counted(peer) && links == old(links) - {(nodelink.data, peer)} && held <= old(held)
      ensures connected == old(connected)
      ensures peer.holders == old(peer.holders) - multiset{AsPeer(nodelink.data)}
      ensures peerOf == old(peerOf) - {nodelink}
    {
      hide Lists, Counted, OneToOne, AllCounted;
      HasPair(nodelink);
      OneLess(links, peerOf, nodelink);
      Unchain(peer, nodelink);
      Unpair(nodelink.data, peer);
    }

    lemma HasPair(c: Cell)
      requires OneToOne(links, peerOf) && c in peerOf
      ensures (c.data, peerOf[c]) in links
    {
    }

    /** add_global. */
    method AddGlobal(node: Node, peer: Node) returns (link: Cell)
      requires Valid() && Counted(peer) && peer.ref > 0 && (node, peer) !in links && node in connected
      modifies this, peerOf.Keys, peer`ref, peer`holders
      ensures connected == old(connected)
      ensures Valid() && Counted(peer) && links == old(links)[(node, peer) := link]
      ensures peer.holders == old(peer.holders) + multiset{AsPeer(node)}
      ensures peerOf == old(peerOf)[link := peer] && fresh(link) && link.data == node
    {
      hide Lists, Counted, OneToOne, AllCounted;
      ghost var before := peerOf;
      link := Prepend(peer, node);
      OneMore(links, before, link, peer);
      Pair(node, peer, link);
    }

    /** Holding a peer for a while, and letting go of it. */
    method Keep(peer: Node)
      requires AllCounted() && Counted(peer) && peer.ref > 0
      modifies peer`ref, peer`holders
      ensures AllCounted() && Counted(peer) && peer.ref > 0
      ensures peer.holders == old(peer.holders) + multiset{Temporary}
    {
      hide CountedBy, ArePeers;
      KeepNode(peer);
    }

    method KeepNode(peer: Node)
      requires CountedBy(peer, links) && peer.ref > 0
      modifies peer`ref, peer`holders
      ensures CountedBy(peer, links) && peer.ref > 0 && peer.holders == old(peer.holders) + multiset{Temporary}
    {
      peer.AddRef(Temporary);
    }

    method LetGo(peer: Node)
      requires AllCounted() && Counted(peer) && Temporary in peer.holders
      modifies peer`ref, peer`holders
      ensures AllCounted() && Counted(peer) && peer.holders == old(peer.holders) - multiset{Temporary}
    {
      hide CountedBy, ArePeers;
      LetNodeGo(peer);
    }

    method LetNodeGo(peer: Node)
      requires CountedBy(peer, links) && Temporary in peer.holders
      modifies peer`ref, peer`holders
      ensures CountedBy(peer, links) && peer.holders == old(peer.holders) - multiset{Temporary}
    {
      var left := peer.Release(Temporary);
    }

    /** remove_global if the pair has a cell, and add_global. */
    method Relist(node: Node, peer: Node, old_link: Cell?, conn: Connection) returns (link: Cell)
      requires Valid() && Counted(peer) && Temporary in peer.holders && node in connected
      requires old_link == if (node, peer) in links then links[(node, peer)] else null
      modifies this, peerOf.Keys, peer`ref, peer`holders, conn`peers
      ensures conn.peers == old(conn.peers)[peer := link] && connected == old(connected)
      ensures Valid() && Counted(peer) && links == old(links)[(node, peer) := link]
      ensures peer.holders == if old_link != null then old(peer.holders) else old(peer.holders) + multiset{AsPeer(node)}
      ensures forall c :: c in peerOf ==> c in old(peerOf) || fresh(c)
    {
      hide Lists, Counted, OneToOne, AllCounted, OnlyConnected;
      PairHeld(node, peer);
      HeldAgain(peer.holders, AsPeer(node));
      if old_link != null {
        PairHasCell(node, peer);
        RemoveGlobal(peer, old_link);
      }
      StillHeld(peer);
      link := AddGlobal(node, peer);
      conn.peers := conn.peers[peer := link];
    }

    lemma HeldAgain(h: multiset<Holder>, a: Holder)
      ensures a in h ==> h - multiset{a} + multiset{a} == h
      ensures a != Temporary && Temporary in h ==> Temporary in h - multiset{a}
    {
    }

    lemma PairHeld(node: Node, peer: Node)
      requires Counted(peer)
      ensures (node, peer) in links <==> AsPeer(node) in peer.holders
    {
    }

    /** fst_peer_insert: the pair gets a new cell, whether it had one or not. */
    method Insert(conn: Connection, peer: Node)
      requires Valid() && Mirrors(conn) && conn.node != null && conn.node in connected
      requires Counted(peer) && peer.ref > 0
      modifies this, peerOf.Keys, conn`peers, peer`ref, peer`holders
      ensures Valid() && Mirrors(conn) && Counted(peer) && connected == old(connected)
      ensures peer in conn.peers && links == old(links)[(conn.node, peer) := conn.peers[peer]]
      ensures peer.holders == if (conn.node, peer) in old(links) then old(peer.holders)
                              else old(peer.holders) + multiset{AsPeer(conn.node)}
      ensures forall c :: c in peerOf ==> c in old(peerOf) || fresh(c)
      ensures conn.peers == old(conn.peers)[peer := conn.peers[peer]]
    {
      hide Lists, CountedBy, OneToOne, IsSlice, AllCounted;
      var node: Node := conn.node;
      ghost var peers0, links0 := conn.peers, links;
      var old_link: Cell? := if peer in conn.peers then conn.peers[peer] else null;
      OldLink(conn, peer);
      var nodelink := Renew(node, peer, old_link, conn);
      SliceSet(peers0, node, links0, peer, nodelink);
    }

    /** The pair's new cell, while the peer is held. */
    method Renew(node: Node, peer: Node, old_link: Cell?, conn: Connection) returns (link: Cell)
      requires Valid() && Counted(peer) && peer.ref > 0 && node in connected
      requires old_link == if (node, peer) in links then links[(node, peer)] else null
      modifies this, peerOf.Keys, peer`ref, peer`holders, conn`peers
      ensures Valid() && Counted(peer) && links == old(links)[(node, peer) := link]
      ensures peer.holders == if old_link != null then old(peer.holders) else old(peer.holders) + multiset{AsPeer(node)}
      ensures forall c :: c in peerOf ==> c in old(peerOf) || fresh(c)
      ensures conn.peers == old(conn.peers)[peer := link] && connected == old(connected)
    {
      hide Lists, Counted, OneToOne, AllCounted;
      ghost var h := peer.holders;
      Keep(peer);
      WithTemporary(h, node);
      link := Relist(node, peer, old_link, conn);
      LetGo(peer);
    }

    lemma WithTemporary(h: multiset<Holder>, node: Node)
      ensures Temporary in h + multiset{Temporary} && h + multiset{Temporary} - multiset{Temporary} == h
      ensures var r := h + multiset{Temporary} + multiset{AsPeer(node)};
              Temporary in r && r - multiset{Temporary} == h + multiset{AsPeer(node)}
    {
    }

    lemma OldLink(conn: Connection, peer: Node)
      requires Mirrors(conn)
      ensures peer in conn.peers ==> conn.node != null
      ensures conn.node != null ==> (peer in conn.peers <==> (conn.node, peer) in links)
      ensures peer in conn.peers ==> conn.peers[peer] == links[(conn.node, peer)]
    {
    }

    lemma PairHasCell(node: Node, peer: Node)
      requires OneToOne(links, peerOf) && (node, peer) in links
      ensures links[(node, peer)] in peerOf && peerOf[links[(node, peer)]] == peer && links[(node, peer)].data == node
    {
    }

    lemma StillHeld(p: Node)
      requires Counted(p) && Temporary in p.holders
      ensures p.ref > 0
    {
    }

    /** One turn of fst_peer_remove. */
    method RemoveOne(conn: Connection, peer: Node)
      requires Valid() && Mirrors(conn) && peer in conn.peers && peer in held
      modifies this, peerOf.Keys, conn`peers, peer`ref, peer`holders
      ensures Valid() && Mirrors(conn) && conn.peers == old(conn.peers) - {peer} && Counted(peer)
      ensures links == old(links) - {(conn.node, peer)} && held <= old(held) && connected == old(connected)
      ensures peerOf.Keys <= old(peerOf.Keys) && OnlyLess(conn.node, old(peer.holders), peer.holders)
    {
      hide Lists, Counted, OneToOne, AllCounted, IsSlice, OnlyConnected, OnlyLess;
      OldLink(conn, peer);
      var node: Node := conn.node;
      OneLessHolder(node, peer.holders);
      PairHasCell(node, peer);
      SliceLess(conn.peers, node, links, peer);
      RemoveGlobal(peer, conn.peers[peer]);
      conn.peers := conn.peers - {peer};
    }

    /** The same, and what it is to nodes that may or may not be peers any more. */
    method RemoveOneOf(conn: Connection, peer: Node, ghost before: map<Node, multiset<Holder>>)
      requires Valid() && Mirrors(conn) && peer in conn.peers && peer in held
      requires StillHeldBy(before, links, conn.node)
      modifies this, peerOf.Keys, conn`peers, peer`ref, peer`holders
      ensures Valid() && Mirrors(conn) && conn.peers == old(conn.peers) - {peer}
      ensures links == old(links) - {(conn.node, peer)} && held <= old(held) && connected == old(connected)
      ensures peerOf.Keys <= old(peerOf.Keys)
      ensures StillHeldBy(before, links, conn.node)
    {
      hide Lists, OneToOne, AllCounted, IsSlice, OnlyConnected, CountedBy, OnlyLess;
      ghost var links0, h := links, peer.holders;
      OldLink(conn, peer);
      ghost var node: Node := conn.node;
      RemoveOne(conn, peer);
      forall p | p in before
        ensures CountedBy(p, links) && OnlyLess(node, before[p], p.holders)
      {
        if p == peer {
          LessAgain(node, before[p], h, p.holders);
        } else {
          CountedStill(p, links0, links, (node, peer));
        }
      }
    }

    lemma PeersHeld(conn: Connection)
      requires Valid() && Mirrors(conn)
      ensures conn.peers.Keys <= held && forall p :: p in held ==> CountedBy(p, links)
    {
    }

    method RemoveNext(conn: Connection, ghost before: map<Node, multiset<Holder>>)
      requires Valid() && Mirrors(conn) && conn.peers != map[] && held <= before.Keys
      requires StillHeldBy(before, links, conn.node)
      modifies this, peerOf.Keys, conn`peers, before.Keys`ref, before.Keys`holders
      ensures Valid() && Mirrors(conn) && |conn.peers.Keys| < |old(conn.peers.Keys)|
      ensures held <= old(held) && connected == old(connected) && peerOf.Keys <= old(peerOf.Keys)
      ensures Others(links, conn.node) == Others(old(links), conn.node) && StillHeldBy(before, links, conn.node)
    {
      hide Lists, CountedBy, OneToOne, AllCounted, IsSlice, OnlyConnected, Others, OnlyLess, StillHeldBy;
      PeersHeld(conn);
      var peer :| peer in conn.peers;
      OldLink(conn, peer);
      OthersLess(links, conn.node, peer);
      RemoveOneOf(conn, peer, before);
      assert conn.peers.Keys == old(conn.peers.Keys) - {peer};
    }

    /** fst_peer_remove: the session's node has no peers any more, and no peer is held
        for it. */
    method RemovePeers(conn: Connection)
      requires Valid() && Mirrors(conn)
      modifies this, peerOf.Keys, conn`peers, held`ref, held`holders
      ensures Valid() && Mirrors(conn) && conn.peers == map[] && connected == old(connected)
      ensures links == Others(old(links), conn.node)
      ensures held <= old(held) && peerOf.Keys <= old(peerOf.Keys)
      ensures forall p :: p in old(held) ==> CountedBy(p, links) && OnlyLess(conn.node, old(p.holders), p.holders)
    {
      hide Lists, CountedBy, OneToOne, AllCounted, IsSlice, OnlyConnected, Others, OnlyLess, StillHeldBy;
      ghost var links0, held0, cells0, node := links, held, peerOf.Keys, conn.node;
      ghost var before := map p | p in held :: p.holders;
      AllHeld(before, node);
      while conn.peers != map[]
        invariant Valid() && Mirrors(conn) && connected == old(connected) && held <= held0 && peerOf.Keys <= cells0
        invariant Others(links, node) == Others(links0, node) && StillHeldBy(before, links, node)
        decreases |conn.peers.Keys|
      {
        RemoveNext(conn, before);
      }
      NonePaired(conn);
      HeldStill(before, links, node);
    }

    lemma AllHeld(before: map<Node, multiset<Holder>>, node: Node?)
      requires AllCounted() && forall p :: p in before ==> p in held && before[p] == p.holders
      ensures StillHeldBy(before, links, node)
    {
      hide CountedBy;
    }

    lemma NonePaired(conn: Connection)
      requires Mirrors(conn) && conn.peers == map[]
      ensures Others(links, conn.node) == links
    {
    }

    //////////////////////////////////////////////////////////////////////////
    // Sessions.
    //////////////////////////////////////////////////////////////////////////

    method BeginSession(node: Node)
      requires CountedBy(node, links) && node.ref > 0 && !node.session
      modifies node`session, node`ref, node`holders
      ensures CountedBy(node, links) && node.session && node.holders == old(node.holders) + multiset{InSession}
    {
      node.AddRef(InSession);
      node.session := true;
    }

    method EndSession(node: Node)
      requires CountedBy(node, links) && node.session
      modifies node`session, node`ref, node`holders
      ensures CountedBy(node, links) && !node.session && node.holders == old(node.holders) - multiset{InSession}
    {
      node.session := false;
      var left := node.Release(InSession);
    }

    /** The node's side of fst_session_connect. */
    method Connect(conn: Connection, node: Node)
      requires Valid() && conn.node == null && conn.peers == map[]
      requires Counted(node) && node.ref > 0 && !node.session && node !in connected
      modifies this`connected, conn`node, node`session, node`ref, node`holders
      ensures Valid() && Mirrors(conn) && conn.node == node && connected == old(connected) + {node}
      ensures Counted(node) && node.session && node.holders == old(node.holders) + multiset{InSession}
    {
      hide Lists, CountedBy, OneToOne, ArePeers;
      conn.node := node;
      BeginSession(node);
      connected := connected + {node};
    }

    /** The node's side of fst_session_free. */
    method Free(conn: Connection)
      requires Valid() && Mirrors(conn)
      requires conn.node != null ==> conn.node in connected && conn.node.session && Counted(conn.node)
      modifies this, peerOf.Keys, conn`peers, held`ref, held`holders
      modifies (if conn.node == null then {} else {conn.node})`session
      modifies (if conn.node == null then {} else {conn.node})`ref
      modifies (if conn.node == null then {} else {conn.node})`holders
      ensures Valid() && conn.peers == map[] && links == Others(old(links), conn.node)
      ensures held <= old(held) && peerOf.Keys <= old(peerOf.Keys)
      ensures conn.node == null ==> connected == old(connected)
      ensures conn.node != null ==>
                connected == old(connected) - {conn.node} && Counted(conn.node) && !conn.node.session &&
                OnlyLess(conn.node, old(conn.node.holders) - multiset{InSession}, conn.node.holders)
      ensures forall p :: p in old(held) && p != conn.node ==>
                CountedBy(p, links) && OnlyLess(conn.node, old(p.holders), p.holders)
    {
      hide Lists, CountedBy, OneToOne, ArePeers, Others, IsSlice, OnlyConnected, OnlyLess;
      ghost var links0, held0 := links, held;
      ghost var h0 := if conn.node == null then multiset{} else conn.node.holders;
      RemovePeers(conn);
      if conn.node != null {
        var node: Node := conn.node;
        LessHeld(node, h0);
        if node !in held0 {
          CountedWithout(node, links0, held0, node);
        } else {
          LessWithout(node, h0, node.holders);
        }
        NoneOf(links0, node);
        Detach(node);
      }
    }

    lemma LessHeld(node: Node, h: multiset<Holder>)
      ensures OnlyLess(node, h - multiset{InSession}, h - multiset{InSession})
    {
    }

    lemma LessWithout(node: Node, a: multiset<Holder>, b: multiset<Holder>)
      requires OnlyLess(node, a, b)
      ensures OnlyLess(node, a - multiset{InSession}, b - multiset{InSession})
    {
    }

    /** A node without peers loses its session. */
    method Detach(node: Node)
      requires Valid() && Counted(node) && node.session && forall k :: k in links ==> k.0 != node
      modifies this`connected, node`session, node`ref, node`holders
      ensures Valid() && Counted(node) && !node.session && connected == old(connected) - {node}
      ensures node.holders == old(node.holders) - multiset{InSession}
    {
      hide Lists, CountedBy, OneToOne, ArePeers;
      EndSession(node);
      connected := connected - {node};
    }

    lemma NoneOf(links0: map<(Node, Node), Cell>, node: Node)
      ensures forall k :: k in Others(links0, node) ==> k.0 != node && k in links0
    {
    }

    lemma CountedWithout(p: Node, links0: map<(Node, Node), Cell>, held0: set<Node>, node: Node)
      requires CountedBy(p, links0) && ArePeers(held0, links0) && p !in held0
      ensures CountedBy(p, Others(links0, node))
    {
    }
  }

  /** The pairs of other nodes. */
  ghost function Others(links: map<(Node, Node), Cell>, node: Node?): map<(Node, Node), Cell> {
    map k | k in links && k.0 != node :: links[k]
  }

  lemma OthersLess(links: map<(Node, Node), Cell>, node: Node, peer: Node)
    ensures Others(links - {(node, peer)}, node) == Others(links, node)
  {
  }
}
