/** The node cache, the peer registry and the sessions together, as fst_fasttrack.c
    uses them: over every sequence of these operations a node's reference count is
    the number of places that hold it. */
module OverlayObject {
  import opened Nodes
  import opened NodeCache
  import opened Peers

  ghost predicate SamePeers(a: multiset<Holder>, b: multiset<Holder>) {
    (forall h :: h in a && h.AsPeer? ==> b[h] == a[h]) && (forall h :: h in b && h.AsPeer? ==> a[h] == b[h])
  }

  lemma SameWithOther(a: multiset<Holder>, h: Holder)
    requires !h.AsPeer?
    ensures SamePeers(a, a + multiset{h}) && SamePeers(a, a - multiset{h})
  {
  }

  /** A node that is held otherwise is still held by the same nodes. */
  lemma CountedAnew(n: Node, before: multiset<Holder>, links: map<(Node, Node), Cell>)
    requires HeldAsPeer(before, n, links) && SamePeers(before, n.holders) && n.Valid()
    ensures CountedBy(n, links)
  {
  }

  /** The nodes that have a node as their peer. */
  ghost function HavingPeer(n: Node, links: map<(Node, Node), Cell>): set<Node> {
    set k | k in links && k.1 == n :: k.0
  }

  lemma {:induction false} HolderCount(h: multiset<Holder>, s: set<Node>)
    requires forall a :: a in h && a.AsPeer? ==> a.of in s && h[a] == 1
    requires forall x :: x in s ==> AsPeer(x) in h
    ensures |h| == h[Cached] + h[InSession] + h[Temporary] + |s|
    decreases |s|
  {
    if s == {} {
      var rest := multiset{}[Cached := h[Cached]][InSession := h[InSession]][Temporary := h[Temporary]];
      assert h == rest;
    } else {
      var x :| x in s;
      var less := h - multiset{AsPeer(x)};
      HolderCount(less, s - {x});
      assert |h| == |less| + 1;
    }
  }

  /** What a move makes of a list: the node, if it is listed, is at its place among the
      others, which are in their old order. */
  ghost predicate Moved(listed: bool, before: seq<Node>, after: seq<Node>, node: Node, pos: InsertPos, place: nat)
    reads node`lastSeen, node`load, Without(before, node)`lastSeen, Without(before, node)`load
  {
    if !listed then after == before
    else
      var others := Without(before, node);
      place <= |others| && after == Inserted(others, place, node) && IsPlace(pos, others, node, place)
  }

  /** What a turn of connecting makes of the list: the first node goes to the back, or
      is removed. */
  predicate Turned(before: seq<Node>, after: seq<Node>, stays: bool) {
    if before == [] then after == []
    else after == before[1..] + if stays then [before[0]] else []
  }

  /** Over any run of turns the nodes come to the front one after the other, in the order
      in which they were listed: each of them within as many turns as there were nodes. */
  lemma {:induction false} AllComeToFront(lists: seq<seq<Node>>, stays: seq<bool>, i: nat)
    requires |lists| == |stays| + 1
    requires forall j :: 0 <= j < |stays| ==> Turned(lists[j], lists[j + 1], stays[j])
    requires i < |lists| && i < |lists[0]|
    ensures lists[i] != [] && lists[i][0] == lists[0][i]
  {
    ComeCloser(lists, stays, i);
  }

  lemma {:induction false} ComeCloser(lists: seq<seq<Node>>, stays: seq<bool>, i: nat)
    requires |lists| == |stays| + 1
    requires forall j :: 0 <= j < |stays| ==> Turned(lists[j], lists[j + 1], stays[j])
    requires i < |lists| && i < |lists[0]|
    ensures |lists[i]| >= |lists[0]| - i && lists[i][..|lists[0]| - i] == lists[0][i..]
  {
    if i > 0 {
      ComeCloser(lists, stays, i - 1);
      assert Turned(lists[i - 1], lists[i], stays[i - 1]);
    }
  }

  /** A node as a server tells of it; age is in minutes. */
  datatype Entry = Entry(host: Host, port: nat, age: nat, load: nat)

  class Overlay {
    /** fst_utils_ip_routable on the address of a host, and no ban of it. */
    const routable: Host -> bool
    const cache: Cache
    const registry: Registry
    /** Every node there has been. */
    ghost var known: set<Node>
    /** The session that a node's back pointer names. */
    ghost var sessions: map<Node, Connection>

    /** A node is counted by all that hold it, and its pointers agree with them. */
    ghost predicate Agrees(n: Node)
      reads n, registry`links, registry`connected, cache`nodes
    {
      CountedBy(n, registry.links) && cache.Knows(n) && (n.session <==> n in registry.connected)
    }

    ghost predicate AllAgree()
      reads this`known, known, registry`links, registry`connected, cache`nodes
    {
      forall n :: n in known ==> Agrees(n)
    }

    ghost predicate Apart()
      reads this`known, cache`repr, cache`nodes, registry`peerOf, registry`held, registry`connected
    {
      cache.repr !! registry.peerOf.Keys && cache.nodes <= known && registry.held <= known &&
      registry.connected <= known
    }

    /** Every session's map of peers is the registry's, for its node. */
    ghost predicate AllMirror(s: map<Node, Connection>)
      reads registry`links, s.Values
    {
      forall n :: n in s ==> s[n].node == n && registry.Mirrors(s[n])
    }

    ghost predicate Sessions()
      reads this`sessions, registry`links, registry`connected, sessions.Values
    {
      registry.connected == sessions.Keys && AllMirror(sessions)
    }

    ghost predicate Valid()
      reads this, cache, registry, cache.repr, cache.nodes, registry.peerOf.Keys, registry.held, known, sessions.Values
    {
      cache.Valid() && registry.Valid() && Apart() && AllAgree() && Sessions()
    }

    constructor (routable: Host -> bool)
      ensures this.routable == routable
      ensures Valid() && fresh(cache) && fresh(registry) && known == {} && sessions == map[]
    {
      hide Cache.Valid, Registry.Valid, CountedBy, Cache.Knows;
      cache := new Cache();
      registry := new Registry();
      this.routable, known, sessions := routable, {}, map[];
    }

    //////////////////////////////////////////////////////////////////////////
    // What the invariant says.
    //////////////////////////////////////////////////////////////////////////

    /** The reference count of a node: once for the cache, once for its session, once
        for every connected node that has it as a peer, and once for every piece of
        code that is working on it. */
    lemma RefIs(n: Node)
      requires Valid() && n in known
      ensures n.ref == (if n in cache.nodes then 1 else 0) + (if n in sessions then 1 else 0) +
                       |HavingPeer(n, registry.links)| + n.holders[Temporary]
    {
      hide Cache.Valid, Registry.Valid;
      assert Agrees(n);
      HolderCount(n.holders, HavingPeer(n, registry.links));
    }

    /** A node that nobody holds is in no list, no hash, no session and no session's map. */
    lemma Unheld(n: Node)
      requires Valid() && n in known && n.ref == 0
      ensures n !in cache.nodes && n.link == null && n !in sessions && n !in registry.gpeers
      ensures forall h :: h in cache.hash ==> cache.hash[h] != n
      ensures forall x :: x in sessions ==> n !in sessions[x].peers
    {
      hide CountedBy, Cache.IsList, Cache.LinksBack, Registry.Lists, Registry.AllCounted, OneToOne;
      assert Agrees(n);
      Unpaired(n);
      forall h | h in cache.hash
        ensures cache.hash[h] != n
      {
        assert cache.hash[h] in cache.nodes;
      }
    }

    /** A node that nobody holds is not paired. */
    lemma Unpaired(n: Node)
      requires Agrees(n) && n.ref == 0 && registry.Lists() && OneToOne(registry.links, registry.peerOf)
      ensures n.link == null && !n.session && n !in registry.gpeers
      ensures forall k :: k in registry.links ==> k.1 != n
    {
      hide Registry.Lists, OneToOne;
      registry.NobodysPeer(n);
      NoHolders(n);
      if n in registry.gpeers {
        registry.ListedPeer(n);
      }
    }

    lemma NoHolders(n: Node)
      requires n.Valid() && n.ref == 0
      ensures n.link == null && !n.session
    {
      assert |n.holders| == 0;
    }

    //////////////////////////////////////////////////////////////////////////
    // The cache's operations.
    //////////////////////////////////////////////////////////////////////////

    /** The registry counts as long as every node does. */
    lemma RegistryIsValid()
      requires registry.Lists() && OneToOne(registry.links, registry.peerOf) && registry.OnlyConnected()
      requires ArePeers(registry.held, registry.links) && registry.held <= known && AllAgree()
      ensures registry.Valid()
    {
      hide Registry.Lists, OneToOne, Registry.OnlyConnected, ArePeers, CountedBy, Cache.Knows;
      assert forall n :: n in registry.held ==> Agrees(n);
    }

    lemma RegistryParts()
      requires registry.Valid()
      ensures registry.Lists() && OneToOne(registry.links, registry.peerOf) && registry.OnlyConnected()
      ensures ArePeers(registry.held, registry.links)
    {
    }

    lemma Agreed(n: Node)
      requires AllAgree() && n in known
      ensures n.Valid() && HeldAsPeer(n.holders, n, registry.links) && cache.Knows(n)
      ensures n.session <==> n in registry.connected
      ensures n.link != null <==> n in cache.nodes
    {
      assert Agrees(n);
    }

    lemma AllAgreed()
      requires AllAgree()
      ensures forall n :: n in known ==> CountedBy(n, registry.links)
      ensures forall n :: n in known ==> (n.link != null <==> n in cache.nodes)
      ensures forall n :: n in known ==> (n.session <==> n in registry.connected)
    {
      hide CountedBy, Node.Valid;
      assert forall n :: n in known ==> Agrees(n);
    }

    /** A node that is held as before, but for the cache or for a while. */
    lemma AgreesAnew(n: Node, before: multiset<Holder>)
      requires HeldAsPeer(before, n, registry.links) && SamePeers(before, n.holders) && cache.Knows(n)
      requires n.session <==> n in registry.connected
      ensures Agrees(n)
    {
      CountedAnew(n, before, registry.links);
    }

    /** fst_node_addref by code that is going to hold a node for a while. */
    method Hold(node: Node)
      requires Valid() && node in known && node.ref > 0
      modifies node`ref, node`holders
      ensures Valid() && node.holders == old(node.holders) + multiset{Temporary}
    {
      hide Cache.IsList, Cache.Hashes, LinkedBack, Cache.Valid, Registry.Lists, OneToOne, Registry.OnlyConnected;
      hide ArePeers, CountedBy, HeldAsPeer, SamePeers, Registry.Valid, Registry.Mirrors, Node.Valid;
      ghost var h := node.holders;
      Agreed(node);
      CacheParts();
      RegistryParts();
      SameWithOther(h, Temporary);
      HoldOnly(node);
      forall n | n in known
        ensures Agrees(n)
      {
        if n == node {
          AgreesAnew(n, h);
        }
      }
      CacheIsValid();
      RegistryIsValid();
    }

    method HoldOnly(node: Node)
      requires node.Valid() && node.ref > 0
      modifies node`ref, node`holders
      ensures node.Valid() && node.holders == old(node.holders) + multiset{Temporary}
    {
      node.AddRef(Temporary);
    }

    /** fst_node_release by code that held a node for a while. */
    method LetGo(node: Node)
      requires Valid() && node in known && Temporary in node.holders
      modifies node`ref, node`holders
      ensures Valid() && node.holders == old(node.holders) - multiset{Temporary}
    {
      hide Cache.Valid, Cache.Knows, Registry.Lists, OneToOne, Registry.OnlyConnected, ArePeers, CountedBy;
      hide HeldAsPeer, SamePeers;
      hide Node.Valid, Registry.Valid, IsSlice;
      ghost var h := node.holders;
      Agreed(node);
      RegistryParts();
      SameWithOther(h, Temporary);
      cache.LetGo(node);
      forall n | n in known
        ensures Agrees(n)
      {
        if n == node {
          AgreesAnew(n, h);
        }
      }
      RegistryIsValid();
    }

    /** fst_nodecache_get_front. */
    method GetFront() returns (node: Node?)
      requires Valid()
      modifies cache.nodes`ref, cache.nodes`holders
      ensures Valid() && (node == null <==> cache.Listed() == [])
      ensures node != null ==>
                node in cache.nodes && node in known && node.ref > 0 && node == cache.Listed()[0] &&
                node.holders == old(node.holders) + multiset{Temporary}
      ensures forall n :: n in known && n != node ==> n.holders == old(n.holders)
    {
      hide Cache.Valid, Cache.Knows, Registry.Lists, OneToOne, Registry.OnlyConnected, ArePeers, CountedBy;
      hide HeldAsPeer, SamePeers;
      hide Node.Valid, Registry.Valid, Registry.Mirrors, Data;
      FrontKnown();
      RegistryParts();
      node := cache.GetFront();
      if node == null {
        return;
      }
      InCache(node);
      forall n | n in known
        ensures Agrees(n)
      {
        if n == node {
          SameWithOther(old(node.holders), Temporary);
          AgreesAnew(n, old(node.holders));
        }
      }
      RegistryIsValid();
    }

    lemma FrontKnown()
      requires Valid()
      ensures cache.list != null ==>
                cache.list.data in cache.nodes && cache.Listed() != [] && cache.Listed()[0] == cache.list.data
      ensures cache.list != null ==>
                cache.list.data in known && HeldAsPeer(cache.list.data.holders, cache.list.data, registry.links)
      ensures cache.list == null ==> cache.Listed() == []
    {
      hide Registry.Valid, IsSlice, CountedBy;
      cache.FrontListed();
      if cache.list != null {
        Agreed(cache.list.data);
      }
    }

    /** fst_nodecache_move. */
    method Move(node: Node, pos: InsertPos) returns (ghost place: nat)
      requires Valid() && node in known
      modifies cache, cache.repr, node`link, node`ref, node`holders
      ensures Valid() && node.holders == old(node.holders) && cache.nodes == old(cache.nodes)
      ensures Moved(node in cache.nodes, old(cache.Listed()), cache.Listed(), node, pos, place)
    {
      hide Cache.Valid, Cache.Knows, Registry.Lists, OneToOne, Registry.OnlyConnected, ArePeers, CountedBy;
      hide HeldAsPeer, SamePeers;
      hide Node.Valid, Registry.Valid, Registry.Mirrors, Data, AllAgree;
      RegistryParts();
      place := Reorder(node, pos);
      RegistryIsValid();
    }

    /** The same, for the cache and the counts. */
    method Reorder(node: Node, pos: InsertPos) returns (ghost place: nat)
      requires cache.Valid() && AllAgree() && node in known
      modifies cache, cache.repr, node`link, node`ref, node`holders
      ensures Moved(node in cache.nodes, old(cache.Listed()), cache.Listed(), node, pos, place)
      ensures cache.Valid() && AllAgree() && cache.nodes == old(cache.nodes) && node.holders == old(node.holders)
      ensures forall c :: c in cache.repr ==> c in old(cache.repr) || fresh(c)
    {
      hide Cache.Valid, Cache.Knows, CountedBy, HeldAsPeer, SamePeers, Node.Valid, Data, Cache.Listed, Inserted;
      hide Without, IsPlace;
      ghost var h := node.holders;
      Agreed(node);
      SameAsBefore(h);
      var moved;
      moved, place := cache.Move(node, pos);
      forall n | n in known
        ensures Agrees(n)
      {
        if n == node {
          AgreesAnew(n, h);
        }
      }
    }

    lemma SameAsBefore(h: multiset<Holder>)
      ensures SamePeers(h, h)
    {
    }

    /** fst_nodecache_add. */
    method Add(klass: Klass, host: Host, port: nat, load: nat, lastSeen: nat) returns (node: Node)
      requires Valid()
      modifies this`known, cache, cache.repr, cache.nodes
      ensures Valid() && known == old(known) + {node} && cache.nodes == old(cache.nodes) + {node}
      ensures node in old(cache.nodes) || (fresh(node) && node.holders == multiset{Cached})
      ensures forall n :: n in old(known) ==> n.holders == old(n.holders) && n.host == old(n.host)
      ensures node.host == host && node.ref > 0
      ensures node.klass == klass && node.port == port && node.load == load && node.lastSeen == lastSeen
      ensures cache.Listed() ==
              [node] + if host in old(cache.hash) then Without(old(cache.Listed()), node) else old(cache.Listed())
      ensures forall c :: c in cache.repr ==> c in old(cache.repr) || fresh(c)
    {
      hide Cache.Valid, Cache.Knows, Registry.Lists, OneToOne, Registry.OnlyConnected, ArePeers, CountedBy;
      hide HeldAsPeer, SamePeers;
      hide Node.Valid, Registry.Valid, Registry.Mirrors, Data, AllAgree;
      RegistryParts();
      node := Enter(klass, host, port, load, lastSeen);
      RegistryIsValid();
    }

    method Enter(klass: Klass, host: Host, port: nat, load: nat, lastSeen: nat) returns (node: Node)
      requires cache.Valid() && AllAgree() && cache.nodes <= known && ArePeers(registry.held, registry.links)
      requires registry.held <= known && registry.connected <= known
      modifies this`known, cache, cache.repr, cache.nodes
      ensures cache.Valid() && AllAgree() && cache.nodes == old(cache.nodes) + {node} && known == old(known) + {node}
      ensures node in old(cache.nodes) || (fresh(node) && node.holders == multiset{Cached})
      ensures forall n :: n in old(known) ==> n.holders == old(n.holders) && n.host == old(n.host)
      ensures forall c :: c in cache.repr ==> c in old(cache.repr) || fresh(c)
      ensures node.host == host && node.ref > 0
      ensures node.klass == klass && node.port == port && node.load == load && node.lastSeen == lastSeen
      ensures cache.Listed() ==
              [node] + if host in old(cache.hash) then Without(old(cache.Listed()), node) else old(cache.Listed())
    {
      hide Cache.Valid, CountedBy, HeldAsPeer, SamePeers, Node.Valid, Data, Cache.Listed, Without, ArePeers;
      ghost var known0 := known;
      HashedKnown(host);
      node := cache.Add(klass, host, port, load, lastSeen);
      known := known + {node};
      InCache(node);
      forall n | n in known
        ensures Agrees(n)
      {
        if n == node {
          if n in known0 {
            AgreesStill(n);
          } else {
            NotPaired(n);
            AgreesNew(n);
          }
        }
      }
    }

    lemma HashedKnown(host: Host)
      requires cache.Valid() && AllAgree() && cache.nodes <= known
      ensures host in cache.hash ==>
                cache.hash[host] in cache.nodes &&
                HeldAsPeer(cache.hash[host].holders, cache.hash[host], registry.links) &&
                (InSession in cache.hash[host].holders <==> cache.hash[host] in registry.connected) &&
                cache.hash[host].host == host
    {
      if host in cache.hash {
        Agreed(cache.hash[host]);
      }
    }

    lemma InCache(n: Node)
      requires cache.Valid() && n in cache.nodes
      ensures n.ref > 0 && cache.Knows(n)
    {
      cache.HeldHere(n);
    }

    lemma AgreesStill(n: Node)
      requires cache.Knows(n) && HeldAsPeer(n.holders, n, registry.links)
      requires InSession in n.holders <==> n in registry.connected
      ensures Agrees(n)
    {
    }

    lemma NotPaired(n: Node)
      requires ArePeers(registry.held, registry.links) && n !in registry.held
      ensures forall k :: k in registry.links ==> k.1 != n
    {
    }

    lemma AgreesNew(n: Node)
      requires n.holders == multiset{Cached} && cache.Knows(n) && n !in registry.connected
      requires forall k :: k in registry.links ==> k.1 != n
      ensures Agrees(n)
    {
    }

    /** fst_nodecache_remove. */
    method Remove(node: Node)
      requires Valid() && node in known
      modifies cache, cache.repr, node`link, node`ref, node`holders
      ensures Valid() && cache.nodes == old(cache.nodes) - {node}
      ensures node.holders == old(node.holders) - multiset{Cached}
      ensures cache.Listed() ==
              if node in old(cache.nodes) then Without(old(cache.Listed()), node) else old(cache.Listed())
    {
      hide Cache.Valid, Cache.Knows, Registry.Lists, OneToOne, Registry.OnlyConnected, ArePeers, CountedBy;
      hide HeldAsPeer, SamePeers;
      hide Node.Valid, Registry.Valid, Registry.Mirrors, Data, AllAgree;
      RegistryParts();
      Uncache(node);
      RegistryIsValid();
    }

    method Uncache(node: Node)
      requires cache.Valid() && AllAgree() && node in known
      modifies cache, cache.repr, node`link, node`ref, node`holders
      ensures cache.Valid() && AllAgree() && cache.repr <= old(cache.repr) && cache.nodes == old(cache.nodes) - {node}
      ensures node.holders == old(node.holders) - multiset{Cached}
      ensures cache.Listed() ==
              if node in old(cache.nodes) then Without(old(cache.Listed()), node) else old(cache.Listed())
    {
      hide Cache.Valid, CountedBy, HeldAsPeer, SamePeers, Node.Valid, Data, Cache.Listed, Without;
      ghost var h := node.holders;
      Agreed(node);
      SameWithOther(h, Cached);
      cache.Remove(node);
      forall n | n in known
        ensures Agrees(n)
      {
        if n == node {
          AgreesAnew(n, h);
        }
      }
    }

    /** fst_nodecache_sort. */
    method Sort() returns (ghost sorted: seq<Node>)
      requires Valid()
      modifies cache, cache.repr, cache.nodes`link, cache.nodes`ref, cache.nodes`holders
      ensures Valid() && cache.nodes <= old(cache.nodes)
      ensures multiset(sorted) == multiset(old(cache.Listed())) && cache.Listed() == Kept(sorted)
      ensures forall i, j :: 0 <= i < j < |sorted| ==> Ahead(sorted[i], sorted[j])
      ensures forall n :: n in known ==>
                n.holders == old(n.holders) -
                             if n in old(cache.nodes) && n !in cache.nodes then multiset{Cached} else multiset{}
    {
      hide Cache.Valid, Cache.Knows, Registry.Lists, OneToOne, Registry.OnlyConnected, ArePeers, CountedBy;
      hide HeldAsPeer, SamePeers;
      hide Node.Valid, Registry.Valid, Registry.Mirrors, Data, AllAgree;
      hide Kept, Ahead;
      RegistryParts();
      sorted := Shorten();
      RegistryIsValid();
    }

    method Shorten() returns (ghost sorted: seq<Node>)
      requires cache.Valid() && AllAgree() && cache.nodes <= known
      modifies cache, cache.repr, cache.nodes`link, cache.nodes`ref, cache.nodes`holders
      ensures multiset(sorted) == multiset(old(cache.Listed())) && cache.Listed() == Kept(sorted)
      ensures forall i, j :: 0 <= i < j < |sorted| ==> Ahead(sorted[i], sorted[j])
      ensures cache.Valid() && AllAgree() && cache.nodes <= old(cache.nodes) && cache.repr <= old(cache.repr)
      ensures forall n :: n in known ==>
                n.holders == old(n.holders) -
                             if n in old(cache.nodes) && n !in cache.nodes then multiset{Cached} else multiset{}
    {
      hide Cache.Valid, CountedBy, HeldAsPeer, SamePeers, Node.Valid, Data, Cache.Listed, Ordered, Kept, Ahead;
      ghost var nodes0 := cache.nodes;
      ghost var before := map n | n in known :: n.holders;
      ghost var links := registry.links;
      assert forall n :: n in known ==> HeldAsPeer(before[n], n, links) by {
        forall n | n in known
          ensures HeldAsPeer(before[n], n, links)
        {
          Agreed(n);
        }
      }
      var size;
      size, sorted := cache.Sort();
      forall n | n in known
        ensures Agrees(n)
      {
        if n in cache.nodes {
          InCache(n);
          SameAsBefore(before[n]);
          AgreesAnew(n, before[n]);
        } else if n in nodes0 {
          SameWithOther(before[n], Cached);
          AgreesAnew(n, before[n]);
        }
      }
    }

    //////////////////////////////////////////////////////////////////////////
    // Sessions and their peers.
    //////////////////////////////////////////////////////////////////////////

    lemma CacheParts()
      requires cache.Valid()
      ensures cache.IsList() && cache.Hashes() && LinkedBack(cache.repr, cache.nodes)
    {
    }

    /** The cache is as long as its nodes agree. */
    lemma CacheIsValid()
      requires cache.IsList() && cache.Hashes() && LinkedBack(cache.repr, cache.nodes)
      requires cache.nodes <= known && AllAgree()
      ensures cache.Valid()
    {
      hide Cache.IsList, Cache.Hashes, LinkedBack;
      forall n | n in cache.nodes
        ensures n.Valid()
      {
        Agreed(n);
      }
    }

    /** fst_peer_insert for a session of ours. */
    method Befriend(conn: Connection, peer: Node)
      requires Valid() && conn in sessions.Values && peer in known && peer.ref > 0
      modifies registry, registry.peerOf.Keys, conn`peers, peer`ref, peer`holders
      ensures Valid() && conn.node in sessions && sessions[conn.node] == conn
      ensures peer in conn.peers && conn.peers == old(conn.peers)[peer := conn.peers[peer]]
      ensures registry.links == old(registry.links)[(conn.node, peer) := conn.peers[peer]]
      ensures peer.holders == if (conn.node, peer) in old(registry.links) then old(peer.holders)
                              else old(peer.holders) + multiset{AsPeer(conn.node)}
      ensures forall c :: c in registry.peerOf ==> c in old(registry.peerOf) || fresh(c)
    {
      hide Cache.IsList, Cache.Hashes, LinkedBack, Cache.Valid, Registry.Valid, AllAgree, Sessions;
      SessionOf(conn);
      CacheParts();
      PairAmong(conn, peer);
      CacheIsValid();
    }

    /** The same, for the registry, the sessions and the counts. */
    method PairAmong(conn: Connection, peer: Node)
      requires registry.Valid() && AllAgree() && Sessions() && registry.held <= known
      requires conn.node != null && conn.node in sessions && sessions[conn.node] == conn
      requires peer in known && peer.ref > 0
      modifies registry, registry.peerOf.Keys, conn`peers, peer`ref, peer`holders
      ensures registry.Valid() && AllAgree() && Sessions() && registry.held <= known
      ensures registry.connected == old(registry.connected)
      ensures forall c :: c in registry.peerOf ==> c in old(registry.peerOf) || fresh(c)
      ensures peer in conn.peers && conn.peers == old(conn.peers)[peer := conn.peers[peer]]
      ensures registry.links == old(registry.links)[(conn.node, peer) := conn.peers[peer]]
      ensures peer.holders == if (conn.node, peer) in old(registry.links) then old(peer.holders)
                              else old(peer.holders) + multiset{AsPeer(conn.node)}
    {
      hide Agrees, CountedBy, Registry.Valid, IsSlice, AllAgree, ArePeers;
      RegistryParts();
      ghost var node: Node := conn.node;
      ghost var held0, links0 := registry.held, registry.links;
      PairUp(conn, peer);
      HeldKnown(held0, links0, (node, peer));
      forall n | n in sessions
        ensures sessions[n].node == n && registry.Mirrors(sessions[n])
      {
        if n != node {
          SliceBeside(sessions[n].peers, n, links0, node, peer, conn.peers[peer]);
        }
      }
    }

    /** The same, for the registry and the counts. */
    method PairUp(conn: Connection, peer: Node)
      requires registry.Valid() && registry.Mirrors(conn) && conn.node != null && conn.node in registry.connected
      requires AllAgree() && peer in known && peer.ref > 0
      modifies registry, registry.peerOf.Keys, conn`peers, peer`ref, peer`holders
      ensures registry.Valid() && registry.Mirrors(conn) && AllAgree() && registry.connected == old(registry.connected)
      ensures forall c :: c in registry.peerOf ==> c in old(registry.peerOf) || fresh(c)
      ensures peer in conn.peers && conn.peers == old(conn.peers)[peer := conn.peers[peer]]
      ensures registry.links == old(registry.links)[(conn.node, peer) := conn.peers[peer]]
      ensures peer.holders == if (conn.node, peer) in old(registry.links) then old(peer.holders)
                              else old(peer.holders) + multiset{AsPeer(conn.node)}
    {
      hide Cache.Knows, CountedBy, Registry.Valid, IsSlice, HeldAsPeer, Node.Valid;
      Agreed(peer);
      assert CountedBy(peer, registry.links) by {
        assert Agrees(peer);
      }
      ghost var node: Node := conn.node;
      ghost var links0 := registry.links;
      registry.Insert(conn, peer);
      forall n | n in known
        ensures Agrees(n)
      {
        if n == peer {
          AgreesCounted(n);
        } else {
          CountedStill(n, links0, registry.links, (node, peer));
        }
      }
    }

    lemma AgreesCounted(n: Node)
      requires CountedBy(n, registry.links) && (n.link != null <==> n in cache.nodes)
      requires n.session <==> n in registry.connected
      ensures Agrees(n)
    {
    }

    lemma HeldKnown(held0: set<Node>, links0: map<(Node, Node), Cell>, pair: (Node, Node))
      requires ArePeers(held0, links0) && held0 <= known && pair.1 in known
      requires registry.Valid() && registry.links.Keys <= links0.Keys + {pair}
      ensures registry.held <= known
    {
      hide Registry.Lists, OneToOne, CountedBy;
      forall p | p in registry.held
        ensures p in known
      {
        var k :| k in registry.links && k.1 == p;
        assert k in links0 || k == pair;
      }
    }

    lemma SessionOf(conn: Connection)
      requires Valid() && conn in sessions.Values
      ensures conn.node != null && conn.node in sessions && sessions[conn.node] == conn
      ensures conn.node in registry.connected && registry.Mirrors(conn)
    {
      hide Cache.Valid, Registry.Valid, Apart, AllAgree, IsSlice;
      var n :| n in sessions && sessions[n] == conn;
    }

    /** The node's side of fst_session_create and fst_session_connect. */
    method Open(node: Node) returns (conn: Connection)
      requires Valid() && node in known && node.ref > 0 && !node.session
      modifies this`sessions, registry`connected, node`session, node`ref, node`holders
      ensures Valid() && fresh(conn) && conn.node == node && sessions == old(sessions)[node := conn]
      ensures node.holders == old(node.holders) + multiset{InSession} && registry.links == old(registry.links)
    {
      hide Cache.IsList, Cache.Hashes, LinkedBack, Cache.Valid, Registry.Valid, AllAgree, Sessions;
      CacheParts();
      conn := OpenOnly(node);
      CacheIsValid();
    }

    /** The same, but for the cache. */
    method OpenOnly(node: Node) returns (conn: Connection)
      requires registry.Valid() && AllAgree() && Sessions() && node in known && node.ref > 0 && !node.session
      modifies this`sessions, registry`connected, node`session, node`ref, node`holders
      ensures registry.Valid() && AllAgree() && Sessions() && registry.connected == old(registry.connected) + {node}
      ensures fresh(conn) && conn.node == node && sessions == old(sessions)[node := conn]
      ensures node.holders == old(node.holders) + multiset{InSession}
    {
      hide CountedBy, Registry.Valid, IsSlice, HeldAsPeer, Node.Valid, Agrees, AllAgree, AllMirror;
      conn := new Connection();
      Begin(conn, node);
      OneMirrors(sessions, conn);
      sessions := sessions[node := conn];
    }

    lemma OneMirrors(s: map<Node, Connection>, conn: Connection)
      requires AllMirror(s) && conn.node != null && registry.Mirrors(conn)
      ensures AllMirror(s[conn.node := conn])
    {
    }

    /** The same, for the registry and the counts. */
    method Begin(conn: Connection, node: Node)
      requires registry.Valid() && AllAgree() && node in known && node.ref > 0 && !node.session
      requires conn.node == null && conn.peers == map[]
      modifies conn`node, registry`connected, node`session, node`ref, node`holders
      ensures registry.Valid() && registry.Mirrors(conn) && AllAgree() && conn.node == node
      ensures registry.connected == old(registry.connected) + {node}
      ensures node.holders == old(node.holders) + multiset{InSession}
    {
      hide Cache.Knows, CountedBy, Registry.Valid, IsSlice, HeldAsPeer, Node.Valid, Agrees;
      AllAgreed();
      registry.Connect(conn, node);
      forall n | n in known
        ensures Agrees(n)
      {
        AgreesCounted(n);
      }
    }

    /** The node's side of fst_session_free. */
    method Close(conn: Connection)
      requires Valid() && conn in sessions.Values
      modifies this`sessions, registry, registry.peerOf.Keys, conn`peers
      modifies known`session, known`ref, known`holders
      ensures Valid() && conn.node != null && sessions == old(sessions) - {conn.node}
      ensures registry.links == Others(old(registry.links), conn.node)
      ensures SameWork(known)
    {
      hide Cache.IsList, Cache.Hashes, LinkedBack, Cache.Valid, Registry.Valid, AllAgree, Sessions, Others;
      SessionOf(conn);
      CacheParts();
      CloseOnly(conn);
      CacheIsValid();
    }

    /** The same, but for the cache. */
    method CloseOnly(conn: Connection)
      requires registry.Valid() && AllAgree() && Sessions() && conn.node in sessions && sessions[conn.node] == conn
      requires registry.held <= known && conn.node in known
      modifies this`sessions, registry, registry.peerOf.Keys, conn`peers
      modifies known`session, known`ref, known`holders
      ensures registry.Valid() && AllAgree() && Sessions() && sessions == old(sessions) - {conn.node}
      ensures registry.connected == old(registry.connected) - {conn.node}
      ensures registry.links == Others(old(registry.links), conn.node) && registry.held <= old(registry.held)
      ensures registry.peerOf.Keys <= old(registry.peerOf.Keys)
      ensures SameWork(known)
    {
      hide Registry.Valid, IsSlice, Others, AllAgree;
      ghost var links0 := registry.links;
      ghost var node: Node := conn.node;
      Unpeer(conn);
      sessions := sessions - {node};
      forall n | n in sessions
        ensures sessions[n].node == n && registry.Mirrors(sessions[n])
      {
        SliceOfOthers(sessions[n].peers, n, links0, node);
      }
    }

    /** The same, for the registry and the counts. */
    method Unpeer(conn: Connection)
      requires registry.Valid() && registry.Mirrors(conn) && conn.node != null && conn.node in registry.connected
      requires AllAgree() && conn.node in known && registry.held <= known
      modifies registry, registry.peerOf.Keys, conn`peers, known`session, known`ref, known`holders
      ensures registry.Valid() && AllAgree() && registry.connected == old(registry.connected) - {conn.node}
      ensures registry.links == Others(old(registry.links), conn.node) && registry.held <= old(registry.held)
      ensures registry.peerOf.Keys <= old(registry.peerOf.Keys)
      ensures SameWork(known)
    {
      hide Cache.Knows, CountedBy, Registry.Valid, IsSlice, HeldAsPeer, Node.Valid, Others, OnlyLess, Agrees, ArePeers;
      AllAgreed();
      Uncount(conn);
      forall n | n in known
        ensures Agrees(n)
      {
        AgreesCounted(n);
      }
    }

    method Uncount(conn: Connection)
      requires registry.Valid() && registry.Mirrors(conn) && conn.node != null && conn.node in registry.connected
      requires forall n :: n in known ==> CountedBy(n, registry.links)
      requires conn.node in known && conn.node.session && registry.held <= known
      modifies registry, registry.peerOf.Keys, conn`peers, conn.node`session, known`ref, known`holders
      ensures registry.Valid() && registry.connected == old(registry.connected) - {conn.node} && !conn.node.session
      ensures forall n :: n in known ==> CountedBy(n, registry.links)
      ensures registry.links == Others(old(registry.links), conn.node) && registry.held <= old(registry.held)
      ensures registry.peerOf.Keys <= old(registry.peerOf.Keys)
      ensures SameWork(known)
    {
      hide CountedBy, Registry.Valid, IsSlice, Others, OnlyLess, ArePeers;
      ghost var held0, links0 := registry.held, registry.links;
      ghost var node: Node := conn.node;
      RegistryParts();
      registry.Free(conn);
      forall n | n in known
        ensures CountedBy(n, registry.links)
      {
        if n == node {
          assert registry.Counted(n);
        } else if n !in held0 {
          registry.CountedWithout(n, links0, held0, node);
        }
      }
      forall n | n in known
        ensures n.holders[Temporary] == old(n.holders[Temporary])
      {
        if n == node {
          LessKeeps(node, old(n.holders) - multiset{InSession}, n.holders);
        } else if n in held0 {
          LessKeeps(node, old(n.holders), n.holders);
        }
      }
    }

    lemma LessKeeps(node: Node, a: multiset<Holder>, b: multiset<Holder>)
      requires OnlyLess(node, a, b)
      ensures b[Temporary] == a[Temporary]
    {
    }

    //////////////////////////////////////////////////////////////////////////
    // What fst_fasttrack.c does with them.
    //////////////////////////////////////////////////////////////////////////

    /** The holders of a node that has got a session, or has gone from the cache. */
    function HeldThen(h: multiset<Holder>, connected: bool, removed: bool): multiset<Holder> {
      if connected then h + multiset{InSession} else if removed then h - multiset{Cached} else h
    }

    /** What happens to the front node: it is connected to and goes to the back, unless
        it has a session, is near a node that has one, or cannot be reached. */
    method Try(node: Node, connects: bool) returns (conn: Connection?)
      requires Valid() && node in known && node.ref > 0
      modifies this`sessions, registry`connected, cache, cache.repr, node`link, node`session, node`ref, node`holders
      ensures Valid() && registry.links == old(registry.links)
      ensures conn == null ==> sessions == old(sessions)
      ensures conn != null ==> fresh(conn) && conn.node == node && sessions == old(sessions)[node := conn]
      ensures conn != null <==> connects && !old(node.session) && routable(old(node.host)) && Unpeered(node)
      ensures cache.nodes == old(cache.nodes) || cache.nodes == old(cache.nodes) - {node}
      ensures node in old(cache.nodes) ==>
                (node in cache.nodes <==> old(node.session) || !Unpeered(node) || routable(old(node.host))) &&
                cache.Listed() == Without(old(cache.Listed()), node) + if node in cache.nodes then [node] else []
      ensures node.holders == HeldThen(old(node.holders), conn != null, node in old(cache.nodes) - cache.nodes)
    {
      hide Valid, Without, Inserted, Cache.Listed;
      conn := null;
      ghost var others := Without(cache.Listed(), node);
      Agreeing(node);
      AtBack(others, node);
      if node.session || node in registry.gpeers {
        ghost var place := Move(node, Back);
      } else if !routable(node.host) {
        Remove(node);
      } else {
        if connects {
          conn := Open(node);
        }
        ghost var place := Move(node, Back);
      }
    }

    lemma AtBack(others: seq<Node>, node: Node)
      ensures Inserted(others, |others|, node) == others + [node]
    {
    }

    /** No connected node has the node as a peer. */
    ghost predicate Unpeered(node: Node)
      reads registry`links
    {
      forall k :: k in registry.links ==> k.1 != node
    }

    lemma Agreeing(node: Node)
      requires Valid() && node in known
      ensures node !in registry.gpeers <==> Unpeered(node)
      ensures node !in cache.nodes ==> node.holders - multiset{Cached} == node.holders
    {
      hide Registry.Lists, OneToOne, CountedBy, HeldAsPeer, Cache.Valid, IsSlice, AllMirror;
      Agreed(node);
      if node in registry.gpeers {
        registry.ListedPeer(node);
      } else {
        registry.NotListedPeer(node);
      }
    }

    /** One turn of fst_plugin_connect_next: whatever becomes of the front node, it is
        held for no longer than that. */
    method ConnectFront(connects: bool) returns (node: Node?, conn: Connection?)
      requires Valid()
      modifies this`sessions, registry`connected, cache, cache.repr, cache.nodes
      ensures Valid() && registry.links == old(registry.links)
      ensures node == if old(cache.Listed()) == [] then null else old(cache.Listed()[0])
      ensures Turned(old(cache.Listed()), cache.Listed(), node != null && node in cache.nodes)
      ensures node != null ==>
                (node in cache.nodes <==> old(node.session) || !Unpeered(node) || routable(old(node.host)))
      ensures conn == null ==> sessions == old(sessions)
      ensures conn != null ==> node != null && conn.node == node && sessions == old(sessions)[node := conn]
      ensures node != null ==>
                (conn != null <==> connects && !old(node.session) && routable(old(node.host)) && Unpeered(node)) &&
                node.holders == HeldThen(old(node.holders), conn != null, node in old(cache.nodes) - cache.nodes)
      ensures forall n :: n in known && n != node ==> n.holders == old(n.holders)
    {
      hide Valid, Cache.Listed, Unpeered, Turned, Without, HeldThen;
      conn := null;
      node := GetFront();
      if node == null {
        NothingTurned();
        return;
      }
      conn := Try(node, connects);
      ForAWhile(old(node.holders), conn != null, node in old(cache.nodes) - cache.nodes);
      FrontTurned(old(cache.Listed()), node in cache.nodes);
      LetGo(node);
    }

    lemma NothingTurned()
      ensures Turned([], [], false)
    {
    }

    lemma FrontTurned(before: seq<Node>, stays: bool)
      requires before != []
      ensures Turned(before, Without(before, before[0]) + if stays then [before[0]] else [], stays)
    {
    }

    /** Another holder is counted apart. */
    lemma ForAWhile(h: multiset<Holder>, connected: bool, removed: bool)
      ensures var w := HeldThen(h + multiset{Temporary}, connected, removed);
              Temporary in w && w - multiset{Temporary} == HeldThen(h, connected, removed)
    {
    }

    /** The end of a session: its node leaves the cache and has no peers any more. */
    method Down(conn: Connection)
      requires Valid() && conn in sessions.Values
      modifies this`sessions, cache, cache.repr, registry, registry.peerOf.Keys, conn`peers
      modifies known`link, known`session, known`ref, known`holders
      ensures Valid() && conn.node != null && sessions == old(sessions) - {conn.node}
      ensures cache.nodes == old(cache.nodes) - {conn.node} && registry.links == Others(old(registry.links), conn.node)
      ensures SameWork(known)
      ensures conn.node in known &&
              conn.node.ref == |HavingPeer(conn.node, registry.links)| + conn.node.holders[Temporary]
    {
      hide Cache.Valid, Registry.Valid, AllAgree, Sessions, Others, HavingPeer;
      SessionOf(conn);
      var node: Node := conn.node;
      Remove(node);
      Close(conn);
      RefIs(node);
    }

    /** The pieces of work that hold the nodes are as many as before. */
    twostate predicate SameWork(nodes: set<Node>)
      reads nodes`holders
    {
      forall n :: n in nodes ==> n.holders[Temporary] == old(n.holders[Temporary])
    }

    /** One node that a server tells of: it is added to the cache, and it is a peer of
        the server if that has seen it just now. */
    method HearOf(conn: Connection, e: Entry, now: nat) returns (node: Node?)
      requires Valid() && conn in sessions.Values
      modifies this`known, cache, cache.repr, cache.nodes, registry, registry.peerOf.Keys, conn`peers
      ensures Valid() && SameWork(old(known)) && (node != null <==> routable(e.host))
      ensures node != null ==>
                node in cache.nodes && node.klass == Super && node.host == e.host && node.port == e.port &&
                node.load == e.load && (now >= 60 * e.age ==> node.lastSeen == now - 60 * e.age) &&
                cache.Listed() != [] && cache.Listed()[0] == node
      ensures conn.peers.Keys == old(conn.peers.Keys) + if node != null && e.age == 0 then {node} else {}
    {
      hide Valid, Cache.Listed;
      node := null;
      if routable(e.host) {
        node := Learn(e, now);
        if e.age == 0 {
          Meet(conn, node);
        }
      }
    }

    method Learn(e: Entry, now: nat) returns (node: Node)
      requires Valid()
      modifies this`known, cache, cache.repr, cache.nodes
      ensures Valid() && SameWork(old(known)) && node in known && node in cache.nodes
      ensures node.klass == Super && node.host == e.host && node.port == e.port && node.load == e.load
      ensures now >= 60 * e.age ==> node.lastSeen == now - 60 * e.age
      ensures cache.Listed() != [] && cache.Listed()[0] == node
      ensures (node in old(cache.nodes) || fresh(node)) && node.ref > 0
    {
      hide Valid, Cache.Listed, Without;
      node := Add(Super, e.host, e.port, e.load, Before(now, e.age));
    }

    method Meet(conn: Connection, peer: Node)
      requires Valid() && conn in sessions.Values && peer in known && peer.ref > 0
      modifies registry, registry.peerOf.Keys, conn`peers, peer`ref, peer`holders
      ensures Valid() && conn.peers.Keys == old(conn.peers.Keys) + {peer}
      ensures peer.holders[Temporary] == old(peer.holders[Temporary])
    {
      hide Valid;
      Befriend(conn, peer);
    }

    function Before(now: nat, age: nat): nat {
      if now < 60 * age then 0 else now - 60 * age
    }
  }
}
