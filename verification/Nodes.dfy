/** The nodes of fst_node.c with their reference counts, and the doubly linked
    lists that hold them. */
module Nodes {
  datatype Host = Host(name: string)

  datatype Klass = User | Super | Index

  /** Who holds a reference to a node: the cache, a session, the list of nodes that
      have it as a peer (once for each of them), or code that is working on it. */
  datatype Holder = Cached | InSession | AsPeer(of: Node) | Temporary

  class Node {
    var klass: Klass
    var host: Host
    var port: nat
    var load: nat
    var lastSeen: nat
    var link: Cell?
    var session: bool
    var ref: nat
    ghost var holders: multiset<Holder>

    /** The count is that of the holders h, and the back links agree with them. */
    ghost predicate Counts(h: multiset<Holder>)
      reads this
    {
      (link != null <==> Cached in h) && (session <==> InSession in h) && h[Cached] <= 1 && h[InSession] <= 1
    }

    ghost predicate Valid()
      reads this
    {
      ref == |holders| && Counts(holders)
    }

    /** fst_node_create and fst_node_init. */
    constructor (klass: Klass, host: Host, port: nat, load: nat, lastSeen: nat)
      ensures Valid() && ref == 1 && holders == multiset{Temporary} && link == null && !session
      ensures this.klass == klass && this.host == host && this.port == port
      ensures this.load == load && this.lastSeen == lastSeen
    {
      this.klass, this.host, this.port, this.load, this.lastSeen := klass, host, port, load, lastSeen;
      link, session, ref := null, false, 1;
      holders := multiset{Temporary};
    }

    /** fst_node_init on a node that exists. */
    method Update(klass: Klass, host: Host, port: nat, load: nat, lastSeen: nat)
      modifies this`klass, this`host, this`port, this`load, this`lastSeen
      ensures this.klass == klass && this.host == host && this.port == port
      ensures this.load == load && this.lastSeen == lastSeen
    {
      this.klass, this.host, this.port, this.load, this.lastSeen := klass, host, port, load, lastSeen;
    }

    /** fst_node_addref. */
    method AddRef(ghost h: Holder)
      requires ref == |holders| && ref > 0
      modifies this`ref, this`holders
      ensures holders == old(holders) + multiset{h} && ref == old(ref) + 1 == |holders|
    {
      ref := ref + 1;
      holders := holders + multiset{h};
    }

    /** fst_node_release. A node that nobody holds any more is in no list and in no
        session when it is freed. */
    method Release(ghost h: Holder) returns (left: nat)
      requires ref == |holders| && h in holders && Counts(holders - multiset{h})
      modifies this`ref, this`holders
      ensures Valid() && holders == old(holders) - multiset{h} && left == ref == old(ref) - 1
      ensures left == 0 ==> link == null && !session && holders == multiset{}
    {
      assert |old(holders)| == |old(holders) - multiset{h}| + 1;
      ref := ref - 1;
      holders := holders - multiset{h};
      if ref == 0 {
        assert holders == multiset{};
        assert link == null && !session;
        return 0;
      }
      left := ref;
    }
  }

  /** A cell of a doubly linked list. */
  class Cell {
    const data: Node
    var prev: Cell?
    var next: Cell?

    constructor (data: Node, prev: Cell?, next: Cell?)
      ensures this.data == data && this.prev == prev && this.next == next
    {
      this.data, this.prev, this.next := data, prev, next;
    }
  }

  function At(cells: seq<Cell>, i: int): Cell? {
    if 0 <= i < |cells| then cells[i] else null
  }

  ghost predicate Distinct(cells: seq<Cell>) {
    forall i, j :: 0 <= i < j < |cells| ==> cells[i] != cells[j]
  }

  /** The cells of the sequence, as a set. */
  ghost predicate Covers(cells: seq<Cell>, repr: set<Cell>) {
    (forall i :: 0 <= i < |cells| ==> cells[i] in repr) && (forall c :: c in repr ==> c in cells)
  }

  function IndexOf(s: seq<Cell>, x: Cell): (i: nat)
    requires x in s
    ensures i < |s| && s[i] == x
  {
    if s[0] == x then 0 else
      assert s == [s[0]] + s[1..];
      1 + IndexOf(s[1..], x)
  }

  /** Every cell points to its neighbours. */
  ghost predicate Links(cells: seq<Cell>)
    reads cells
  {
    forall i :: 0 <= i < |cells| ==> cells[i].prev == At(cells, i - 1) && cells[i].next == At(cells, i + 1)
  }

  /** The cells of the list, from its head on. */
  ghost predicate Chain(list: Cell?, cells: seq<Cell>, repr: set<Cell>)
    reads repr
  {
    Covers(cells, repr) && list == At(cells, 0) && Distinct(cells) && Links(cells)
  }

  function Inserted<T>(s: seq<T>, k: nat, x: T): (r: seq<T>)
    requires k <= |s|
    ensures |r| == |s| + 1
  {
    s[..k] + [x] + s[k..]
  }

  function Removed<T>(s: seq<T>, k: nat): (r: seq<T>)
    requires k < |s|
    ensures |r| == |s| - 1
  {
    s[..k] + s[k + 1..]
  }

  lemma AtInserted(cells: seq<Cell>, k: nat, cell: Cell, i: int)
    requires k <= |cells|
    ensures At(Inserted(cells, k, cell), i) == if i < k then At(cells, i) else if i == k then cell else At(cells, i - 1)
  {
  }

  lemma InsertedDistinct(cells: seq<Cell>, k: nat, cell: Cell)
    requires k <= |cells| && Distinct(cells) && cell !in cells
    ensures Distinct(Inserted(cells, k, cell))
  {
    forall i, j | 0 <= i < j <= |cells|
      ensures Inserted(cells, k, cell)[i] != Inserted(cells, k, cell)[j]
    {
      AtInserted(cells, k, cell, i);
      AtInserted(cells, k, cell, j);
    }
  }

  lemma InsertedCovers(cells: seq<Cell>, repr: set<Cell>, k: nat, cell: Cell)
    requires k <= |cells| && Covers(cells, repr)
    ensures Covers(Inserted(cells, k, cell), repr + {cell})
  {
    var r := Inserted(cells, k, cell);
    assert r[k] == cell;
    forall c | c in repr
      ensures c in r
    {
      var i :| 0 <= i < |cells| && cells[i] == c;
      assert r[if i < k then i else i + 1] == c;
    }
  }

  /** What a list is with a cell between two of its neighbours. */
  lemma Spliced(cells: seq<Cell>, k: nat, cell: Cell)
    requires k <= |cells| && cell.prev == At(cells, k - 1) && cell.next == At(cells, k)
    requires forall i :: 0 <= i < |cells| ==>
               cells[i].next == (if i + 1 == k then cell else At(cells, i + 1)) &&
               cells[i].prev == (if i == k then cell else At(cells, i - 1))
    ensures Links(Inserted(cells, k, cell))
  {
    var r := Inserted(cells, k, cell);
    hide Inserted;
    forall i | 0 <= i < |r|
      ensures r[i].prev == At(r, i - 1) && r[i].next == At(r, i + 1)
    {
      AtInserted(cells, k, cell, i - 1);
      AtInserted(cells, k, cell, i);
      AtInserted(cells, k, cell, i + 1);
      assert r[i] == if i < k then cells[i] else if i == k then cell else cells[i - 1];
    }
  }

  /** A new cell between two neighbours of the list. */
  method Insert(list: Cell?, before: Cell?, after: Cell?, node: Node,
                ghost cells: seq<Cell>, ghost repr: set<Cell>, ghost k: nat)
    returns (head: Cell?, cell: Cell)
    requires Chain(list, cells, repr) && k <= |cells|
    requires before == At(cells, k - 1) && after == At(cells, k)
    modifies repr
    ensures fresh(cell) && cell.data == node && head == At(Inserted(cells, k, cell), 0)
    ensures Chain(head, Inserted(cells, k, cell), repr + {cell})
  {
    cell := new Cell(node, before, after);
    head := list;
    if before != null {
      before.next := cell;
    } else {
      head := cell;
    }
    if after != null {
      after.prev := cell;
    }
    Spliced(cells, k, cell);
    InsertedDistinct(cells, k, cell);
    InsertedCovers(cells, repr, k, cell);
    AtInserted(cells, k, cell, 0);
  }

  lemma AtRemoved(cells: seq<Cell>, k: nat, i: int)
    requires k < |cells|
    ensures At(Removed(cells, k), i) == At(cells, if i < k then i else i + 1)
  {
  }

  lemma RemovedDistinct(cells: seq<Cell>, k: nat)
    requires k < |cells| && Distinct(cells)
    ensures Distinct(Removed(cells, k))
  {
    forall i, j | 0 <= i < j < |cells| - 1
      ensures Removed(cells, k)[i] != Removed(cells, k)[j]
    {
      AtRemoved(cells, k, i);
      AtRemoved(cells, k, j);
    }
  }

  lemma RemovedCovers(cells: seq<Cell>, repr: set<Cell>, k: nat)
    requires k < |cells| && Covers(cells, repr) && Distinct(cells)
    ensures Covers(Removed(cells, k), repr - {cells[k]})
  {
    var r := Removed(cells, k);
    forall i | 0 <= i < |r|
      ensures r[i] in repr - {cells[k]}
    {
      assert r[i] == cells[if i < k then i else i + 1];
    }
    forall c | c in repr && c != cells[k]
      ensures c in r
    {
      var i :| 0 <= i < |cells| && cells[i] == c;
      assert r[if i < k then i else i - 1] == c;
    }
  }

  ghost predicate JoinedAround(cells: seq<Cell>, k: nat, i: nat)
    requires i < |cells|
    reads cells[i]
  {
    cells[i].next == At(cells, if i + 1 == k then k + 1 else i + 1) &&
    cells[i].prev == At(cells, if i == k + 1 then k - 1 else i - 1)
  }

  lemma JoinedAt(cells: seq<Cell>, k: nat, i: nat)
    requires k < |cells| && i < |cells| - 1 && JoinedAround(cells, k, if i < k then i else i + 1)
    ensures var r := Removed(cells, k); r[i].prev == At(r, i - 1) && r[i].next == At(r, i + 1)
  {
    AtRemoved(cells, k, i - 1);
    AtRemoved(cells, k, i);
    AtRemoved(cells, k, i + 1);
  }

  /** What a list is without a cell whose neighbours have been joined. */
  lemma Joined(cells: seq<Cell>, k: nat)
    requires k < |cells| && forall i :: 0 <= i < |cells| && i != k ==> JoinedAround(cells, k, i)
    ensures Links(Removed(cells, k))
  {
    hide Removed, JoinedAround, At;
    forall i | 0 <= i < |Removed(cells, k)|
      ensures var r := Removed(cells, k); r[i].prev == At(r, i - 1) && r[i].next == At(r, i + 1)
    {
      JoinedAt(cells, k, i);
    }
  }

  /** list_remove_link. */
  method RemoveLink(list: Cell?, link: Cell, ghost cells: seq<Cell>, ghost repr: set<Cell>, ghost k: nat)
    returns (head: Cell?)
    requires Chain(list, cells, repr) && k < |cells| && link == cells[k]
    modifies repr
    ensures Chain(head, Removed(cells, k), repr - {link})
  {
    head := Unhook(list, link, cells, repr, k);
    hide At, Removed, Distinct, Covers, JoinedAround, Links;
    Joined(cells, k);
    RemovedDistinct(cells, k);
    RemovedCovers(cells, repr, k);
    AtRemoved(cells, k, 0);
  }

  /** Joins the neighbours of a cell. */
  method Unhook(list: Cell?, link: Cell, ghost cells: seq<Cell>, ghost repr: set<Cell>, ghost k: nat)
    returns (head: Cell?)
    requires Chain(list, cells, repr) && k < |cells| && link == cells[k]
    modifies repr
    ensures head == At(cells, if k == 0 then 1 else 0)
    ensures forall i :: 0 <= i < |cells| && i != k ==> JoinedAround(cells, k, i)
  {
    hide Covers;
    CoveredAt(cells, repr, k - 1);
    CoveredAt(cells, repr, k + 1);
    head := list;
    if link.prev != null {
      link.prev.next := link.next;
    } else {
      head := link.next;
    }
    assert forall i :: 0 <= i < |cells| && i != k ==> cells[i].next == At(cells, if i + 1 == k then k + 1 else i + 1);
    if link.next != null {
      link.next.prev := link.prev;
    }
  }

  lemma CoveredAt(cells: seq<Cell>, repr: set<Cell>, i: int)
    requires Covers(cells, repr)
    ensures At(cells, i) != null ==> At(cells, i) in repr
  {
  }

  /** The neighbours of a cell. */
  lemma ChainAt(list: Cell?, cells: seq<Cell>, repr: set<Cell>, k: nat)
    requires Chain(list, cells, repr) && k < |cells|
    ensures cells[k].prev == At(cells, k - 1) && cells[k].next == At(cells, k + 1)
    ensures Distinct(cells) && cells[k] in repr
  {
  }
}
