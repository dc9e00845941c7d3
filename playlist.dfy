/** The custom playlist: a doubly linked list of track nodes with a
    "now playing" cursor (class ListaDobleEnlazada and its node class Nodo). */
module Playlist {

  datatype Option<+T> = None | Some(value: T)

  /** The track record a node copies in: title, artist, duration and an
      album that may be absent. */
  datatype Track = Track(title: string, artist: string, duration: string, album: Option<string>)

  /** The flat record a node is rendered to. */
  datatype Snapshot = Snapshot(id: string, title: string, artist: string, duration: string, album: string)

  /** One element of the full listing: a snapshot tagged with whether it is under the cursor. */
  datatype Entry = Entry(snapshot: Snapshot, isCurrent: bool)

  class Node {
    const id: string
    const track: Track
    var next: Node?
    var prev: Node?

    constructor (id: string, track: Track)
      ensures this.id == id && this.track == track
      ensures next == null && prev == null
    {
      this.id := id;
      this.track := track;
      next := null;
      prev := null;
    }

    /** The node's descriptive fields, with the album defaulting to the empty string. */
    function ToDict(): Snapshot
    {
      Snapshot(id, track.title, track.artist, track.duration,
               match track.album case Some(a) => a case None => "")
    }
  }

  // ---------------------------------------------------------------------------
  // The chain as a sequence of nodes

  /** `y` follows `x` in both directions. */
  ghost predicate Linked(x: Node, y: Node)
    reads x, y
  {
    x.next == y && y.prev == x
  }

  /** Consecutive nodes of `ns` are linked forwards and backwards. */
  ghost predicate Chain(ns: seq<Node>)
    reads ns
  {
    forall i, j {:trigger Linked(ns[i], ns[j])} :: 0 <= i && j == i + 1 && j < |ns| ==> Linked(ns[i], ns[j])
  }

  lemma ChainSlice(ns: seq<Node>, lo: int, hi: int)
    requires Chain(ns) && 0 <= lo <= hi <= |ns|
    ensures Chain(ns[lo..hi])
  {
    var s := ns[lo..hi];
    forall i, j | 0 <= i && j == i + 1 && j < |s|
      ensures Linked(s[i], s[j])
    {
      assert s[i] == ns[lo + i] && s[j] == ns[lo + j];
      assert Linked(ns[lo + i], ns[lo + j]);
    }
  }

  ghost function IdAt(ns: seq<Node>, i: int): string
    requires 0 <= i < |ns|
  {
    ns[i].id
  }

  /** No two nodes of the chain share an id (hence no node occurs twice). */
  ghost predicate DistinctIds(ns: seq<Node>)
  {
    forall i, j {:trigger IdAt(ns, i), IdAt(ns, j)} :: 0 <= i < j < |ns| ==> IdAt(ns, i) != IdAt(ns, j)
  }

  ghost predicate IdsIn(ns: seq<Node>, ids: set<string>)
  {
    forall i :: 0 <= i < |ns| ==> ns[i].id in ids
  }

  lemma DistinctAt(ns: seq<Node>, i: int, j: int)
    requires DistinctIds(ns)
    requires 0 <= i < |ns| && 0 <= j < |ns| && i != j
    ensures ns[i] != ns[j]
  {
    if i < j {
      assert IdAt(ns, i) != IdAt(ns, j);
    } else {
      assert IdAt(ns, j) != IdAt(ns, i);
    }
  }

  lemma NotInSlice(ns: seq<Node>, p: int, lo: int, hi: int)
    requires DistinctIds(ns)
    requires 0 <= p < |ns| && 0 <= lo <= hi <= |ns| && !(lo <= p < hi)
    ensures ns[p] !in ns[lo..hi]
  {
    forall i | lo <= i < hi
      ensures ns[i] != ns[p]
    {
      DistinctAt(ns, i, p);
    }
  }

  /** `after` is `before` with one node, carrying `id` and `track`, spliced in at index `k`. */
  ghost predicate InsertedAt(before: seq<Node>, after: seq<Node>, k: int, id: string, track: Track)
  {
    0 <= k <= |before| && |after| == |before| + 1 &&
    after == before[..k] + [after[k]] + before[k..] &&
    after[k].id == id && after[k].track == track
  }

  /** The links a splice at index k leaves in place, and the nodes it leaves alone,
      avoid the two nodes whose links it rewrites. */
  lemma InsertFrame(ns: seq<Node>, k: int)
    requires Chain(ns) && DistinctIds(ns) && 0 <= k <= |ns|
    ensures k > 1 ==> (Chain(ns[..k - 1]) && Linked(ns[k - 2], ns[k - 1]) &&
      ns[k - 2] != ns[k - 1] && ns[k - 1] !in ns[..k - 1])
    ensures 1 < k < |ns| ==> ns[k] !in ns[..k - 1]
    ensures 0 < k < |ns| ==> (Linked(ns[k - 1], ns[k]) &&
      ns[k - 1] != ns[k] && ns[0] != ns[k] && ns[|ns| - 1] != ns[k - 1])
    ensures k + 1 < |ns| ==> (Chain(ns[k + 1..]) && Linked(ns[k], ns[k + 1]) &&
      ns[k + 1] != ns[k] && ns[k] !in ns[k + 1..])
    ensures 0 < k && k + 1 < |ns| ==> ns[k - 1] !in ns[k + 1..]
    ensures 1 < k < |ns| ==> ns[0] != ns[k - 1]
    ensures 0 < k && k + 1 < |ns| ==> ns[|ns| - 1] != ns[k]
  {
    if k > 1 {
      ChainSlice(ns, 0, k - 1);
      assert Linked(ns[k - 2], ns[k - 1]);
      DistinctAt(ns, k - 2, k - 1);
      NotInSlice(ns, k - 1, 0, k - 1);
      if k < |ns| {
        NotInSlice(ns, k, 0, k - 1);
      }
    }
    if 0 < k < |ns| {
      assert Linked(ns[k - 1], ns[k]);
      DistinctAt(ns, k - 1, k);
      DistinctAt(ns, 0, k);
      DistinctAt(ns, |ns| - 1, k - 1);
    }
    if k + 1 < |ns| {
      ChainSlice(ns, k + 1, |ns|);
      assert Linked(ns[k], ns[k + 1]);
      DistinctAt(ns, k + 1, k);
      NotInSlice(ns, k, k + 1, |ns|);
      if k > 0 {
        NotInSlice(ns, k - 1, k + 1, |ns|);
        DistinctAt(ns, |ns| - 1, k);
      }
    }
    if 1 < k < |ns| {
      DistinctAt(ns, 0, k - 1);
    }
  }

  /** Splicing x in at index k keeps the chain, given the links around the splice point. */
  lemma ChainInsert(ns: seq<Node>, k: int, x: Node)
    requires 0 <= k <= |ns|
    requires k > 1 ==> Chain(ns[..k - 1]) && Linked(ns[k - 2], ns[k - 1])
    requires k > 0 ==> Linked(ns[k - 1], x)
    requires k < |ns| ==> Linked(x, ns[k])
    requires k + 1 < |ns| ==> Linked(ns[k], ns[k + 1]) && Chain(ns[k + 1..])
    ensures Chain(ns[..k] + [x] + ns[k..])
  {
    var s := ns[..k] + [x] + ns[k..];
    forall i, j | 0 <= i && j == i + 1 && j < |s|
      ensures Linked(s[i], s[j])
    {
      if j < k - 1 {
        var l := ns[..k - 1];
        assert s[i] == l[i] && s[j] == l[j];
        assert Linked(l[i], l[j]);
      } else if j == k - 1 {
        assert s[i] == ns[k - 2] && s[j] == ns[k - 1];
      } else if j == k {
        assert s[i] == ns[k - 1] && s[j] == x;
      } else if j == k + 1 {
        assert s[i] == x && s[j] == ns[k];
      } else if j == k + 2 {
        assert s[i] == ns[k] && s[j] == ns[k + 1];
      } else {
        var r := ns[k + 1..];
        assert s[i] == r[i - k - 2] && s[j] == r[j - k - 2];
        assert Linked(r[i - k - 2], r[j - k - 2]);
      }
    }
  }

  lemma InsertIndex(ns: seq<Node>, k: int, x: Node, c: int)
    requires 0 <= k <= |ns| && 0 <= c < |ns|
    ensures var s := ns[..k] + [x] + ns[k..];
      |s| == |ns| + 1 && s[k] == x &&
      s[0] == (if k == 0 then x else ns[0]) &&
      s[|s| - 1] == (if k == |ns| then x else ns[|ns| - 1]) &&
      s[if c >= k then c + 1 else c] == ns[c]
  {
  }

  /** Splicing a node with a fresh id into a chain keeps the ids distinct and issued. */
  lemma FreshInsert(ns: seq<Node>, k: int, x: Node, issued: set<string>)
    requires 0 <= k <= |ns|
    requires DistinctIds(ns) && IdsIn(ns, issued) && x.id !in issued
    ensures DistinctIds(ns[..k] + [x] + ns[k..])
    ensures IdsIn(ns[..k] + [x] + ns[k..], issued + {x.id})
  {
    var s := ns[..k] + [x] + ns[k..];
    forall i, j | 0 <= i < j < |s|
      ensures IdAt(s, i) != IdAt(s, j)
    {
      var i', j' := if i < k then i else i - 1, if j < k then j else j - 1;
      if i != k && j != k {
        assert s[i] == ns[i'] && s[j] == ns[j'];
        assert IdAt(ns, i') != IdAt(ns, j');
      } else if i == k {
        assert s[j] == ns[j'];
      } else {
        assert s[i] == ns[i'];
      }
    }
  }

  /** The links an unlink at index k leaves in place, and the nodes it leaves alone,
      avoid the two neighbours whose links it rewrites. */
  lemma RemoveFrame(ns: seq<Node>, k: int)
    requires Chain(ns) && DistinctIds(ns) && 0 <= k < |ns|
    ensures k > 1 ==> (Chain(ns[..k - 1]) && Linked(ns[k - 2], ns[k - 1]) &&
      ns[k - 2] != ns[k - 1] && ns[k - 1] !in ns[..k - 1])
    ensures k > 1 && k + 1 < |ns| ==> ns[k + 1] !in ns[..k - 1]
    ensures k > 0 ==> Linked(ns[k - 1], ns[k]) && ns[k] != ns[0]
    ensures k + 1 < |ns| ==> Linked(ns[k], ns[k + 1]) && ns[k] != ns[|ns| - 1]
    ensures 0 < k && k + 1 < |ns| ==>
      (ns[k - 1] != ns[k + 1] && ns[0] != ns[k + 1] && ns[|ns| - 1] != ns[k - 1])
    ensures k + 2 < |ns| ==> (Chain(ns[k + 2..]) && Linked(ns[k + 1], ns[k + 2]) &&
      ns[k + 2] != ns[k + 1] && ns[k + 1] !in ns[k + 2..])
    ensures 0 < k && k + 2 < |ns| ==> ns[k - 1] !in ns[k + 2..]
    ensures 1 < k && k + 1 < |ns| ==> ns[0] != ns[k - 1]
    ensures 0 < k && k + 2 < |ns| ==> ns[|ns| - 1] != ns[k + 1]
  {
    if k > 1 {
      ChainSlice(ns, 0, k - 1);
      assert Linked(ns[k - 2], ns[k - 1]);
      DistinctAt(ns, k - 2, k - 1);
      NotInSlice(ns, k - 1, 0, k - 1);
      if k + 1 < |ns| {
        NotInSlice(ns, k + 1, 0, k - 1);
      }
    }
    if k > 0 {
      assert Linked(ns[k - 1], ns[k]);
      DistinctAt(ns, k, 0);
    }
    if k + 1 < |ns| {
      assert Linked(ns[k], ns[k + 1]);
      DistinctAt(ns, k, |ns| - 1);
    }
    if 0 < k && k + 1 < |ns| {
      DistinctAt(ns, k - 1, k + 1);
      DistinctAt(ns, 0, k + 1);
      DistinctAt(ns, |ns| - 1, k - 1);
    }
    if k + 2 < |ns| {
      ChainSlice(ns, k + 2, |ns|);
      assert Linked(ns[k + 1], ns[k + 2]);
      DistinctAt(ns, k + 2, k + 1);
      NotInSlice(ns, k + 1, k + 2, |ns|);
      if k > 0 {
        NotInSlice(ns, k - 1, k + 2, |ns|);
        DistinctAt(ns, |ns| - 1, k + 1);
      }
    }
    if 1 < k && k + 1 < |ns| {
      DistinctAt(ns, 0, k - 1);
    }
  }

  /** Unlinking the node at index k keeps the chain, given the links around the gap. */
  lemma ChainRemove(ns: seq<Node>, k: int)
    requires 0 <= k < |ns|
    requires k > 1 ==> Chain(ns[..k - 1]) && Linked(ns[k - 2], ns[k - 1])
    requires 0 < k && k + 1 < |ns| ==> Linked(ns[k - 1], ns[k + 1])
    requires k + 2 < |ns| ==> Linked(ns[k + 1], ns[k + 2]) && Chain(ns[k + 2..])
    ensures Chain(ns[..k] + ns[k + 1..])
  {
    var s := ns[..k] + ns[k + 1..];
    forall i, j | 0 <= i && j == i + 1 && j < |s|
      ensures Linked(s[i], s[j])
    {
      if j < k - 1 {
        var l := ns[..k - 1];
        assert s[i] == l[i] && s[j] == l[j];
        assert Linked(l[i], l[j]);
      } else if j == k - 1 {
        assert s[i] == ns[k - 2] && s[j] == ns[k - 1];
      } else if j == k {
        assert s[i] == ns[k - 1] && s[j] == ns[k + 1];
      } else if j == k + 1 {
        assert s[i] == ns[k + 1] && s[j] == ns[k + 2];
      } else {
        var r := ns[k + 2..];
        assert s[i] == r[i - k - 1] && s[j] == r[j - k - 1];
        assert Linked(r[i - k - 1], r[j - k - 1]);
      }
    }
  }

  lemma RemoveIndex(ns: seq<Node>, k: int, c: int)
    requires 0 <= k < |ns| && 0 <= c < |ns|
    ensures var s := ns[..k] + ns[k + 1..];
      |s| == |ns| - 1 &&
      (|ns| > 1 ==> s[0] == (if k == 0 then ns[1] else ns[0])) &&
      (|ns| > 1 ==> s[|s| - 1] == (if k == |ns| - 1 then ns[|ns| - 2] else ns[|ns| - 1])) &&
      (c < k ==> s[c] == ns[c]) &&
      (c > k ==> s[c - 1] == ns[c]) &&
      (k + 1 < |ns| ==> s[k] == ns[k + 1]) &&
      (0 < k ==> s[k - 1] == ns[k - 1])
  {
  }

  /** Cutting one node out of a chain keeps the ids distinct and issued. */
  lemma Unsplice(ns: seq<Node>, k: int, issued: set<string>)
    requires 0 <= k < |ns|
    requires DistinctIds(ns) && IdsIn(ns, issued)
    ensures DistinctIds(ns[..k] + ns[k + 1..]) && IdsIn(ns[..k] + ns[k + 1..], issued)
  {
    var s := ns[..k] + ns[k + 1..];
    forall i, j | 0 <= i < j < |s|
      ensures IdAt(s, i) != IdAt(s, j)
    {
      var i', j' := if i < k then i else i + 1, if j < k then j else j + 1;
      assert s[i] == ns[i'] && s[j] == ns[j'];
      assert IdAt(ns, i') != IdAt(ns, j');
    }
  }

  /** Index of the first node with the given id, scanning from the head; -1 if there is none.
      This is the list's search by node id, over the chain of nodes; the favourites module
      has its own first-occurrence search over plain id values, since the two modules share
      no code. */
  function Find(ns: seq<Node>, id: string): (k: int)
    ensures -1 <= k < |ns|
    ensures k == -1 <==> forall i :: 0 <= i < |ns| ==> ns[i].id != id
    ensures 0 <= k ==> ns[k].id == id && forall i :: 0 <= i < k ==> ns[i].id != id
  {
    if ns == [] then -1
    else if ns[0].id == id then 0
    else
      var k := Find(ns[1..], id);
      if k == -1 then -1 else k + 1
  }

  /** In a chain with distinct ids, looking up the id of the node at index i finds index i. */
  lemma FindOwnId(ns: seq<Node>, i: int)
    requires DistinctIds(ns) && 0 <= i < |ns|
    ensures Find(ns, ns[i].id) == i
  {
    forall j | 0 <= j < i
      ensures ns[j].id != ns[i].id
    {
      assert IdAt(ns, j) != IdAt(ns, i);
    }
  }

  /** Removing, by its id, a node just spliced in at index k gives back the chain as it was. */
  lemma RemoveUndoesInsert(ns: seq<Node>, k: int, x: Node, issued: set<string>)
    requires 0 <= k <= |ns|
    requires DistinctIds(ns) && IdsIn(ns, issued) && x.id !in issued
    ensures var after := ns[..k] + [x] + ns[k..];
      Find(after, x.id) == k && after[..k] + after[k + 1..] == ns
  {
    var after := ns[..k] + [x] + ns[k..];
    FreshInsert(ns, k, x, issued);
    assert after[k] == x;
    FindOwnId(after, k);
    assert after[..k] == ns[..k];
    assert after[k + 1..] == ns[k..];
    assert ns[..k] + ns[k..] == ns;
  }

  /** Where a positional insert lands: positions at or below 0 go to the head,
      positions at or beyond the size go to the tail. */
  function ClampPosition(position: int, size: nat): nat
  {
    if position <= 0 then 0 else if position >= size then size else position
  }

  /** Number of entries tagged as current. */
  function CountCurrent(es: seq<Entry>): nat
  {
    if es == [] then 0 else (if es[0].isCurrent then 1 else 0) + CountCurrent(es[1..])
  }

  /** A listing in which exactly the entry at index c is tagged holds one current entry. */
  lemma {:induction false} CountCurrentSingle(es: seq<Entry>, c: int)
    requires 0 <= c < |es|
    requires forall i :: 0 <= i < |es| ==> (es[i].isCurrent <==> i == c)
    ensures CountCurrent(es) == 1
  {
    if c == 0 {
      CountCurrentNone(es[1..]);
    } else {
      CountCurrentSingle(es[1..], c - 1);
    }
  }

  /** A listing with no tagged entry holds no current entry. */
  lemma {:induction false} CountCurrentNone(es: seq<Entry>)
    requires forall i :: 0 <= i < |es| ==> !es[i].isCurrent
    ensures CountCurrent(es) == 0
  {
    if es != [] {
      CountCurrentNone(es[1..]);
    }
  }

  // ---------------------------------------------------------------------------
  // The list

  class DoublyLinkedList {
    var head: Node?
    var tail: Node?
    var current: Node?
    var size: nat

    /** The chain from head to tail. */
    ghost var Nodes: seq<Node>
    /** The index of the cursor in Nodes (0 when the list is empty). */
    ghost var Cur: nat
    /** Every id this list has ever handed out, including those of removed nodes. */
    ghost var Issued: set<string>

    ghost predicate Valid()
      reads this, Nodes
    {
      size == |Nodes| &&
      (Nodes == [] ==> head == null && tail == null && current == null && Cur == 0) &&
      (Nodes != [] ==>
        head == Nodes[0] && tail == Nodes[|Nodes| - 1] &&
        Nodes[0].prev == null && Nodes[|Nodes| - 1].next == null &&
        Cur < |Nodes| && current == Nodes[Cur]) &&
      Chain(Nodes) && DistinctIds(Nodes) && IdsIn(Nodes, Issued)
    }

    constructor ()
      ensures Valid()
      ensures Nodes == [] && Issued == {}
    {
      head, tail, current, size := null, null, null, 0;
      Nodes, Cur, Issued := [], 0, {};
    }

    predicate IsEmpty()
      reads this, Nodes
      requires Valid()
      ensures IsEmpty() <==> Nodes == []
      ensures IsEmpty() <==> size == 0
    {
      head == null
    }

    method InsertAtHead(track: Track, newId: string) returns (id: string)
      requires Valid()
      requires newId !in Issued
      modifies this, Nodes
      ensures Valid()
      ensures id == newId
      ensures InsertedAt(old(Nodes), Nodes, 0, newId, track) && fresh(Nodes[0])
      ensures size == old(size) + 1
      ensures current == if old(Nodes) == [] then Nodes[0] else old(current)
      ensures Issued == old(Issued) + {newId}
    {
      ghost var before := Nodes;
      var node := new Node(newId, track);
      if IsEmpty() {
        head, tail, current := node, node, node;
        ChainInsert(before, 0, node);
      } else {
        LinkFirst(node, head, before);
        head := node;
        Cur := Cur + 1;
      }
      FreshInsert(before, 0, node, Issued);
      Nodes, size, Issued := before[..0] + [node] + before[0..], size + 1, Issued + {newId};
      id := node.id;
    }

    method InsertAtTail(track: Track, newId: string) returns (id: string)
      requires Valid()
      requires newId !in Issued
      modifies this, Nodes
      ensures Valid()
      ensures id == newId
      ensures InsertedAt(old(Nodes), Nodes, |old(Nodes)|, newId, track) && fresh(Nodes[|old(Nodes)|])
      ensures size == old(size) + 1
      ensures current == if old(Nodes) == [] then Nodes[0] else old(current)
      ensures Issued == old(Issued) + {newId}
    {
      ghost var before := Nodes;
      ghost var n := |before|;
      var node := new Node(newId, track);
      if IsEmpty() {
        head, tail, current := node, node, node;
        ChainInsert(before, n, node);
      } else {
        LinkLast(node, tail, before);
        tail := node;
      }
      FreshInsert(before, n, node, Issued);
      Nodes, size, Issued := before[..n] + [node] + before[n..], size + 1, Issued + {newId};
      id := node.id;
    }

    /** Inserts before the node found `position` steps from the head, clamping
        the position to the ends: at or below 0 this is InsertAtHead, at or
        beyond the size it is InsertAtTail. */
    method InsertAt(track: Track, position: int, newId: string) returns (id: string)
      requires Valid()
      requires newId !in Issued
      modifies this, Nodes
      ensures Valid()
      ensures id == newId
      ensures var k := ClampPosition(position, old(size));
        InsertedAt(old(Nodes), Nodes, k, newId, track) && fresh(Nodes[k])
      ensures size == old(size) + 1
      ensures current == if old(Nodes) == [] then Nodes[0] else old(current)
      ensures Issued == old(Issued) + {newId}
    {
      if position <= 0 {
        id := InsertAtHead(track, newId);
        return;
      }
      if position >= size {
        id := InsertAtTail(track, newId);
        return;
      }
      var node := new Node(newId, track);
      var at := head;
      for i := 0 to position
        invariant at == Nodes[i]
      {
        assert Linked(Nodes[i], Nodes[i + 1]);
        at := at.next;
      }
      LinkBefore(node, at, position);
      id := node.id;
    }

    /** Links the unlinked `node` in immediately before `at`, which sits at index k
        strictly inside the chain. */
    method LinkBefore(node: Node, at: Node, ghost k: nat)
      requires Valid()
      requires 0 < k < |Nodes| && at == Nodes[k]
      requires node.id !in Issued && node.next == null && node.prev == null
      modifies this, Nodes, node
      ensures Valid()
      ensures Nodes == old(Nodes)[..k] + [node] + old(Nodes)[k..]
      ensures size == old(size) + 1
      ensures current == old(current)
      ensures Issued == old(Issued) + {node.id}
    {
      ghost var before := Nodes;
      ghost var issued := Issued;
      assert Linked(before[k - 1], before[k]);
      forall i | 0 <= i < |before|
        ensures before[i] != node
      {
        assert before[i].id in Issued;
      }
      Relink(node, at.prev, at, before, k);
      FreshInsert(before, k, node, issued);
      InsertIndex(before, k, node, Cur);
      Nodes, Cur, size, Issued := before[..k] + [node] + before[k..], if Cur >= k then Cur + 1 else Cur,
        size + 1, Issued + {node.id};
    }

    /** Links `node` in between `p` and `at`, the nodes at indices k - 1 and k of the chain
        `ns`; the ends of the chain keep their outer links. */
    static method Relink(node: Node, p: Node, at: Node, ghost ns: seq<Node>, ghost k: nat)
      requires Chain(ns) && DistinctIds(ns) && 0 < k < |ns|
      requires p == ns[k - 1] && at == ns[k] && node !in ns
      requires ns[0].prev == null && ns[|ns| - 1].next == null
      modifies node, p, at
      ensures Chain(ns[..k] + [node] + ns[k..])
      ensures ns[0].prev == null && ns[|ns| - 1].next == null
    {
      InsertFrame(ns, k);
      node.prev := p;
      node.next := at;
      p.next := node;
      at.prev := node;
      ChainInsert(ns, k, node);
    }

    /** Unlinks the node with the given id, if any. When that node was under the
        cursor the cursor moves to its successor, or to its predecessor when it was
        the tail, or is cleared when it was the only node. */
    method RemoveById(id: string) returns (found: bool)
      requires Valid()
      modifies this, Nodes
      ensures Valid()
      ensures Issued == old(Issued)
      ensures found <==> Find(old(Nodes), id) != -1
      ensures !found ==> Nodes == old(Nodes) && current == old(current)
      ensures found ==> size == old(size) - 1
      ensures found ==>
        var k := Find(old(Nodes), id);
        Nodes == old(Nodes)[..k] + old(Nodes)[k + 1..] &&
        (old(current) != old(Nodes)[k] ==> current == old(current)) &&
        (old(current) == old(Nodes)[k] && k + 1 < old(size) ==> current == old(Nodes)[k + 1]) &&
        (old(current) == old(Nodes)[k] && k + 1 == old(size) && k > 0 ==> current == old(Nodes)[k - 1]) &&
        (old(size) == 1 ==> head == null && tail == null && current == null)
    {
      if IsEmpty() {
        return false;
      }
      var at := head;
      ghost var k := 0;
      while at != null && at.id != id
        invariant 0 <= k <= |Nodes|
        invariant at == if k < |Nodes| then Nodes[k] else null
        invariant forall j :: 0 <= j < k ==> Nodes[j].id != id
        decreases |Nodes| - k
      {
        if k + 1 < |Nodes| {
          assert Linked(Nodes[k], Nodes[k + 1]);
        }
        at := at.next;
        k := k + 1;
      }
      if at == null {
        return false;
      }
      ghost var before := Nodes;
      assert Find(before, id) == k;
      if 0 < k {
        DistinctAt(before, 0, k);
      }
      if k < |before| - 1 {
        DistinctAt(before, |before| - 1, k);
      }
      if size == 1 {
        head, tail, current := null, null, null;
        Nodes, Cur, size := [], 0, 0;
      } else if at == head {
        UnlinkHead(at);
      } else if at == tail {
        UnlinkTail(at);
      } else {
        UnlinkInner(at, k);
      }
      found := true;
    }

    /** Drops the head `at` of a list of two or more; a cursor on it moves to the new head. */
    method UnlinkHead(at: Node)
      requires Valid() && |Nodes| > 1 && at == Nodes[0]
      modifies this, Nodes
      ensures Valid()
      ensures Issued == old(Issued) && size == old(size) - 1
      ensures Nodes == old(Nodes)[..0] + old(Nodes)[1..]
      ensures current == if old(current) == at then old(Nodes)[1] else old(current)
    {
      ghost var before := Nodes;
      assert Linked(before[0], before[1]);
      DistinctAt(before, 0, 1);
      Unsplice(before, 0, Issued);
      RemoveIndex(before, 0, Cur);
      if Cur != 0 {
        DistinctAt(before, Cur, 0);
      }
      head := at.next;
      DetachFirst(head, before);
      if current == at {
        current := head;
      }
      Nodes, size := before[..0] + before[1..], size - 1;
      Cur := if Cur == 0 then 0 else Cur - 1;
    }

    /** Drops the tail `at` of a list of two or more; a cursor on it moves to the new tail. */
    method UnlinkTail(at: Node)
      requires Valid() && |Nodes| > 1 && at == Nodes[|Nodes| - 1]
      modifies this, Nodes
      ensures Valid()
      ensures Issued == old(Issued) && size == old(size) - 1
      ensures Nodes == old(Nodes)[..|old(Nodes)| - 1] + old(Nodes)[|old(Nodes)|..]
      ensures current == if old(current) == at then old(Nodes)[|old(Nodes)| - 2] else old(current)
    {
      ghost var before := Nodes;
      ghost var k := |before| - 1;
      assert Linked(before[k - 1], before[k]);
      DistinctAt(before, k - 1, k);
      Unsplice(before, k, Issued);
      RemoveIndex(before, k, Cur);
      if Cur != k {
        DistinctAt(before, Cur, k);
      }
      tail := at.prev;
      DetachLast(tail, before);
      if current == at {
        current := tail;
      }
      Nodes, size := before[..k] + before[k + 1..], size - 1;
      Cur := if Cur == k then Cur - 1 else Cur;
    }

    /** Drops `at`, at index k strictly inside the chain; a cursor on it moves to its successor. */
    method UnlinkInner(at: Node, ghost k: nat)
      requires Valid() && 0 < k < |Nodes| - 1 && at == Nodes[k]
      modifies this, Nodes
      ensures Valid()
      ensures Issued == old(Issued) && size == old(size) - 1
      ensures Nodes == old(Nodes)[..k] + old(Nodes)[k + 1..]
      ensures current == if old(current) == at then old(Nodes)[k + 1] else old(current)
    {
      ghost var before := Nodes;
      assert Linked(before[k - 1], before[k]) && Linked(before[k], before[k + 1]);
      DistinctAt(before, k, k - 1);
      DistinctAt(before, k, k + 1);
      Unsplice(before, k, Issued);
      RemoveIndex(before, k, Cur);
      if Cur != k {
        DistinctAt(before, Cur, k);
      }
      Bypass(at.prev, at.next, before, k);
      if current == at {
        current := at.next;
      }
      Nodes, size := before[..k] + before[k + 1..], size - 1;
      Cur := if Cur > k then Cur - 1 else Cur;
    }

    /** Links the neighbours `p` and `q` of the node at index k of the chain `ns` to each
        other, so that the chain skips that node; the ends of the chain keep their outer links. */
    static method Bypass(p: Node, q: Node, ghost ns: seq<Node>, ghost k: nat)
      requires Chain(ns) && DistinctIds(ns) && 0 < k < |ns| - 1
      requires p == ns[k - 1] && q == ns[k + 1]
      requires ns[0].prev == null && ns[|ns| - 1].next == null
      modifies p, q
      ensures Chain(ns[..k] + ns[k + 1..])
      ensures ns[0].prev == null && ns[|ns| - 1].next == null
    {
      RemoveFrame(ns, k);
      p.next := q;
      q.prev := p;
      ChainRemove(ns, k);
    }

    /** Links `node` in front of `first`, the head of the non-empty chain `ns`. */
    static method LinkFirst(node: Node, first: Node, ghost ns: seq<Node>)
      requires Chain(ns) && DistinctIds(ns) && ns != [] && first == ns[0] && node !in ns
      requires node.prev == null && ns[|ns| - 1].next == null
      modifies node, first
      ensures Chain(ns[..0] + [node] + ns[0..])
      ensures node.prev == null && ns[|ns| - 1].next == null
    {
      InsertFrame(ns, 0);
      node.next := first;
      first.prev := node;
      ChainInsert(ns, 0, node);
    }

    /** Links `node` behind `last`, the tail of the non-empty chain `ns`. */
    static method LinkLast(node: Node, last: Node, ghost ns: seq<Node>)
      requires Chain(ns) && DistinctIds(ns) && ns != [] && last == ns[|ns| - 1] && node !in ns
      requires node.next == null && ns[0].prev == null
      modifies node, last
      ensures Chain(ns[..|ns|] + [node] + ns[|ns|..])
      ensures node.next == null && ns[0].prev == null
    {
      InsertFrame(ns, |ns|);
      node.prev := last;
      last.next := node;
      ChainInsert(ns, |ns|, node);
    }

    /** Clears the back link of `second`, the node after the head of the chain `ns`,
        so that the chain starts at it. */
    static method DetachFirst(second: Node, ghost ns: seq<Node>)
      requires Chain(ns) && DistinctIds(ns) && |ns| > 1 && second == ns[1]
      requires ns[|ns| - 1].next == null
      modifies second
      ensures Chain(ns[..0] + ns[1..])
      ensures second.prev == null && ns[|ns| - 1].next == null
    {
      RemoveFrame(ns, 0);
      second.prev := null;
      ChainRemove(ns, 0);
    }

    /** Clears the forward link of `penultimate`, the node before the tail of the chain
        `ns`, so that the chain ends at it. */
    static method DetachLast(penultimate: Node, ghost ns: seq<Node>)
      requires Chain(ns) && DistinctIds(ns) && |ns| > 1 && penultimate == ns[|ns| - 2]
      requires ns[0].prev == null
      modifies penultimate
      ensures Chain(ns[..|ns| - 1] + ns[|ns|..])
      ensures penultimate.next == null && ns[0].prev == null
    {
      RemoveFrame(ns, |ns| - 1);
      penultimate.next := null;
      ChainRemove(ns, |ns| - 1);
    }

    /** Moves the cursor one step towards the tail, without wrapping around. */
    method Advance() returns (r: Option<Snapshot>)
      requires Valid()
      modifies this
      ensures Valid()
      ensures Nodes == old(Nodes) && Issued == old(Issued)
      ensures r.Some? <==> old(Cur) + 1 < |Nodes|
      ensures r.Some? ==> Cur == old(Cur) + 1 && current == Nodes[Cur] && r.value == Nodes[Cur].ToDict()
      ensures r.None? ==> Cur == old(Cur) && current == old(current)
    {
      if Cur + 1 < |Nodes| {
        assert Linked(Nodes[Cur], Nodes[Cur + 1]);
      }
      if current != null && current.next != null {
        current := current.next;
        Cur := Cur + 1;
        return Some(current.ToDict());
      }
      return None;
    }

    /** Moves the cursor one step towards the head, without wrapping around. */
    method Retreat() returns (r: Option<Snapshot>)
      requires Valid()
      modifies this
      ensures Valid()
      ensures Nodes == old(Nodes) && Issued == old(Issued)
      ensures r.Some? <==> Nodes != [] && old(Cur) > 0
      ensures r.Some? ==> Cur == old(Cur) - 1 && current == Nodes[Cur] && r.value == Nodes[Cur].ToDict()
      ensures r.None? ==> Cur == old(Cur) && current == old(current)
    {
      if 0 < Cur < |Nodes| {
        assert Linked(Nodes[Cur - 1], Nodes[Cur]);
      }
      if current != null && current.prev != null {
        current := current.prev;
        Cur := Cur - 1;
        return Some(current.ToDict());
      }
      return None;
    }

    /** The snapshot of the node under the cursor, if any. */
    function Current(): (r: Option<Snapshot>)
      reads this, Nodes
      requires Valid()
      ensures r.None? <==> Nodes == []
      ensures r.Some? ==> r.value == Nodes[Cur].ToDict()
    {
      if current != null then Some(current.ToDict()) else None
    }

    /** Every node from head to tail, each tagged with whether it is under the cursor. */
    method ListAll() returns (es: seq<Entry>)
      requires Valid()
      ensures |es| == size
      ensures forall i :: 0 <= i < |es| ==> es[i].snapshot == Nodes[i].ToDict()
      ensures forall i :: 0 <= i < |es| ==> (es[i].isCurrent <==> i == Cur)
      ensures CountCurrent(es) == if Nodes == [] then 0 else 1
    {
      es := [];
      var at := head;
      ghost var k := 0;
      while at != null
        invariant 0 <= k <= |Nodes|
        invariant at == if k < |Nodes| then Nodes[k] else null
        invariant |es| == k
        invariant forall i :: 0 <= i < k ==> es[i].snapshot == Nodes[i].ToDict()
        invariant forall i :: 0 <= i < k ==> (es[i].isCurrent <==> i == Cur)
        decreases |Nodes| - k
      {
        if k + 1 < |Nodes| {
          assert Linked(Nodes[k], Nodes[k + 1]);
        }
        if k != Cur {
          DistinctAt(Nodes, k, Cur);
        }
        es := es + [Entry(at.ToDict(), at == current)];
        at := at.next;
        k := k + 1;
      }
      if Nodes == [] {
        CountCurrentNone(es);
      } else {
        CountCurrentSingle(es, Cur);
      }
    }

    /** Puts the cursor on the node with the given id and returns its snapshot. */
    method PlayById(id: string) returns (r: Option<Snapshot>)
      requires Valid()
      modifies this
      ensures Valid()
      ensures Nodes == old(Nodes) && Issued == old(Issued)
      ensures Find(Nodes, id) == -1 ==> r.None? && Cur == old(Cur) && current == old(current)
      ensures Find(Nodes, id) != -1 ==>
        Cur == Find(Nodes, id) && current == Nodes[Cur] && r == Some(Nodes[Cur].ToDict())
    {
      var at := head;
      ghost var k := 0;
      while at != null && at.id != id
        invariant 0 <= k <= |Nodes|
        invariant at == if k < |Nodes| then Nodes[k] else null
        invariant forall j :: 0 <= j < k ==> Nodes[j].id != id
        decreases |Nodes| - k
      {
        if k + 1 < |Nodes| {
          assert Linked(Nodes[k], Nodes[k + 1]);
        }
        at := at.next;
        k := k + 1;
      }
      if at == null {
        return None;
      }
      assert Find(Nodes, id) == k;
      current := at;
      Cur := k;
      return Some(at.ToDict());
    }
  }
}
