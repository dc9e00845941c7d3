/** A worked session on a fresh playlist, checked against the list's contracts. */
module Scenario {
  import opened Playlist

  ghost function Ids(ns: seq<Node>): (r: seq<string>)
    ensures |r| == |ns| && forall i :: 0 <= i < |ns| ==> r[i] == ns[i].id
  {
    if ns == [] then [] else [ns[0].id] + Ids(ns[1..])
  }

  /** Adds A at the tail, B at the head and C at position 1 of a fresh playlist: the order
      is B, C, A and the cursor stays on A, the first track added. */
  method Build(a: Track, b: Track, c: Track) returns (list: DoublyLinkedList)
    ensures fresh(list) && fresh(list.Nodes) && list.Valid()
    ensures Ids(list.Nodes) == ["b", "c", "a"]
    ensures list.Nodes[1].track == c && list.Nodes[0].track == b
    ensures list.current == list.Nodes[2]
  {
    list := new DoublyLinkedList();
    var idA := list.InsertAtTail(a, "a");
    var idB := list.InsertAtHead(b, "b");
    var idC := list.InsertAt(c, 1, "c");
    assert Ids(list.Nodes) == ["b", "c", "a"];
  }

  /** Builds the playlist above, removes A (the tail, under the cursor, which moves back to
      C), then steps the cursor forwards (refused at the tail) and backwards (onto B). */
  method Session(a: Track, b: Track, c: Track)
    returns (order: seq<string>, playing: Option<Snapshot>, forward: Option<Snapshot>,
             backward: Option<Snapshot>)
    ensures order == ["b", "c"]
    ensures playing.Some? && playing.value.id == "c" && playing.value.artist == c.artist
    ensures forward.None?
    ensures backward.Some? && backward.value.id == "b" && backward.value.title == b.title
  {
    var list := Build(a, b, c);
    var removed := list.RemoveById("a");
    var listing := list.ListAll();
    order := seq(|listing|, i requires 0 <= i < |listing| => listing[i].snapshot.id);
    playing := list.Current();
    forward := list.Advance();
    backward := list.Retreat();
  }

  /** On a fresh playlist nothing is playing, the listing is empty and a removal by any id
      reports that nothing was removed. */
  method EmptySession(id: string) returns (playing: Option<Snapshot>, listing: seq<Entry>, removed: bool)
    ensures playing.None? && listing == [] && !removed
  {
    var list := new DoublyLinkedList();
    playing := list.Current();
    listing := list.ListAll();
    removed := list.RemoveById(id);
  }
}
