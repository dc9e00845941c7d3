/** The request handler that adds a track to the custom playlist: it fills in the
    defaults of the request body and dispatches on the requested position. */
module Routes {
  import opened Playlist

  /** Where the request asks for the track to go, once its `posicion` value has been
      classified: the literal "inicio", the literal "final", a value that converts to an
      integer, or anything else. */
  datatype Position = Start | End | Index(n: int) | Unparseable

  /** The body of an add request: optional fields are `None` when absent. */
  datatype Request = Request(
    title: string,
    artist: string,
    duration: Option<string>,
    album: Option<string>,
    position: Option<Position>)

  /** The track record built from a request: the duration defaults to "3:30" and the
      album to the empty string, so the stored record always carries an album. */
  function TrackOf(req: Request): Track
  {
    Track(req.title, req.artist,
          match req.duration case Some(d) => d case None => "3:30",
          Some(match req.album case Some(a) => a case None => ""))
  }

  /** The requested position, "final" (the tail) when the request names none. */
  function PositionOf(req: Request): Position
  {
    match req.position case Some(p) => p case None => End
  }

  /** The index at which the dispatched insert places the new node in a list of the given
      size: the head for Start, the tail for End and for anything that does not convert
      to an integer, and the clamped position for an integer. */
  function TargetIndex(p: Position, size: nat): nat
  {
    match p
    case Start => 0
    case End => size
    case Index(n) => ClampPosition(n, size)
    case Unparseable => size
  }

  /** Every branch of the dispatch lands where a positional insert would: the head is
      position 0, the tail (also for a value that does not convert) is position `size`. */
  lemma DispatchIsPositional(p: Position, size: nat)
    ensures p.Start? ==> TargetIndex(p, size) == ClampPosition(0, size)
    ensures p.End? || p.Unparseable? ==> TargetIndex(p, size) == ClampPosition(size, size)
    ensures p.Index? ==> TargetIndex(p, size) == ClampPosition(p.n, size)
  {
  }

  /** Inserts `track` where the classified position asks. */
  method Dispatch(list: DoublyLinkedList, track: Track, position: Position, newId: string)
    returns (id: string)
    requires list.Valid()
    requires newId !in list.Issued
    modifies list, list.Nodes
    ensures list.Valid()
    ensures id == newId
    ensures var k := TargetIndex(position, old(list.size));
      InsertedAt(old(list.Nodes), list.Nodes, k, newId, track) && fresh(list.Nodes[k])
    ensures list.size == old(list.size) + 1
    ensures list.current == if old(list.Nodes) == [] then list.Nodes[0] else old(list.current)
    ensures list.Issued == old(list.Issued) + {newId}
  {
    match position {
      case Start =>
        id := list.InsertAtHead(track, newId);
      case End =>
        id := list.InsertAtTail(track, newId);
      case Index(n) =>
        id := list.InsertAt(track, n, newId);
      case Unparseable =>
        id := list.InsertAtTail(track, newId);
    }
  }

  /** Handles an add request: builds the track record, inserts it where the request asks,
      and answers with the new node's id and the full listing. */
  method AddToPlaylist(list: DoublyLinkedList, req: Request, newId: string)
    returns (id: string, listing: seq<Entry>)
    requires list.Valid()
    requires newId !in list.Issued
    modifies list, list.Nodes
    ensures list.Valid()
    ensures id == newId
    ensures var k := TargetIndex(PositionOf(req), old(list.size));
      InsertedAt(old(list.Nodes), list.Nodes, k, newId, TrackOf(req)) && fresh(list.Nodes[k])
    ensures list.size == old(list.size) + 1
    ensures list.current == if old(list.Nodes) == [] then list.Nodes[0] else old(list.current)
    ensures list.Issued == old(list.Issued) + {newId}
    ensures |listing| == list.size
    ensures forall i :: 0 <= i < |listing| ==> listing[i].snapshot == list.Nodes[i].ToDict()
    ensures forall i :: 0 <= i < |listing| ==> (listing[i].isCurrent <==> i == list.Cur)
  {
    id := Dispatch(list, TrackOf(req), PositionOf(req), newId);
    listing := list.ListAll();
  }
}
