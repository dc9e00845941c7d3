# Custom playlist and favourites toggle

A Dafny model of the in-process custom playlist of the music web front-end (`app.py`). The playlist is the doubly linked list `ListaDobleEnlazada` with its node class `Nodo`. It has head, tail and "now playing" cursor references and a size counter. The model also covers two pieces of request-handling logic:

- the position dispatch of the add-to-playlist handler;
- the favourites toggle.

Modules:

- `Playlist` (`playlist.dfy`): the node and list classes.
  - `Node` has immutable `id` and `track` fields and mutable `next`/`prev` links.
  - `DoublyLinkedList` has `head`, `tail`, `current` and `size`.
  - Three ghost fields describe the list's abstract state:
    - `Nodes`: the chain from head to tail;
    - `Cur`: the cursor's index in `Nodes`;
    - `Issued`: every id ever handed out.
  - `Valid()` ties the pointers to `Nodes`:
    - the links agree in both directions;
    - the ends have null outer links;
    - `size == |Nodes|`;
    - the ids are distinct;
    - the cursor is null exactly when the list is empty.
  - Each operation is specified by its exact effect on `Nodes`, the cursor and `size`. Node-level pointer writes are in small static methods, each stating the chain it produces.
- `Routes` (`routes.dfy`): the add-to-playlist handler.
  - It fills in the defaults of the request body.
  - It dispatches on the classified `posicion` value: text "inicio", text "final", an integer, or anything else.
  - It answers with the new id and the full listing.
- `Favorites` (`favorites.dfy`): the toggle of a favourites list of track ids, with the structural lemmas about it. Removal takes out the first occurrence, as Python's `list.remove` does.
- `Scenario` (`scenario.dfy`): two sessions on a fresh playlist whose outcomes follow from the contracts above.
  - A non-empty one: add A at the tail, B at the head and C at position 1; remove A; step forwards, then backwards.
  - An empty one.

## Model

| member | source | states |
|---|---|---|
| Playlist.Node.constructor | app.py:269-273 | a new node carries the given id and track and has no neighbours |
| Playlist.Find | app.py:343-345 | the index of the first node, from the head, whose id matches; -1 exactly when no node has that id |
| Playlist.FindOwnId | app.py:270 | because ids are unique, looking up the id of the node at index i finds index i |
| Playlist.RemoveUndoesInsert | app.py:339-369 | removing by id a node just spliced in at index k finds it at k and gives back the previous chain exactly |
| Playlist.CountCurrentSingle | app.py:393 | a listing in which exactly one index is tagged `es_actual` holds exactly one current entry |
| Playlist.CountCurrentNone | app.py:393 | a listing with no tagged entry holds no current entry |
| Playlist.DoublyLinkedList.constructor | app.py:286-290 | a new list is valid and empty, and has issued no ids |
| Playlist.DoublyLinkedList.IsEmpty | app.py:292-293 | testing the head for null says exactly whether the chain is empty, and whether the size is 0 |
| Playlist.DoublyLinkedList.InsertAtHead | app.py:295-306 | one fresh node with the given id and track is put in front; the other nodes keep their order; size grows by 1; the cursor moves to the new node only when the list was empty; the id is returned |
| Playlist.DoublyLinkedList.InsertAtTail | app.py:308-319 | as for the head, with the node appended after the old tail |
| Playlist.DoublyLinkedList.InsertAt | app.py:321-337 | the new chain is `old[..k] + [new] + old[k..]` where k is the position clamped as app.py:322-325 do (0 for positions at or below 0, the size for positions at or beyond it), so those cases are exactly the head and tail inserts; size grows by 1; the cursor is unchanged unless the list was empty |
| Playlist.DoublyLinkedList.LinkBefore | app.py:332-336 | splicing a fresh node in before the node at index k (0 < k < size) keeps the list valid, yields `old[..k] + [node] + old[k..]` and leaves the cursor alone |
| Playlist.DoublyLinkedList.Relink | app.py:332-335 | the four pointer writes of a positional insert turn the chain into `ns[..k] + [node] + ns[k..]` and keep the ends' outer links null |
| Playlist.DoublyLinkedList.LinkFirst | app.py:302-303 | linking a node in front of the old head yields the chain with that node prepended |
| Playlist.DoublyLinkedList.LinkLast | app.py:315-316 | linking a node after the old tail yields the chain with that node appended |
| Playlist.DoublyLinkedList.RemoveById | app.py:339-369 | returns true exactly when some node has the id; if none does, nothing changes, also on an empty list; otherwise exactly the first such node is dropped, the rest keep their order and size drops by 1; a cursor elsewhere is untouched; a cursor on the removed node moves to its next neighbour, or to its previous one when it was the tail; removing the only node nulls head, tail and cursor |
| Playlist.DoublyLinkedList.UnlinkHead | app.py:350-354 | dropping the head of a list of two or more leaves `old[1..]`; a cursor on it moves to the new head |
| Playlist.DoublyLinkedList.UnlinkTail | app.py:355-359 | dropping the tail of a list of two or more leaves `old[..size-1]`; a cursor on it moves to the new tail |
| Playlist.DoublyLinkedList.UnlinkInner | app.py:360-364 | dropping an inner node leaves `old[..k] + old[k+1..]`; a cursor on it moves to its next neighbour |
| Playlist.DoublyLinkedList.DetachFirst | app.py:351-352 | clearing the second node's back link yields the chain without its first node |
| Playlist.DoublyLinkedList.DetachLast | app.py:356-357 | clearing the penultimate node's forward link yields the chain without its last node |
| Playlist.DoublyLinkedList.Bypass | app.py:361-362 | pointing the inner node's neighbours at each other yields the chain without that node |
| Playlist.DoublyLinkedList.Advance | app.py:371-375 | the cursor moves one step towards the tail and its snapshot (the id, title, artist, duration and album-or-"" that `to_dict` at app.py:275-282 builds) is returned exactly when it has a next node; otherwise, at the tail or on an empty list, None is returned and the cursor stays; the chain is unchanged |
| Playlist.DoublyLinkedList.Retreat | app.py:377-381 | the cursor moves one step towards the head when it has a previous node, and the new current node's `to_dict` snapshot (app.py:275-282) is returned; otherwise None and no change; no wrap-around |
| Playlist.DoublyLinkedList.Current | app.py:383-386 | None exactly when the list is empty, else the `to_dict` snapshot (app.py:275-282) of the node under the cursor |
| Playlist.DoublyLinkedList.ListAll | app.py:388-396 | read-only; returns `size` entries in head-to-tail order, each the node's `to_dict` snapshot (app.py:275-282), tagged current exactly at the cursor's index; exactly one tagged entry on a non-empty list, none on an empty one |
| Playlist.DoublyLinkedList.PlayById | app.py:398-405 | if some node has the id, the cursor moves to the first such node and its `to_dict` snapshot (app.py:275-282) is returned; otherwise None and the cursor is unchanged; the chain never changes |
| Routes.Dispatch | app.py:437-446 | the track is inserted as a fresh node at index 0 for "inicio", at the tail for "final" and for a value that does not convert to an integer, and at the clamped position for an integer; other nodes keep their order; size grows by 1 |
| Routes.DispatchIsPositional | app.py:437-446 | every branch of the dispatch lands where a positional insert would: "inicio" at the clamp of 0, "final" and unconvertible values at the clamp of the size, an integer at its own clamp |
| Routes.AddToPlaylist | app.py:426-452 | the node inserted carries the request's title and artist, its duration or "3:30" and its album or "" (app.py:428-433), and goes where the request's `posicion` (default "final", app.py:435) sends it; the answer holds its id and a listing of every node in order with the cursor tagged |
| Favorites.IndexOf | app.py:70-71 | the index of the first occurrence of the id, -1 exactly when it is absent |
| Favorites.RemoveFirst | app.py:71 | removing a present id shortens the list by one; for an absent id the model returns the list unchanged where Python's `list.remove` would raise `ValueError`, a case app.py:70 rules out by testing membership first |
| Favorites.RemovedContents | app.py:71 | removing a present id takes away exactly one copy of it and nothing else |
| Favorites.ToggledContents | app.py:70-75 | a toggle takes away one copy of a present id or adds one copy of an absent id, and changes no other contents |
| Favorites.RemoveFirstNoDup | app.py:70-72 | on a list without duplicates, removing an id leaves no copy of it and no duplicates |
| Favorites.ToggleKeepsSet | app.py:70-75 | on a list without duplicates, the toggled id is present afterwards exactly when it was absent before; every other id keeps its membership; no duplicates arise |
| Favorites.ToggleTwiceAbsent | app.py:70-75 | toggling an absent id twice gives back the original list |
| Favorites.MoveToEnd | app.py:70-75 | moving one element of a duplicate-free list to the end keeps the contents, and is the identity exactly when the element was last |
| Favorites.TogglePresentTwice | app.py:70-75 | toggling a present id twice on a list without duplicates moves it to the end; the contents are kept; the original list comes back exactly when the id was already last |
| Favorites.FavoriteList.constructor | app.py:65-66 | a session without a favourites list starts from the empty list, which has no duplicates |
| Favorites.FavoriteList.Toggle | app.py:60-80 | an unauthenticated caller is refused and nothing changes; otherwise a present id is removed (status "removed") and an absent one appended (status "added"); the list stays free of duplicates |
| Scenario.Build | app.py:295-337 | a fresh list after tail-insert A, head-insert B and insert C at position 1 is B, C, A with the cursor on A |
| Scenario.Session | app.py:339-381 | removing A from B, C, A moves the cursor to C; stepping forwards from C is refused; stepping backwards returns B |
| Scenario.EmptySession | app.py:339-396 | on an empty list nothing is playing, the listing is empty and removal reports false |

## Left out

- HTTP routing, `request.json`, `jsonify` and template rendering. Only the logic of the add handler and of the favourites toggle is modelled. The other playlist routes are not modelled. Each calls one list operation. On success the play, advance and retreat routes answer with the snapshot and the listing, and on failure without the listing (app.py:472, 483, 494). The removal route answers with the listing and the current entry. The current-entry route (app.py:496-505) answers with the snapshot or a placeholder record.
- Spotify and OAuth: `get_spotify`, `get_token` and every remote call. The toggle takes the outcome of the authentication check as a boolean parameter.
- Flask `session` persistence of the favourites list (`session.modified`). The list is a field of `FavoriteList`.
- Playlist.Node.constructor: does not model `uuid.uuid4()`. The id is a parameter, and every insert requires it to be outside `Issued`, the set of ids the list has handed out. This is how the model states the uniqueness a random UUID provides.
- Routes.TargetIndex: does not model Python's `int()` conversion of an arbitrary JSON value. For example, `int(True)` is 1 and `int(2.7)` is 2. The classification into `Position` is an input; `Unparseable` stands for a conversion that raises.
- Routes.TrackOf: title and artist are strings. The source's `data.get` yields `None` for a missing title or artist, which the model does not represent. A duration present as JSON `null` is stored as `None` by the source without the "3:30" default; in the model an absent duration and a null one are the same `None`, which always takes the default.
- Playlist.Node.ToDict: an album stored as JSON `null` would be rendered as `None` by the source; the model's album is a string.
- Playlist.DoublyLinkedList.RemoveById: the removed node keeps its stale `siguiente`/`anterior` links in the source. The model does not state those fields, because no list operation reads them again.
- The global playlist instance and concurrent requests on it.
- Favorites.TogglePresentTwice: toggling a present id twice restores the list only when the id was already last. Otherwise, removal followed by append moves the id to the end of the list. The lemma states exactly that. Restoration is proved unconditionally only for an absent id (Favorites.ToggleTwiceAbsent).
