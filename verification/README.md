# Track store of the gospel-radio playlist server

The server keeps every uploaded audio file in memory. It has two
collections, kept side by side:

- the playlist: an ordered list of track records (`id`, `name`, `url`,
  `isLocal`, `timestamp`, and `mimetype` for uploads);
- the file storage: a map from track id to the uploaded bytes.

The HTTP handlers perform four operations on them:

- list: the playlist sorted by timestamp;
- add: validate a multipart upload, store its bytes under a new id and
  append a local track;
- stream: serve the bytes stored for an id, with the mimetype of the
  first track that has that id;
- delete: filter every track with the id out of the playlist and, only if
  something was removed, drop the id's bytes.

This project models that store as a deterministic state machine. A
`Store` holds a `seq<Track>` and a `map<Id, seq<bv8>>`. Each handler is a
pure function from a store and its inputs to an `Outcome`: the next store
and a `Response`. `Playlist`, `Created`, `Audio`, `Deleted`,
`InvalidInput` and `NotFound` stand in for the JSON bodies and status
codes.

Files:

- `wrappers.dfy`: `Option`.
- `tracks.dfy`: the `Track` record, id sets, the first-match lookup the
  stream handler uses, and the id filter the delete handler uses.
- `timestamp_sort.dfy`: the stable sort by timestamp that the list handler
  performs.
- `track_store.dfy`: the store, the upload form, and the four operations.
- `store_properties.dfy`: the consistency invariant, round trips, request
  histories, and concrete scenarios.

Behaviours of the code that the model keeps:

- Timestamps are `len(playlist) + 1` at upload time, not a counter. In a
  history without deletes the i-th track has timestamp i, so listing order
  is upload order. Once tracks are deleted, timestamps can repeat, or a
  newer track can sort before an older one. `TimestampsAfterDeletes`
  exhibits this: upload A, B, C; delete A and B; upload D. D gets
  timestamp 2, while C keeps 3.
- Uploads are never checked for an empty payload. Such a track is listed,
  but streaming it answers NotFound, because an empty byte string counts
  as missing.
- An upload is rejected in three cases: there is no `file` field; the file
  object is falsy; or the resolved name is empty. A file object is falsy
  when its filename is empty, which is how the form library defines its
  truthiness. The resolved name is the `name` form field when sent (even
  if empty), else the filename. So a named upload whose file has no
  filename is still rejected.
- Delete removes every track with the id, not just one. In a consistent
  store there is only one such track (`DeleteRemovesOneEntry`).
- Stream falls back to `audio/mpeg` in two cases: bytes exist but no track
  has the id; or the first matching track has no mimetype. Neither happens
  in a consistent store, which every history of requests keeps
  (`RunPreservesValid`, `StreamValid`).

## Model

| member | source | states |
|---|---|---|
| TrackStore.List | main.py:38-41 | Listing never fails, leaves the store unchanged, and returns a permutation of the playlist in non-decreasing timestamp order |
| TimestampSort.Sort | main.py:40 | The sorted playlist is ordered by non-decreasing timestamp and has exactly the same tracks, with multiplicity |
| TimestampSort.Insert | main.py:40 | Inserting into a timestamp-ordered playlist keeps it ordered and adds exactly that one track |
| TimestampSort.SortStable | main.py:40 | The sort is stable: for every timestamp, the tracks carrying it keep their original relative order |
| TimestampSort.SortOfSorted | main.py:40 | A playlist already in timestamp order is returned unchanged |
| TimestampSort.InsertStable | main.py:40 | Insertion adds the new track in front of the equal-timestamp tracks and disturbs no other timestamp's order |
| StoreProperties.ListStable | main.py:38-41 | The listed tracks sharing a timestamp appear in playlist order |
| TrackStore.ResolvedName | main.py:48 | The track name is the `name` form field when sent, otherwise the uploaded filename |
| TrackStore.Add | main.py:43-72 | Add answers InvalidInput exactly when the file field is absent, the file is falsy or the resolved name is empty, and then the store is unchanged. Otherwise it appends one track at the end: fresh id, resolved name, url `/api/stream/<id>`, local, timestamp old length + 1, the upload's mimetype. It stores the payload under the id and leaves all other blobs as they were |
| TrackStore.Stream | main.py:74-84 | Stream is read-only. It is NotFound exactly when no blob exists for the id or the blob is empty. Otherwise it returns the stored bytes with the first matching track's mimetype, falling back to audio/mpeg when there is no such track or it has no mimetype |
| Tracks.FirstIndexOf | main.py:82 | The lookup finds the first track with the id, or reports that no track has it |
| TrackStore.Delete | main.py:94-110 | Delete succeeds exactly when some track has the id. On success the id is gone from the playlist, the playlist is the filtered one, and only that id's blob is removed. On failure the store is unchanged |
| Tracks.Remove | main.py:101 | The filtered playlist contains no track with the id, and is shorter than the original exactly when some track had the id |
| Tracks.RemoveCount | main.py:101 | Filtering keeps every track with another id exactly as often as it occurred and drops every track with the id |
| Tracks.RemoveAppend | main.py:101 | Filtering distributes over concatenation, so kept tracks stay in their original relative order |
| Tracks.RemoveAbsent | main.py:101-103 | Filtering an id that no track has leaves the playlist identical, which is why delete then reports NotFound |
| Tracks.RemoveIds | main.py:101 | Filtering removes exactly the given id from the sets of track ids and of local track ids |
| Tracks.RemoveKeepsDistinct | main.py:101 | Filtering keeps the track ids pairwise distinct |
| Tracks.RemoveSingle | main.py:101 | With distinct ids, filtering the id of entry i yields the playlist with exactly entry i cut out |
| StoreProperties.DeleteKeepsOtherTracks | main.py:98-106 | After a successful delete every track with another id is still present as often as before |
| StoreProperties.DeleteRemovesOneEntry | main.py:98-108 | In a consistent store, deleting the id of entry i succeeds and leaves the playlist with only that entry removed, others in order |
| StoreProperties.DeleteHead | main.py:98-108 | In a consistent store, deleting the first track's id removes just that track and keeps the store consistent |
| StoreProperties.EmptyValid | main.py:12-13 | The initial empty store satisfies the invariant: blob keys equal the local-track ids, ids are distinct and every local track has a mimetype |
| StoreProperties.AddPreservesValid | main.py:54-68 | An upload with a fresh id keeps blob keys equal to local-track ids, ids distinct and every local track with a mimetype |
| StoreProperties.DeletePreservesValid | main.py:98-106 | Delete keeps blob keys equal to local-track ids, ids distinct and every local track with a mimetype |
| StoreProperties.AddThenStream | main.py:54-84 | After a successful upload with non-empty bytes, streaming its id returns exactly those bytes with the upload's mimetype |
| StoreProperties.AddEmptyThenStream | main.py:54-79 | An accepted upload with an empty payload is listed, yet streaming it answers NotFound |
| StoreProperties.DeleteThenStream | main.py:77-106 | After a successful delete the id is neither streamable nor listed |
| StoreProperties.DeleteTwice | main.py:98-110 | Deleting the same id again answers NotFound and changes nothing |
| StoreProperties.StreamValid | main.py:77-84 | In a consistent store every local track has a recorded mimetype, and its non-empty blob is streamed with exactly that mimetype; the `audio/mpeg` fallback is never taken |
| StoreProperties.Handle | main.py:33-110 | Serving one request adds no id other than the drawn fresh one to either collection, and list and stream requests leave the store unchanged |
| StoreProperties.Run | main.py:33-110 | Serving a sequence of requests puts only ids from the store or from the drawn ids into the playlist |
| StoreProperties.RunPreservesValid | main.py:33-110 | Every request history with distinct fresh ids keeps a consistent store consistent |
| StoreProperties.RunKeepsTimestampsAreIndices | main.py:65-68 | In a history without deletes the playlist stays numbered: entry i has timestamp i + 1 |
| StoreProperties.AddOnlyListsInInsertionOrder | main.py:38-68 | From the empty store, a history without deletes numbers the tracks 1, 2, … and lists them exactly in upload order |
| StoreProperties.AddBeforeOlder | main.py:65 | Uploading into a one-track store whose track has a timestamp above 2 gives the new track timestamp 2, so it is listed before the older one |
| StoreProperties.ListTwo | main.py:40 | A two-track playlist whose second track has the smaller timestamp is listed swapped |
| StoreProperties.StoreAfterDeletes | main.py:55-106 | After uploading A, B, C and deleting A and B only C remains, with timestamp 3 |
| StoreProperties.TimestampsAfterDeletes | main.py:65 | The next upload after those deletes gets timestamp 2 and is listed before the older C: timestamps are not insertion order |
| StoreProperties.TwoSongUploads | main.py:55-68 | Two uploads from the empty store get timestamps 1 and 2, are local, point at `/api/stream/<id>` and keep payload and mimetype |
| StoreProperties.TwoSongList | main.py:38-41 | Those two uploads are listed in upload order |
| StoreProperties.TwoSongDelete | main.py:98-108 | Deleting the first leaves only the second in the playlist and in the listing |
| StoreProperties.TwoSongDeleteThenStream | main.py:77-106 | After that delete the first id streams as NotFound and the second still streams its bytes as audio/ogg |

## Left out

- HTTP routing, JSON encoding and status codes: each handler's answer is a `Response` constructor instead.
- The `/` route serving `pl2.html`, the read of that file, and the process entry point: file and process I/O.
- `send_file` over an in-memory buffer: library I/O. The model returns the bytes and the mimetype handed to it.
- `uuid.uuid4()`: random. Every upload takes a caller-supplied id that is fresh in both collections. Histories take one distinct id per request.
- The form library's file object. It is a `FilePart` with filename, detected mimetype and content. Its truthiness is "filename is non-empty". An absent filename is the empty string. Reading the stream and detecting the mimetype are outside the model.
- Seeding of external demo tracks and `SERVER_TRACKS_LIMIT`: the seeding guard is always false and the limit is never read. Tracks with `isLocal = false` are still allowed by the datatype and the invariant.
- Concurrency: the handlers run without locking. The model serves requests one at a time.
- A track's stored mimetype is a string or absent. A stored mimetype that is itself a null value is not modelled.
