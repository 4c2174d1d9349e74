/**
 * The in-memory track store of the playlist server: the ordered metadata
 * list and the byte storage keyed by track id, with the four operations
 * the HTTP handlers perform on them. Each operation is a pure function from
 * the store (and its inputs) to the next store and a response; HTTP status
 * codes and JSON bodies become `Response` constructors.
 */
module TrackStore {
  import opened Wrappers
  import opened Tracks
  import opened TimestampSort

  /** The two collections: playlist metadata and uploaded bytes by track id. */
  datatype Store = Store(playlist: seq<Track>, blobs: map<Id, Bytes>)

  /** Content type used when a track has no stored mimetype. */
  const DefaultMimetype: string := "audio/mpeg"

  /** Path prefix of the streaming endpoint that uploaded tracks point to. */
  const StreamPrefix: string := "/api/stream/"

  /** The store at process start: seeding of demo tracks never runs. */
  const Empty: Store := Store([], map[])

  /** The multipart `file` field: its client filename, detected mimetype and bytes. */
  datatype FilePart = FilePart(filename: string, mimetype: string, content: Bytes)

  /**
   * Truthiness of an uploaded file object: the form library treats an
   * upload as present exactly when it has a non-empty filename.
   */
  predicate IsPresent(f: FilePart)
  {
    f.filename != ""
  }

  /** An upload request: the optional `file` field and the optional `name` field. */
  datatype UploadForm = UploadForm(file: Option<FilePart>, name: Option<string>)

  /** The track name: the explicit `name` field if sent, else the filename. */
  function ResolvedName(form: UploadForm, f: FilePart): (r: string)
    ensures form.name.Some? ==> r == form.name.value
    ensures form.name.None? ==> r == f.filename
  {
    form.name.GetOr(f.filename)
  }

  /** When an upload is rejected with InvalidInput. */
  predicate UploadRejected(form: UploadForm)
  {
    || form.file.None?
    || !IsPresent(form.file.value)
    || ResolvedName(form, form.file.value) == ""
  }

  datatype Response =
    | Playlist(tracks: seq<Track>)
    | Created(track: Track)
    | Audio(content: Bytes, mimetype: string)
    | Deleted
    | InvalidInput
    | NotFound

  /** The store after an operation, with what the operation answered. */
  datatype Outcome = Outcome(store: Store, response: Response)

  /** `id` has been used by neither collection. */
  predicate Fresh(s: Store, id: Id)
  {
    id !in s.blobs && id !in Ids(s.playlist)
  }

  /**
   * The consistency invariant: track ids are unique, the storage holds
   * bytes for exactly the ids of the local tracks, and every local track
   * records the mimetype its upload was detected with.
   */
  ghost predicate Valid(s: Store)
  {
    && DistinctIds(s.playlist)
    && s.blobs.Keys == LocalIds(s.playlist)
    && forall t :: t in s.playlist && t.isLocal ==> t.mimetype.Some?
  }

  /** GET /api/tracks: the playlist sorted by timestamp; never fails. */
  function List(s: Store): (o: Outcome)
    ensures o.store == s
    ensures o.response.Playlist?
    ensures SortedByTimestamp(o.response.tracks)
    ensures multiset(o.response.tracks) == multiset(s.playlist)
  {
    Outcome(s, Playlist(Sort(s.playlist)))
  }

  /**
   * POST /api/tracks: validates the upload, stores its bytes under the
   * fresh id and appends a local track whose timestamp is the old playlist
   * length plus one. The payload length is not checked.
   */
  function Add(s: Store, form: UploadForm, freshId: Id): (o: Outcome)
    requires Fresh(s, freshId)
    ensures o.response.InvalidInput? <==> UploadRejected(form)
    ensures o.response.InvalidInput? ==> o.store == s
    ensures !o.response.InvalidInput? ==>
      && form.file.Some?
      && o.response.Created?
      && o.store.playlist == s.playlist + [o.response.track]
      && o.response.track.id == freshId
      && o.response.track.name == ResolvedName(form, form.file.value)
      && o.response.track.url == StreamPrefix + freshId
      && o.response.track.isLocal
      && o.response.track.timestamp == |s.playlist| + 1
      && o.response.track.mimetype == Some(form.file.value.mimetype)
      && o.store.blobs.Keys == s.blobs.Keys + {freshId}
      && o.store.blobs[freshId] == form.file.value.content
      && forall k :: k in s.blobs ==> o.store.blobs[k] == s.blobs[k]
  {
    if UploadRejected(form) then Outcome(s, InvalidInput)
    else
      var f := form.file.value;
      var track := Track(
        freshId, ResolvedName(form, f), StreamPrefix + freshId, true,
        |s.playlist| + 1, Some(f.mimetype));
      Outcome(Store(s.playlist + [track], s.blobs[freshId := f.content]), Created(track))
  }

  /**
   * GET /api/stream/<id>: the stored bytes with the mimetype of the first
   * track carrying the id. A missing or empty blob is NotFound; a blob
   * without a track, or a track without a mimetype, streams as audio/mpeg.
   */
  function Stream(s: Store, id: Id): (o: Outcome)
    ensures o.store == s
    ensures o.response.NotFound? <==> id !in s.blobs || |s.blobs[id]| == 0
    ensures !o.response.NotFound? ==> o.response.Audio? && o.response.content == s.blobs[id]
    ensures o.response.Audio? && id !in Ids(s.playlist) ==>
      o.response.mimetype == DefaultMimetype
    ensures o.response.Audio? && id in Ids(s.playlist) ==>
      exists i :: IsFirstWithId(s.playlist, id, i)
                  && o.response.mimetype == s.playlist[i].mimetype.GetOr(DefaultMimetype)
  {
    if id !in s.blobs || |s.blobs[id]| == 0 then Outcome(s, NotFound)
    else
      var mimetype :=
        match FirstIndexOf(s.playlist, id)
        case None => DefaultMimetype
        case Some(i) => s.playlist[i].mimetype.GetOr(DefaultMimetype);
      Outcome(s, Audio(s.blobs[id], mimetype))
  }

  /**
   * DELETE /api/tracks/<id>: filters out every track with the id and, only
   * if that removed something, drops the id's bytes as well.
   */
  function Delete(s: Store, id: Id): (o: Outcome)
    ensures o.response.Deleted? || o.response.NotFound?
    ensures o.response.Deleted? <==> id in Ids(s.playlist)
    ensures o.response.NotFound? ==> o.store == s
    ensures o.response.Deleted? ==>
      && id !in Ids(o.store.playlist)
      && o.store.playlist == Remove(s.playlist, id)
      && o.store.blobs.Keys == s.blobs.Keys - {id}
      && forall k :: k in o.store.blobs ==> o.store.blobs[k] == s.blobs[k]
  {
    var kept := Remove(s.playlist, id);
    if |kept| < |s.playlist| then Outcome(Store(kept, s.blobs - {id}), Deleted)
    else Outcome(s, NotFound)
  }
}
