/**
 * Properties relating the store operations to each other: the consistency
 * invariant, the upload/stream and delete/stream round trips, and what
 * the timestamp policy does and does not guarantee about listing order.
 */
module StoreProperties {
  import opened Wrappers
  import opened Tracks
  import opened TimestampSort
  import opened TrackStore

  // ---------------------------------------------------------------------------
  // The invariant
  // ---------------------------------------------------------------------------

  /** The store the server starts with is consistent. */
  lemma EmptyValid()
    ensures Valid(Empty)
  {
  }

  /** Uploading under a fresh id keeps the store consistent. */
  lemma AddPreservesValid(s: Store, form: UploadForm, freshId: Id)
    requires Valid(s)
    requires Fresh(s, freshId)
    ensures Valid(Add(s, form, freshId).store)
  {
    var o := Add(s, form, freshId);
    if o.response.Created? {
      var p := o.store.playlist;
      assert p == s.playlist + [o.response.track];
      assert LocalIds(p) == LocalIds(s.playlist) + {freshId} by {
        forall x | x in LocalIds(p) ensures x in LocalIds(s.playlist) + {freshId} {
          var t :| t in p && t.isLocal && t.id == x;
          if t != o.response.track {
            assert t in s.playlist;
          }
        }
        assert o.response.track in p;
      }
      forall i, j | 0 <= i < j < |p| ensures p[i].id != p[j].id {
        if j == |p| - 1 {
          assert p[i] in s.playlist;
        }
      }
    }
  }

  /** Deleting keeps the store consistent. */
  lemma DeletePreservesValid(s: Store, id: Id)
    requires Valid(s)
    ensures Valid(Delete(s, id).store)
  {
    if Delete(s, id).response.Deleted? {
      RemoveKeepsDistinct(s.playlist, id);
      RemoveIds(s.playlist, id);
      RemoveCount(s.playlist, id);
      var kept := Remove(s.playlist, id);
      forall t | t in kept && t.isLocal ensures t.mimetype.Some? {
        assert multiset(kept)[t] > 0;
        assert t in s.playlist;
      }
    }
  }

  /**
   * A successful delete keeps every track with another id exactly as often
   * as before and drops all tracks with the id.
   */
  lemma DeleteKeepsOtherTracks(s: Store, id: Id)
    requires Delete(s, id).response.Deleted?
    ensures forall t :: multiset(Delete(s, id).store.playlist)[t]
                     == if t.id == id then 0 else multiset(s.playlist)[t]
  {
    RemoveCount(s.playlist, id);
  }

  /**
   * In a consistent store deletion removes the single entry with the id
   * and leaves the other tracks in their original order.
   */
  lemma DeleteRemovesOneEntry(s: Store, i: nat)
    requires Valid(s)
    requires i < |s.playlist|
    ensures Delete(s, s.playlist[i].id).response.Deleted?
    ensures Delete(s, s.playlist[i].id).store.playlist == s.playlist[..i] + s.playlist[i + 1..]
  {
    assert s.playlist[i] in s.playlist;
    RemoveSingle(s.playlist, i);
  }

  /** Deleting the id of the first track of a consistent store drops just that track. */
  lemma DeleteHead(s: Store)
    requires Valid(s)
    requires |s.playlist| > 0
    ensures Delete(s, s.playlist[0].id).response.Deleted?
    ensures Delete(s, s.playlist[0].id).store.playlist == s.playlist[1..]
    ensures Valid(Delete(s, s.playlist[0].id).store)
  {
    DeleteRemovesOneEntry(s, 0);
    DeletePreservesValid(s, s.playlist[0].id);
    assert s.playlist[..0] + s.playlist[1..] == s.playlist[1..];
  }

  // ---------------------------------------------------------------------------
  // Round trips
  // ---------------------------------------------------------------------------

  /** Streaming a fresh upload with a non-empty payload returns its bytes and mimetype. */
  lemma AddThenStream(s: Store, f: FilePart, name: Option<string>, freshId: Id)
    requires Fresh(s, freshId)
    requires !UploadRejected(UploadForm(Some(f), name))
    requires |f.content| > 0
    ensures Stream(Add(s, UploadForm(Some(f), name), freshId).store, freshId).response
         == Audio(f.content, f.mimetype)
  {
    var s' := Add(s, UploadForm(Some(f), name), freshId).store;
    var n := |s.playlist|;
    assert s'.playlist[n].id == freshId;
    var o := Stream(s', freshId);
    var i :| IsFirstWithId(s'.playlist, freshId, i) && o.response.mimetype == s'.playlist[i].mimetype.GetOr(DefaultMimetype);
  }

  /** A fresh upload with an empty payload is listed, yet streaming it answers NotFound. */
  lemma AddEmptyThenStream(s: Store, f: FilePart, name: Option<string>, freshId: Id)
    requires Fresh(s, freshId)
    requires !UploadRejected(UploadForm(Some(f), name))
    requires |f.content| == 0
    ensures freshId in Ids(List(Add(s, UploadForm(Some(f), name), freshId).store).response.tracks)
    ensures Stream(Add(s, UploadForm(Some(f), name), freshId).store, freshId).response == NotFound
  {
    var o := Add(s, UploadForm(Some(f), name), freshId);
    var listed := List(o.store).response.tracks;
    assert o.response.track in o.store.playlist;
    assert multiset(listed)[o.response.track] > 0;
  }

  /** After a successful delete the id is neither listed nor streamable. */
  lemma DeleteThenStream(s: Store, id: Id)
    requires Delete(s, id).response.Deleted?
    ensures Stream(Delete(s, id).store, id).response == NotFound
    ensures id !in Ids(List(Delete(s, id).store).response.tracks)
  {
    var s' := Delete(s, id).store;
    var listed := List(s').response.tracks;
    forall t | t in listed ensures t.id != id {
      assert multiset(s'.playlist)[t] > 0;
      assert t in s'.playlist;
    }
  }

  /** Deleting the same id twice: the second call is NotFound and changes nothing. */
  lemma DeleteTwice(s: Store, id: Id)
    ensures Delete(Delete(s, id).store, id).response == NotFound
    ensures Delete(Delete(s, id).store, id).store == Delete(s, id).store
  {
  }

  /**
   * In a consistent store streaming never falls back to the default: the
   * bytes are served with the recorded mimetype of the unique track that
   * owns them.
   */
  lemma StreamValid(s: Store, i: nat)
    requires Valid(s)
    requires i < |s.playlist|
    requires s.playlist[i].isLocal
    requires |s.blobs[s.playlist[i].id]| > 0
    ensures s.playlist[i].mimetype.Some?
    ensures Stream(s, s.playlist[i].id).response
         == Audio(s.blobs[s.playlist[i].id], s.playlist[i].mimetype.value)
  {
    var id := s.playlist[i].id;
    assert s.playlist[i] in s.playlist;
    var o := Stream(s, id);
    var j :| IsFirstWithId(s.playlist, id, j) && o.response.mimetype == s.playlist[j].mimetype.GetOr(DefaultMimetype);
    assert j == i;
  }

  /** Listing is stable: tracks sharing a timestamp are listed in playlist order. */
  lemma ListStable(s: Store, k: int)
    ensures WithTimestamp(List(s).response.tracks, k) == WithTimestamp(s.playlist, k)
  {
    SortStable(s.playlist, k);
  }

  // ---------------------------------------------------------------------------
  // Request histories
  // ---------------------------------------------------------------------------

  /** One request the boundary layer can make of the store. */
  datatype Request =
    | ListTracks
    | Upload(form: UploadForm)
    | StreamTrack(id: Id)
    | DeleteTrack(id: Id)

  /** Ids that are pairwise different. */
  ghost predicate DistinctSeq(ids: seq<Id>)
  {
    forall i, j :: 0 <= i < j < |ids| ==> ids[i] != ids[j]
  }

  /**
   * Serves one request; `freshId` stands for the random id an upload
   * would draw and is ignored by the other requests.
   */
  function Handle(s: Store, r: Request, freshId: Id): (o: Outcome)
    requires Fresh(s, freshId)
    ensures Ids(o.store.playlist) <= Ids(s.playlist) + {freshId}
    ensures o.store.blobs.Keys <= s.blobs.Keys + {freshId}
    ensures r.ListTracks? || r.StreamTrack? ==> o.store == s
  {
    match r
    case ListTracks => List(s)
    case Upload(form) => Add(s, form, freshId)
    case StreamTrack(id) => Stream(s, id)
    case DeleteTrack(id) =>
      RemoveIds(s.playlist, id);
      Delete(s, id)
  }

  /** The store after serving `reqs` in order, the i-th drawing `ids[i]` as its random id. */
  function Run(s: Store, reqs: seq<Request>, ids: seq<Id>): (r: Store)
    requires |ids| == |reqs|
    requires DistinctSeq(ids)
    requires forall i :: 0 <= i < |ids| ==> Fresh(s, ids[i])
    ensures Ids(r.playlist) <= Ids(s.playlist) + set i | 0 <= i < |ids| :: ids[i]
    decreases |reqs|
  {
    if |reqs| == 0 then s
    else
      var next := Handle(s, reqs[0], ids[0]).store;
      NextStillFresh(s, reqs[0], ids);
      var r := Run(next, reqs[1..], ids[1..]);
      r
  }

  /** The ids drawn after the first request are still fresh in the store it leaves. */
  lemma NextStillFresh(s: Store, r: Request, ids: seq<Id>)
    requires |ids| > 0
    requires DistinctSeq(ids)
    requires forall i :: 0 <= i < |ids| ==> Fresh(s, ids[i])
    ensures DistinctSeq(ids[1..])
    ensures forall i :: 0 <= i < |ids[1..]| ==> Fresh(Handle(s, r, ids[0]).store, ids[1..][i])
  {
    var next := Handle(s, r, ids[0]).store;
    forall i | 0 <= i < |ids[1..]| ensures Fresh(next, ids[1..][i]) {
      assert ids[1..][i] == ids[i + 1] != ids[0];
      assert Fresh(s, ids[i + 1]);
    }
  }

  /** Every history of requests keeps a consistent store consistent. */
  lemma {:induction false} RunPreservesValid(s: Store, reqs: seq<Request>, ids: seq<Id>)
    requires |ids| == |reqs|
    requires DistinctSeq(ids)
    requires forall i :: 0 <= i < |ids| ==> Fresh(s, ids[i])
    requires Valid(s)
    ensures Valid(Run(s, reqs, ids))
    decreases |reqs|
  {
    if |reqs| > 0 {
      var next := Handle(s, reqs[0], ids[0]).store;
      match reqs[0] {
        case ListTracks =>
        case Upload(form) => AddPreservesValid(s, form, ids[0]);
        case StreamTrack(id) =>
        case DeleteTrack(id) => DeletePreservesValid(s, id);
      }
      NextStillFresh(s, reqs[0], ids);
      RunPreservesValid(next, reqs[1..], ids[1..]);
    }
  }

  /** The i-th entry of the playlist carries timestamp i + 1. */
  ghost predicate TimestampsAreIndices(p: seq<Track>)
  {
    forall i :: 0 <= i < |p| ==> p[i].timestamp == i + 1
  }

  /** A history that never deletes. */
  predicate NoDeletes(reqs: seq<Request>)
  {
    forall i :: 0 <= i < |reqs| ==> !reqs[i].DeleteTrack?
  }

  /**
   * Without deletions the playlist stays numbered 1, 2, ...: every upload
   * takes the next timestamp.
   */
  lemma {:induction false} RunKeepsTimestampsAreIndices(s: Store, reqs: seq<Request>, ids: seq<Id>)
    requires |ids| == |reqs|
    requires DistinctSeq(ids)
    requires forall i :: 0 <= i < |ids| ==> Fresh(s, ids[i])
    requires NoDeletes(reqs)
    requires TimestampsAreIndices(s.playlist)
    ensures TimestampsAreIndices(Run(s, reqs, ids).playlist)
    decreases |reqs|
  {
    if |reqs| > 0 {
      var next := Handle(s, reqs[0], ids[0]).store;
      assert next.playlist == s.playlist || next.playlist == Add(s, reqs[0].form, ids[0]).store.playlist;
      NextStillFresh(s, reqs[0], ids);
      assert NoDeletes(reqs[1..]) by {
        forall i | 0 <= i < |reqs[1..]| ensures !reqs[1..][i].DeleteTrack? {
          assert reqs[1..][i] == reqs[i + 1];
        }
      }
      RunKeepsTimestampsAreIndices(next, reqs[1..], ids[1..]);
    }
  }

  /**
   * From the empty store, a history without deletions is listed in
   * playlist (append) order: the i-th track has timestamp i + 1 and
   * sorting leaves the playlist as it is.
   */
  lemma AddOnlyListsInInsertionOrder(reqs: seq<Request>, ids: seq<Id>)
    requires |ids| == |reqs|
    requires DistinctSeq(ids)
    requires NoDeletes(reqs)
    ensures TimestampsAreIndices(Run(Empty, reqs, ids).playlist)
    ensures List(Run(Empty, reqs, ids)).response.tracks == Run(Empty, reqs, ids).playlist
  {
    var s := Run(Empty, reqs, ids);
    RunKeepsTimestampsAreIndices(Empty, reqs, ids);
    SortOfSorted(s.playlist);
  }

  /** Upload with the given name and a one-byte ogg payload. */
  function SampleUpload(name: string): (form: UploadForm)
    requires name != ""
    ensures !UploadRejected(form)
  {
    UploadForm(Some(FilePart("upload.ogg", "audio/ogg", [1])), Some(name))
  }

  /** Uploading a sample into a consistent store under a fresh id. */
  lemma AddSample(s: Store, name: string, id: Id)
    requires name != ""
    requires Valid(s)
    requires Fresh(s, id)
    ensures Valid(Add(s, SampleUpload(name), id).store)
    ensures Add(s, SampleUpload(name), id).store.playlist
         == s.playlist + [Add(s, SampleUpload(name), id).response.track]
  {
    AddPreservesValid(s, SampleUpload(name), id);
  }

  /** The store after uploading A, B and C under ids "a", "b" and "c". */
  function ThreeUploads(): (s: Store)
    ensures Valid(s)
    ensures |s.playlist| == 3
    ensures s.playlist[0].id == "a" && s.playlist[1].id == "b" && s.playlist[2].id == "c"
    ensures s.playlist[2].timestamp == 3
  {
    var s1 := Add(Empty, SampleUpload("A"), "a").store;
    AddSample(Empty, "A", "a");
    assert Ids(s1.playlist) == {"a"} by { assert s1.playlist[0] in s1.playlist; }
    var s2 := Add(s1, SampleUpload("B"), "b").store;
    AddSample(s1, "B", "b");
    assert Ids(s2.playlist) == {"a", "b"} by {
      assert s2.playlist[0] in s2.playlist && s2.playlist[1] in s2.playlist;
    }
    AddSample(s2, "C", "c");
    Add(s2, SampleUpload("C"), "c").store
  }

  /** In a consistent one-track store every other id is fresh. */
  lemma SingleTrackFresh(s: Store, id: Id)
    requires Valid(s)
    requires |s.playlist| == 1
    requires s.playlist[0].id != id
    ensures Fresh(s, id)
  {
    assert Ids(s.playlist) == {s.playlist[0].id} by {
      assert s.playlist[0] in s.playlist;
    }
  }

  /** The store after uploading A, B and C, then deleting A. */
  function OneDelete(): (s: Store)
    ensures Valid(s)
    ensures s.playlist == ThreeUploads().playlist[1..]
  {
    DeleteHead(ThreeUploads());
    Delete(ThreeUploads(), "a").store
  }

  /** The store after uploading A, B and C, then deleting A and B. */
  function TwoDeletes(): (s: Store)
    ensures Valid(s)
    ensures s.playlist == [ThreeUploads().playlist[2]]
  {
    var sa := OneDelete();
    assert sa.playlist[0].id == "b";
    DeleteHead(sa);
    assert sa.playlist[1..] == [ThreeUploads().playlist[2]];
    Delete(sa, "b").store
  }

  /**
   * Uploading into a one-track store whose track has a timestamp above 2
   * yields a track that is newer but listed first.
   */
  lemma AddBeforeOlder(s: Store, form: UploadForm, id: Id)
    requires Fresh(s, id)
    requires !UploadRejected(form)
    requires |s.playlist| == 1 && s.playlist[0].timestamp > 2
    ensures Add(s, form, id).response.track.timestamp == 2
    ensures List(Add(s, form, id).store).response.tracks
         == [Add(s, form, id).response.track, s.playlist[0]]
  {
    ListTwo(Add(s, form, id).store);
  }

  /**
   * After uploading A, B, C and deleting A and B, only C is left, with
   * timestamp 3, and the id "d" is still unused.
   */
  lemma StoreAfterDeletes()
    ensures TwoDeletes().playlist == [ThreeUploads().playlist[2]]
    ensures ThreeUploads().playlist[2].timestamp == 3
    ensures Fresh(TwoDeletes(), "d")
  {
    var s4 := TwoDeletes();
    SingleTrackFresh(s4, "d");
  }

  /**
   * Timestamps are not insertion order once tracks are deleted: the next
   * upload D after those deletes gets timestamp 2 while the older C keeps
   * 3, so D is listed before C.
   */
  lemma TimestampsAfterDeletes()
    ensures Fresh(TwoDeletes(), "d")
    ensures
      var d := Add(TwoDeletes(), SampleUpload("D"), "d");
      && d.response.track.timestamp == 2
      && List(d.store).response.tracks == [d.response.track, ThreeUploads().playlist[2]]
  {
    StoreAfterDeletes();
    AddBeforeOlder(TwoDeletes(), SampleUpload("D"), "d");
  }

  /** A two-track playlist whose second track is older is listed swapped. */
  lemma ListTwo(s: Store)
    requires |s.playlist| == 2
    requires s.playlist[1].timestamp < s.playlist[0].timestamp
    ensures List(s).response.tracks == [s.playlist[1], s.playlist[0]]
  {
    var x, y := s.playlist[0], s.playlist[1];
    var listed := List(s).response.tracks;
    assert multiset(listed) == multiset{x, y} by {
      assert s.playlist == [x, y];
    }
    assert |listed| == 2 by {
      assert |multiset(listed)| == 2;
    }
    assert listed[0] in multiset(listed) && listed[1] in multiset(listed);
    assert listed[0] != x;
    assert listed[0] == y;
    assert multiset(listed) == multiset{y} + multiset{listed[1]} by {
      assert listed == [y, listed[1]];
    }
  }

  /** The store after uploading "Song A" under "a" and "Song B" under "b". */
  function TwoUploads(): (s: Store)
    ensures Valid(s)
    ensures |s.playlist| == 2
    ensures s.playlist[0].id == "a" && s.playlist[1].id == "b"
  {
    var s1 := Add(Empty, SampleUpload("Song A"), "a").store;
    AddSample(Empty, "Song A", "a");
    assert Ids(s1.playlist) == {"a"} by { assert s1.playlist[0] in s1.playlist; }
    AddSample(s1, "Song B", "b");
    Add(s1, SampleUpload("Song B"), "b").store
  }

  /**
   * Two uploads get timestamps 1 and 2, point at their stream paths and
   * keep their payload and mimetype.
   */
  lemma TwoSongUploads()
    ensures
      var a := TwoUploads().playlist[0];
      var b := TwoUploads().playlist[1];
      && a.timestamp == 1 && b.timestamp == 2
      && a.isLocal && a.url == "/api/stream/a"
      && b.isLocal && b.url == "/api/stream/b"
      && TwoUploads().blobs["a"] == [1] && TwoUploads().blobs["b"] == [1]
      && a.mimetype == Some("audio/ogg") && b.mimetype == Some("audio/ogg")
  {
  }

  /** The two uploads are listed in upload order. */
  lemma TwoSongList()
    ensures List(TwoUploads()).response.tracks == TwoUploads().playlist
  {
    TwoSongUploads();
    var s := TwoUploads();
    assert SortedByTimestamp(s.playlist);
    SortOfSorted(s.playlist);
  }

  /** Deleting the first of the two uploads leaves only the second listed. */
  lemma TwoSongDelete()
    ensures
      var del := Delete(TwoUploads(), "a");
      && del.response == Deleted
      && del.store.playlist == [TwoUploads().playlist[1]]
      && List(del.store).response.tracks == [TwoUploads().playlist[1]]
  {
    var s := TwoUploads();
    DeleteHead(s);
    assert s.playlist[1..] == [s.playlist[1]];
    SortOfSorted(Delete(s, "a").store.playlist);
  }

  /** After that delete the first upload is gone from storage and the second still streams. */
  lemma TwoSongDeleteThenStream()
    ensures
      var del := Delete(TwoUploads(), "a");
      && Stream(del.store, "a").response == NotFound
      && Stream(del.store, "b").response == Audio([1], "audio/ogg")
  {
    var s := TwoUploads();
    TwoSongUploads();
    TwoSongDelete();
    var del := Delete(s, "a");
    DeleteThenStream(s, "a");
    DeletePreservesValid(s, "a");
    StreamValid(del.store, 0);
  }
}
