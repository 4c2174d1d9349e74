/**
 * Playlist entries and the sequence operations the store needs on them:
 * looking a track up by id (the first match wins) and filtering every
 * track with a given id out of a playlist.
 */
module Tracks {
  import opened Wrappers

  /** Track identifiers are opaque strings (random UUIDs in the server). */
  type Id = string

  /** Raw audio payload. */
  type Bytes = seq<bv8>

  /**
   * One playlist entry. `mimetype` is a key that only uploaded tracks
   * carry, hence optional.
   */
  datatype Track = Track(
    id: Id,
    name: string,
    url: string,
    isLocal: bool,
    timestamp: int,
    mimetype: Option<string>)

  /** The ids occurring in a playlist. */
  function Ids(p: seq<Track>): set<Id>
  {
    set t | t in p :: t.id
  }

  /** The ids of the tracks whose bytes are held by the server. */
  function LocalIds(p: seq<Track>): set<Id>
  {
    set t | t in p && t.isLocal :: t.id
  }

  /** No two entries of the playlist share an id. */
  ghost predicate DistinctIds(p: seq<Track>)
  {
    forall i, j :: 0 <= i < j < |p| ==> p[i].id != p[j].id
  }

  /** `i` is the position of the first entry of `p` whose id is `id`. */
  ghost predicate IsFirstWithId(p: seq<Track>, id: Id, i: int)
  {
    && 0 <= i < |p|
    && p[i].id == id
    && forall j :: 0 <= j < i ==> p[j].id != id
  }

  /**
   * The position of the first track with the given id, as the generator
   * expression over the playlist in the stream handler finds it.
   */
  function FirstIndexOf(p: seq<Track>, id: Id): (r: Option<nat>)
    ensures r.Some? ==> IsFirstWithId(p, id, r.value)
    ensures r.None? ==> id !in Ids(p)
  {
    if |p| == 0 then None
    else if p[0].id == id then Some(0)
    else
      match FirstIndexOf(p[1..], id)
      case None => None
      case Some(k) => Some(k + 1)
  }

  /** The playlist with every track whose id is `id` filtered out. */
  function Remove(p: seq<Track>, id: Id): (r: seq<Track>)
    ensures id !in Ids(r)
    ensures |r| <= |p|
    ensures |r| == |p| <==> id !in Ids(p)
  {
    if |p| == 0 then []
    else
      assert p == [p[0]] + p[1..];
      if p[0].id == id then Remove(p[1..], id)
      else [p[0]] + Remove(p[1..], id)
  }

  /** Filtering keeps every other track as often as it occurred, and drops the id's tracks. */
  lemma {:induction false} RemoveCount(p: seq<Track>, id: Id)
    ensures forall t :: multiset(Remove(p, id))[t] == if t.id == id then 0 else multiset(p)[t]
    decreases |p|
  {
    if |p| > 0 {
      RemoveCount(p[1..], id);
      assert p == [p[0]] + p[1..];
    }
  }

  /** Filtering commutes with concatenation, so the kept tracks stay in order. */
  lemma {:induction false} RemoveAppend(a: seq<Track>, b: seq<Track>, id: Id)
    ensures Remove(a + b, id) == Remove(a, id) + Remove(b, id)
    decreases |a|
  {
    if |a| == 0 {
      assert a + b == b;
    } else {
      assert (a + b)[1..] == a[1..] + b;
      RemoveAppend(a[1..], b, id);
    }
  }

  /** A playlist without the id is left exactly as it is. */
  lemma {:induction false} RemoveAbsent(p: seq<Track>, id: Id)
    requires id !in Ids(p)
    ensures Remove(p, id) == p
    decreases |p|
  {
    if |p| > 0 {
      assert p[0] in p;
      assert forall t :: t in p[1..] ==> t in p;
      RemoveAbsent(p[1..], id);
      assert [p[0]] + p[1..] == p;
    }
  }

  /** Distinct ids survive filtering. */
  lemma {:induction false} RemoveKeepsDistinct(p: seq<Track>, id: Id)
    requires DistinctIds(p)
    ensures DistinctIds(Remove(p, id))
    decreases |p|
  {
    if |p| > 0 {
      assert DistinctIds(p[1..]);
      RemoveKeepsDistinct(p[1..], id);
      if p[0].id != id {
        IdOnlyAt(p, 0);
        RemoveIds(p[1..], id);
        DistinctCons(p[0], Remove(p[1..], id));
      }
    }
  }

  /** A track whose id is new to a playlist with distinct ids can go in front. */
  lemma DistinctCons(x: Track, q: seq<Track>)
    requires DistinctIds(q)
    requires x.id !in Ids(q)
    ensures DistinctIds([x] + q)
  {
    forall j | 0 <= j < |q| ensures q[j].id != x.id {
      assert q[j] in q;
    }
  }

  /** Filtering keeps exactly the tracks whose id differs, so only `id` leaves the id sets. */
  lemma RemoveIds(p: seq<Track>, id: Id)
    ensures Ids(Remove(p, id)) == Ids(p) - {id}
    ensures LocalIds(Remove(p, id)) == LocalIds(p) - {id}
  {
    var r := Remove(p, id);
    RemoveCount(p, id);
    forall t ensures t in r <==> t in p && t.id != id {
      assert t in r <==> multiset(r)[t] > 0;
      assert t in p <==> multiset(p)[t] > 0;
    }
  }

  /** With distinct ids, the id of entry `i` occurs in no other entry. */
  lemma IdOnlyAt(p: seq<Track>, i: nat)
    requires DistinctIds(p)
    requires i < |p|
    ensures p[i].id !in Ids(p[..i])
    ensures p[i].id !in Ids(p[i + 1..])
  {
    forall t | t in p[..i] ensures t.id != p[i].id {
      var j :| 0 <= j < i && p[..i][j] == t;
    }
    forall t | t in p[i + 1..] ensures t.id != p[i].id {
      var j :| 0 <= j < |p[i + 1..]| && p[i + 1..][j] == t;
      assert p[i + 1 + j] == t;
    }
  }

  /** With distinct ids, filtering an id out removes exactly its one entry. */
  lemma {:induction false} RemoveSingle(p: seq<Track>, i: nat)
    requires DistinctIds(p)
    requires i < |p|
    ensures Remove(p, p[i].id) == p[..i] + p[i + 1..]
    decreases i
  {
    var id := p[i].id;
    if i == 0 {
      IdOnlyAt(p, 0);
      RemoveAbsent(p[1..], id);
    } else {
      assert p[0].id != id;
      assert DistinctIds(p[1..]);
      RemoveSingle(p[1..], i - 1);
      assert p[1..][i - 1] == p[i];
      assert p[1..][..i - 1] == p[1..i];
      assert p[1..][i..] == p[i + 1..];
      assert [p[0]] + p[1..i] == p[..i];
      calc {
        Remove(p, id);
        [p[0]] + Remove(p[1..], id);
        [p[0]] + (p[1..i] + p[i + 1..]);
        ([p[0]] + p[1..i]) + p[i + 1..];
      }
    }
  }
}
