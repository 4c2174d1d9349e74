/**
 * The ordering the list handler applies: a stable sort of the playlist by
 * ascending `timestamp` (the language's built-in `sorted` with a key is
 * stable). Written as an insertion sort that inserts each track before the
 * first later track whose timestamp is not smaller, so that tracks with
 * equal timestamps keep their relative order.
 */
module TimestampSort {
  import opened Tracks

  /** Timestamps never decrease along the sequence. */
  ghost predicate SortedByTimestamp(p: seq<Track>)
  {
    forall i, j :: 0 <= i < j < |p| ==> p[i].timestamp <= p[j].timestamp
  }

  /** The subsequence of tracks carrying timestamp `k`, in order. */
  function WithTimestamp(p: seq<Track>, k: int): (r: seq<Track>)
    ensures forall t :: t in r ==> t.timestamp == k
  {
    if |p| == 0 then []
    else if p[0].timestamp == k then [p[0]] + WithTimestamp(p[1..], k)
    else WithTimestamp(p[1..], k)
  }

  /** Inserts `t` into a sorted playlist, ahead of every track not older than it. */
  function Insert(t: Track, p: seq<Track>): (r: seq<Track>)
    requires SortedByTimestamp(p)
    ensures SortedByTimestamp(r)
    ensures multiset(r) == multiset(p) + multiset{t}
  {
    if |p| == 0 then [t]
    else if t.timestamp <= p[0].timestamp then [t] + p
    else
      var rest := Insert(t, p[1..]);
      assert p == [p[0]] + p[1..];
      LowerBoundPrepend(p[0], rest, p[1..] + [t]);
      [p[0]] + rest
  }

  /**
   * A track no later than everything in a sorted permutation of `q` can be
   * put in front of it.
   */
  lemma LowerBoundPrepend(x: Track, s: seq<Track>, q: seq<Track>)
    requires SortedByTimestamp(s)
    requires multiset(s) == multiset(q)
    requires forall i :: 0 <= i < |q| ==> x.timestamp <= q[i].timestamp
    ensures SortedByTimestamp([x] + s)
  {
    forall j | 0 <= j < |s|
      ensures x.timestamp <= s[j].timestamp
    {
      assert s[j] in multiset(q);
    }
  }

  /** The playlist in ascending timestamp order. */
  function Sort(p: seq<Track>): (r: seq<Track>)
    ensures SortedByTimestamp(r)
    ensures multiset(r) == multiset(p)
  {
    if |p| == 0 then []
    else
      assert p == [p[0]] + p[1..];
      Insert(p[0], Sort(p[1..]))
  }

  /** Inserting a track only adds it to the subsequence of its own timestamp, at the front. */
  lemma {:induction false} InsertStable(t: Track, p: seq<Track>, k: int)
    requires SortedByTimestamp(p)
    ensures WithTimestamp(Insert(t, p), k)
         == (if t.timestamp == k then [t] else []) + WithTimestamp(p, k)
    decreases |p|
  {
    if |p| == 0 {
    } else if t.timestamp <= p[0].timestamp {
      WithTimestampCons(t, p, k);
    } else {
      InsertStable(t, p[1..], k);
      InsertBehind(t, p);
      StableStep(p[0], t, Insert(t, p[1..]), p[1..], k);
      assert [p[0]] + p[1..] == p;
    }
  }

  /**
   * Putting an older track `x` in front of `r` commutes with `t`'s place at
   * the front of its timestamp's subsequence: at most one of `x` and `t`
   * carries timestamp `k`.
   */
  lemma StableStep(x: Track, t: Track, r: seq<Track>, q: seq<Track>, k: int)
    requires x.timestamp < t.timestamp
    requires WithTimestamp(r, k) == (if t.timestamp == k then [t] else []) + WithTimestamp(q, k)
    ensures WithTimestamp([x] + r, k)
         == (if t.timestamp == k then [t] else []) + WithTimestamp([x] + q, k)
  {
    WithTimestampCons(x, r, k);
    WithTimestampCons(x, q, k);
  }

  /** A track newer than the head is inserted behind it. */
  lemma InsertBehind(t: Track, p: seq<Track>)
    requires SortedByTimestamp(p)
    requires |p| > 0 && p[0].timestamp < t.timestamp
    ensures Insert(t, p) == [p[0]] + Insert(t, p[1..])
  {
  }

  /** Selecting by timestamp looks at the head, then at the rest. */
  lemma WithTimestampCons(x: Track, q: seq<Track>, k: int)
    ensures WithTimestamp([x] + q, k) == (if x.timestamp == k then [x] else []) + WithTimestamp(q, k)
  {
    assert ([x] + q)[1..] == q;
  }

  /** Stability: for every timestamp, the tracks carrying it appear in their original order. */
  lemma {:induction false} SortStable(p: seq<Track>, k: int)
    ensures WithTimestamp(Sort(p), k) == WithTimestamp(p, k)
    decreases |p|
  {
    if |p| > 0 {
      SortStable(p[1..], k);
      InsertStable(p[0], Sort(p[1..]), k);
    }
  }

  /** A playlist already in timestamp order comes back unchanged. */
  lemma {:induction false} SortOfSorted(p: seq<Track>)
    requires SortedByTimestamp(p)
    ensures Sort(p) == p
    decreases |p|
  {
    if |p| > 0 {
      assert SortedByTimestamp(p[1..]);
      SortOfSorted(p[1..]);
      assert [p[0]] + p[1..] == p;
    }
  }
}
