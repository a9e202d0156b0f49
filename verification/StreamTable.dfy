/** apptraffic/src/capture.c: which connections are tracked, and which one gives way when the table is full. */
module StreamTable {
  import opened Bytes

  const STREAM_MAX: nat := 4096
  const STREAM_IDLE: int := 120

  datatype Key = Key(v6: bool, src: seq<byte>, dst: seq<byte>, sport: nat, dport: nat)

  /** What decides the fate of a stream: when it was last seen, and whether its first record is consumed. */
  datatype Stream = Stream(lastSeen: int, done: bool)

  type Streams = map<Key, Stream>

  predicate Reclaimable(s: Stream, now: int) {
    s.done || now - s.lastSeen > STREAM_IDLE
  }

  ghost predicate LeastRecent(streams: Streams, k: Key) {
    k in streams && forall j :: j in streams ==> streams[k].lastSeen <= streams[j].lastSeen
  }

  /** A stream goes only if the table is full, and then because it is finished or idle, or because every stream is busy
      and none was seen longer ago. */
  ghost predicate MayGo(streams: Streams, k: Key, now: int) {
    && |streams| == STREAM_MAX && k in streams
    && (Reclaimable(streams[k], now) ||
        (LeastRecent(streams, k) && forall j :: j in streams ==> !Reclaimable(streams[j], now)))
  }

  class Table {
    var streams: Streams
    var count: nat             // the C counter of all entries in all chains

    ghost predicate Valid()
      reads this
    {
      count == |streams| <= STREAM_MAX
    }

    constructor ()
      ensures Valid() && streams == map[]
    {
      streams, count := map[], 0;
    }

    /** Unlink one stream. */
    method Remove(k: Key)
      requires Valid() && k in streams
      modifies this
      ensures Valid() && streams == old(streams) - {k} && count == old(count) - 1
    {
      assert (streams - {k}).Keys == streams.Keys - {k};
      assert |streams - {k}| == |(streams - {k}).Keys|;
      streams := streams - {k};
      count := count - 1;
    }

    /** The first record of the stream is consumed. */
    method Finish(k: Key)
      requires Valid() && k in streams
      modifies this
      ensures Valid() && streams == old(streams)[k := old(streams)[k].(done := true)]
    {
      assert streams[k := streams[k].(done := true)].Keys == streams.Keys;
      streams := streams[k := streams[k].(done := true)];
    }

    /** stream_age: reclaim finished and idle streams. */
    method Age(now: int)
      requires Valid()
      modifies this
      ensures Valid() && count <= old(count)
      ensures streams == map k | k in old(streams) && !Reclaimable(old(streams)[k], now) :: old(streams)[k]
      ensures forall k :: k in streams <==>
                k in old(streams) && !old(streams)[k].done && now - old(streams)[k].lastSeen <= 120
    {
      var todo := streams.Keys;
      while todo != {}
        invariant Valid() && count <= old(count) && todo <= streams.Keys <= old(streams).Keys
        invariant forall k :: k in streams ==> streams[k] == old(streams)[k]
        invariant forall k :: k in old(streams) && k !in todo ==> (k in streams <==> !Reclaimable(old(streams)[k], now))
        decreases todo
      {
        var k :| k in todo;
        if streams[k].done || now - streams[k].lastSeen > STREAM_IDLE {
          Remove(k);
        }
        todo := todo - {k};
      }
    }

    /** The least recently used stream anywhere. */
    method FindOldest() returns (oldest: Key)
      requires Valid() && streams != map[]
      ensures LeastRecent(streams, oldest)
    {
      var todo := streams.Keys;
      oldest :| oldest in todo;
      while todo != {}
        invariant oldest in streams && todo <= streams.Keys
        invariant forall j :: j in streams && j !in todo ==> streams[oldest].lastSeen <= streams[j].lastSeen
        decreases todo
      {
        var t :| t in todo;
        if streams[t].lastSeen < streams[oldest].lastSeen { oldest := t; }
        todo := todo - {t};
      }
    }

    /** stream_find_or_create. */
    method FindOrCreate(key: Key, now: int)
      requires Valid()
      modifies this
      ensures Valid() && key in streams && streams[key].lastSeen == now
      ensures streams[key].done == (key in old(streams) && old(streams)[key].done)
      ensures streams.Keys <= old(streams).Keys + {key}
      ensures forall k :: k in old(streams) && k != key ==>
                if k in streams then streams[k] == old(streams)[k]
                else key !in old(streams) && MayGo(old(streams), k, now)
      ensures forall k :: k in old(streams) && k !in streams ==>
                && |old(streams)| == 4096
                && (old(streams)[k].done || now - old(streams)[k].lastSeen > 120 ||
                    forall j :: j in old(streams) ==>
                      && old(streams)[k].lastSeen <= old(streams)[j].lastSeen
                      && !old(streams)[j].done && now - old(streams)[j].lastSeen <= 120)
    {
      hide MayGo;
      WhoMayGo(streams, now);
      if key in streams {
        streams := streams[key := streams[key].(lastSeen := now)];
        return;
      }
      if count >= STREAM_MAX { MakeRoom(now); }
      assert streams[key := Stream(now, false)].Keys == streams.Keys + {key};
      streams := streams[key := Stream(now, false)];
      count := count + 1;
    }

    /** The table is full: reclaim what is finished or idle, or else drop the least recently used stream. */
    method MakeRoom(now: int)
      requires Valid() && count == STREAM_MAX
      modifies this
      ensures Valid() && count < STREAM_MAX && Culled(old(streams), streams, now)
    {
      hide Culled, LeastRecent;
      Age(now);
      AgedIsCulled(old(streams), streams, now);
      if count >= STREAM_MAX {
        NoneReclaimed(old(streams), streams, now);
        var oldest := FindOldest();
        Remove(oldest);
        OldestIsCulled(old(streams), oldest, now);
      }
    }
  }

  lemma WhoMayGo(streams: Streams, now: int)
    ensures forall k :: MayGo(streams, k, now) ==>
              && |streams| == 4096 && k in streams
              && (streams[k].done || now - streams[k].lastSeen > 120 ||
                  forall j :: j in streams ==>
                    && streams[k].lastSeen <= streams[j].lastSeen
                    && !streams[j].done && now - streams[j].lastSeen <= 120)
  {
  }

  /** What is left is unchanged, and what went could go. */
  ghost predicate Culled(before: Streams, after: Streams, now: int) {
    && (forall k :: k in after ==> k in before && after[k] == before[k])
    && (forall k :: k in before && k !in after ==> MayGo(before, k, now))
  }

  lemma AgedIsCulled(before: Streams, after: Streams, now: int)
    requires |before| == STREAM_MAX
    requires after == map k | k in before && !Reclaimable(before[k], now) :: before[k]
    ensures Culled(before, after, now)
  {
  }

  lemma OldestIsCulled(before: Streams, k: Key, now: int)
    requires |before| == STREAM_MAX && LeastRecent(before, k)
    requires forall j :: j in before ==> !Reclaimable(before[j], now)
    ensures Culled(before, before - {k}, now)
  {
  }

  /** If ageing freed nothing, there was nothing to free. */
  lemma NoneReclaimed(before: Streams, after: Streams, now: int)
    requires after == map k | k in before && !Reclaimable(before[k], now) :: before[k]
    requires |after| >= |before|
    ensures after == before && forall k :: k in before ==> !Reclaimable(before[k], now)
  {
    assert |before| == |before.Keys| && |after| == |after.Keys| && after.Keys <= before.Keys;
    SameSize(after.Keys, before.Keys);
  }

  lemma SameSize(a: set<Key>, b: set<Key>)
    requires a <= b && |a| >= |b|
    ensures a == b
  {
    if x :| x in a {
      SameSize(a - {x}, b - {x});
    }
  }
}
