/** apptraffic/src/capture.c: process_transport on the packets of all connections at once. */
module Tracker {
  import opened Bytes
  import opened StreamTable
  import opened Capture
  import Tls

  type Packets = seq<seq<byte>>

  predicate IsTls(k: Key) { k.dport == 443 || k.dport == 8443 }

  // ---- the streams of many connections ----

  /** What the streams are made of. */
  ghost function Parts(s: TlsStream): set<object>
    reads s.reasm
  {
    {s, s.reasm, s.reasm.buf}
  }

  ghost function Reasms(conns: map<Key, TlsStream>): set<object> {
    set k | k in conns :: conns[k].reasm
  }

  ghost function AllParts(conns: map<Key, TlsStream>): set<object>
    reads Reasms(conns)
  {
    set k, o | k in conns && o in Parts(conns[k]) :: o
  }

  /** Every stream is where its own packets lead. */
  ghost predicate AllFollow(conns: map<Key, TlsStream>, own: map<Key, Packets>)
    reads Reasms(conns), AllParts(conns)
  {
    own.Keys == conns.Keys && forall k :: k in conns ==> FollowsOwn(conns, own, k)
  }

  ghost predicate FollowsOwn(conns: map<Key, TlsStream>, own: map<Key, Packets>, k: Key)
    requires k in conns && k in own
    reads Parts(conns[k]), conns[k].reasm
  {
    Follows(conns[k], own[k])
  }

  /** No two streams share a part. */
  ghost predicate Apart(conns: map<Key, TlsStream>)
    reads Reasms(conns)
  {
    forall j, k :: j in conns && k in conns && j != k ==> Disjoint(conns[j], conns[k])
  }

  ghost predicate Disjoint(a: TlsStream, b: TlsStream)
    reads a.reasm, b.reasm
  {
    a != b && a.reasm != b.reasm && a.reasm.buf != b.reasm.buf
  }

  /** Which streams are finished. */
  ghost function Finished(conns: map<Key, TlsStream>): map<Key, bool>
    reads Reasms(conns)
  {
    map k | k in conns :: conns[k].reasm.done
  }

  // ---- what the table says of them ----

  ghost function TlsStreams(streams: Streams): map<Key, bool> {
    map k | k in streams && IsTls(k) :: streams[k].done
  }

  ghost function Restrict<T>(m: map<Key, T>, streams: Streams): map<Key, T> {
    map k | k in m && k in streams :: m[k]
  }

  /** One lookup in the table. */
  ghost predicate Looked(streams: Streams, key: Key, now: int, streams': Streams) {
    && key in streams' && streams'.Keys <= streams.Keys + {key}
    && streams'[key].done == (key in streams && streams[key].done)
    && forall k :: k in streams && k != key ==>
         if k in streams' then streams'[k] == streams[k] else key !in streams && MayGo(streams, k, now)
  }

  /** A new stream for a TLS connection that has none. */
  ghost function Admitted<T>(m: map<Key, T>, key: Key, fresh_: T): map<Key, T> {
    if IsTls(key) && key !in m then m[key := fresh_] else m
  }

  lemma LookedFinished(streams: Streams, key: Key, now: int, streams': Streams)
    requires Looked(streams, key, now, streams')
    ensures key in streams' && streams'.Keys <= streams.Keys + {key}
    ensures Admitted(Restrict(TlsStreams(streams), streams'), key, false) == TlsStreams(streams')
  {
    hide MayGo;
  }

  /** What the table says of one stream, before and after it is finished. */
  lemma FinishedAt(conns: map<Key, TlsStream>, streams: Streams, key: Key)
    requires Finished(conns) == TlsStreams(streams) && key in conns
    ensures key in streams && key in Finished(conns) && Finished(conns)[key] == conns[key].reasm.done
    ensures TlsStreams(streams[key := streams[key].(done := true)]) == TlsStreams(streams)[key := true]
  {
    assert key in Finished(conns);
  }

  lemma OthersAside(streams: Streams, key: Key)
    requires key in streams && !IsTls(key)
    ensures TlsStreams(streams[key := streams[key].(done := true)]) == TlsStreams(streams)
    ensures streams[key := streams[key].(done := true)].Keys == streams.Keys
  {
  }

  lemma KeptToo(streams: Streams, own: map<Key, Packets>, key: Key, now: int,
                  found: map<Key, Packets>, own': map<Key, Packets>)
    requires OthersKept(streams, own, key, now, found) && key in found
    requires own'.Keys == found.Keys && forall k :: k in found && k != key ==> own'[k] == found[k]
    ensures OthersKept(streams, own, key, now, own')
  {
    hide MayGo;
  }

  /** Another connection keeps its packets, or it left the table because it could be reclaimed or was the oldest of a
      full table. */
  ghost predicate OthersKept(streams: Streams, own: map<Key, Packets>, key: Key, now: int, own': map<Key, Packets>) {
    && own'.Keys <= own.Keys + {key}
    && forall k :: k in own && k != key ==>
         if k in own' then own'[k] == own[k] else key !in streams && MayGo(streams, k, now)
  }

  lemma LookedKept(streams: Streams, own: map<Key, Packets>, key: Key, now: int, streams': Streams)
    requires Looked(streams, key, now, streams') && own.Keys == TlsStreams(streams).Keys
    ensures OthersKept(streams, own, key, now, Admitted(Restrict(own, streams'), key, []))
  {
    hide MayGo;
  }

  lemma FinishedKeys(conns: map<Key, TlsStream>, own: map<Key, Packets>)
    requires AllFollow(conns, own)
    ensures own.Keys == conns.Keys == Finished(conns).Keys
  {
  }

  lemma StartsFollowing(s: TlsStream)
    requires s.Valid() && s.Base() == None && !s.reasm.done && s.hosts == []
    ensures Follows(s, [])
  {
    hide TlsStream.Valid, Tells;
    NothingTold();
  }

  // ---- the invariant over the streams, one change at a time ----

  lemma TableIsNoPart(t: Table, conns: map<Key, TlsStream>)
    ensures t !in AllParts(conns) && t !in Reasms(conns)
  {
  }

  lemma TrackerIsNoPart(t: Tracker, conns: map<Key, TlsStream>)
    ensures t !in AllParts(conns) && t !in Reasms(conns)
  {
  }

  lemma DisjointFromAll(conns: map<Key, TlsStream>, s: TlsStream)
    requires Parts(s) !! AllParts(conns)
    ensures forall k :: k in conns ==> Disjoint(conns[k], s)
  {
    forall k | k in conns ensures Disjoint(conns[k], s) {
      PartOfAll(conns, k);
    }
  }

  lemma PartOfAll(conns: map<Key, TlsStream>, key: Key)
    requires key in conns
    ensures Parts(conns[key]) <= AllParts(conns)
  {
  }

  lemma FewerStreams(conns: map<Key, TlsStream>, own: map<Key, Packets>, streams: Streams)
    requires AllFollow(conns, own) && Apart(conns)
    ensures AllFollow(Restrict(conns, streams), Restrict(own, streams)) && Apart(Restrict(conns, streams))
    ensures Finished(Restrict(conns, streams)) == Restrict(Finished(conns), streams)
    ensures AllParts(Restrict(conns, streams)) <= AllParts(conns)
  {
    hide Follows, Disjoint;
    var conns', own' := Restrict(conns, streams), Restrict(own, streams);
    forall k | k in conns' ensures FollowsOwn(conns', own', k) {
      assert FollowsOwn(conns, own, k);
    }
  }

  lemma OneMoreStream(conns: map<Key, TlsStream>, own: map<Key, Packets>, key: Key, s: TlsStream, packets: Packets)
    requires AllFollow(conns, own) && Apart(conns) && key !in conns
    requires Follows(s, packets)
    requires forall k :: k in conns ==> Disjoint(conns[k], s)
    ensures AllFollow(conns[key := s], own[key := packets]) && Apart(conns[key := s])
    ensures Finished(conns[key := s]) == Finished(conns)[key := s.reasm.done]
    ensures AllParts(conns[key := s]) <= AllParts(conns) + Parts(s)
  {
    hide Follows;
    var conns', own' := conns[key := s], own[key := packets];
    forall k | k in conns' ensures FollowsOwn(conns', own', k) {
      assert k == key || FollowsOwn(conns, own, k);
    }
  }

  /** One stream, and the others without it. */
  lemma OtherStreams(conns: map<Key, TlsStream>, own: map<Key, Packets>, key: Key)
    requires AllFollow(conns, own) && Apart(conns) && key in conns
    ensures key in own && Follows(conns[key], own[key])
    ensures AllFollow(conns - {key}, own - {key}) && Apart(conns - {key})
    ensures Finished(conns - {key}) == Finished(conns) - {key}
    ensures AllParts(conns - {key}) <= AllParts(conns) && Parts(conns[key]) <= AllParts(conns)
    ensures forall k :: k in conns && k != key ==> Disjoint(conns[k], conns[key])
    ensures Parts(conns[key]) !! AllParts(conns - {key}) && Parts(conns[key]) !! Reasms(conns - {key})
  {
    hide Follows;
    var conns', own' := conns - {key}, own - {key};
    assert FollowsOwn(conns, own, key);
    forall k | k in conns' ensures FollowsOwn(conns', own', k) {
      assert FollowsOwn(conns, own, k);
    }
  }

  /** calloc and tcp_reasm_init of a new stream. */
  method NewStream(conns: map<Key, TlsStream>, ghost own: map<Key, Packets>, key: Key) returns (s: TlsStream)
    requires AllFollow(conns, own) && Apart(conns) && key !in conns
    ensures fresh(Parts(s)) && AllParts(conns[key := s]) <= AllParts(conns) + Parts(s)
    ensures AllFollow(conns[key := s], own[key := []]) && Apart(conns[key := s])
    ensures Finished(conns[key := s]) == old(Finished(conns))[key := false]
  {
    hide AllFollow, Apart, Finished, Follows, Disjoint;
    ghost var parts := AllParts(conns);
    assert forall o :: o in parts ==> allocated(o);
    assert forall o :: o in Reasms(conns) ==> allocated(o);
    s := new TlsStream();
    assert AllParts(conns) == parts && fresh(Parts(s));
    StartsFollowing(s);
    DisjointFromAll(conns, s);
    OneMoreStream(conns, own, key, s, []);
  }

  /** Feed one stream; the others do not notice. */
  method FeedStream(conns: map<Key, TlsStream>, ghost own: map<Key, Packets>, key: Key, tp: seq<byte>)
    requires AllFollow(conns, own) && Apart(conns) && key in conns && key in own
    modifies conns[key], conns[key].reasm, conns[key].reasm.buf
    ensures AllFollow(conns, own[key := own[key] + [tp]]) && Apart(conns)
    ensures conns[key].reasm.buf == old(conns[key].reasm.buf) || fresh(conns[key].reasm.buf)
    ensures AllParts(conns) <= old(AllParts(conns)) + {conns[key].reasm.buf}
    ensures Finished(conns) == old(Finished(conns))[key := conns[key].reasm.done]
    ensures old(conns[key].reasm.done) ==> conns[key].reasm.done
  {
    hide AllFollow, Apart, Finished, Follows, Disjoint;
    ghost var s, packets := conns[key], own[key];
    ghost var others, theirs := conns - {key}, own - {key};
    OtherStreams(conns, own, key);
    ghost var rest := AllParts(others);
    assert forall o :: o in rest ==> allocated(o);
    Follow(conns[key], tp, packets);
    assert AllParts(others) == rest;
    DisjointFromAll(others, s);
    OneMoreStream(others, theirs, key, s, packets + [tp]);
    assert others[key := s] == conns && theirs[key := packets + [tp]] == own[key := packets + [tp]];
  }

  /** The streams in the table, each with what was fed to it. */
  class Tracker {
    const table: Table
    var conns: map<Key, TlsStream>
    ghost var own: map<Key, Packets>    // the packets of each connection since it is tracked
    ghost var repr: set<object>

    ghost predicate Valid()
      reads this, table, Reasms(conns), AllParts(conns)
    {
      table.Valid() && Streams() && Finished(conns) == TlsStreams(table.streams)
    }

    ghost predicate Streams()
      reads this, Reasms(conns), AllParts(conns)
    {
      AllFollow(conns, own) && Apart(conns) && AllParts(conns) <= repr
    }

    constructor ()
      ensures fresh(table) && repr == {} && table.streams == map[]
      ensures Valid() && conns == map[] && own == map[]
    {
      table := new Table();
      conns, own, repr := map[], map[], {};
    }

    /** Look the stream up in the table, or make room for it there; this touches no stream. */
    method Refresh(key: Key, now: int)
      requires table.Valid() && Streams()
      modifies table
      ensures table.Valid() && Streams() && Finished(conns) == old(Finished(conns))
      ensures Looked(old(table.streams), key, now, table.streams)
    {
      hide AllFollow, Apart, Finished, MayGo;
      TableIsNoPart(table, conns);
      table.FindOrCreate(key, now);
    }

    /** stream_free of the streams that left the table. */
    method DropUntracked()
      requires Streams()
      modifies this`conns, this`own
      ensures conns == Restrict(old(conns), table.streams) && own == Restrict(old(own), table.streams)
      ensures Streams()
      ensures Finished(conns) == Restrict(old(Finished(conns)), table.streams)
    {
      hide AllFollow, Apart, Finished;
      FewerStreams(conns, own, table.streams);
      TrackerIsNoPart(this, Restrict(conns, table.streams));
      conns := map k | k in conns && k in table.streams :: conns[k];
      own := Restrict(own, table.streams);
    }

    /** A stream for a connection that has none. */
    method Admit(key: Key)
      requires Streams() && key !in conns
      modifies this
      ensures Streams() && fresh(repr - old(repr)) && key in conns
      ensures conns == old(conns)[key := conns[key]] && own == old(own)[key := []]
      ensures Finished(conns) == old(Finished(conns))[key := false]
    {
      hide AllFollow, Apart, Finished;
      var s := NewStream(conns, own, key);
      TrackerIsNoPart(this, conns[key := s]);
      conns, own, repr := conns[key := s], own[key := []], repr + Parts(s);
    }

    /** stream_find_or_create. */
    method FindOrCreate(key: Key, now: int)
      requires Valid()
      modifies this, table
      ensures Valid() && fresh(repr - old(repr)) && key in table.streams && (key in conns <==> IsTls(key))
      ensures OthersKept(old(table.streams), old(own), key, now, own)
      ensures table.streams.Keys <= old(table.streams).Keys + {key}
      ensures key in own ==> own[key] == if key in old(own) then old(own)[key] else []
    {
      hide AllFollow, Apart, Looked, OthersKept, Finished, Table.Valid;
      ghost var streams, before := table.streams, own;
      FinishedKeys(conns, own);
      Refresh(key, now);
      LookedFinished(streams, key, now, table.streams);
      LookedKept(streams, own, key, now, table.streams);
      DropUntracked();
      FinishedKeys(conns, own);
      if IsTls(key) && key !in conns { Admit(key); }
    }

    /** Feed a stream and keep its packets. */
    method FeedOne(key: Key, tp: seq<byte>)
      requires Streams() && key in conns && key in own
      modifies this`own, this`repr, conns[key], conns[key].reasm, conns[key].reasm.buf
      ensures Streams() && fresh(repr - old(repr)) && conns[key].reasm.buf in repr
      ensures own == old(own)[key := old(own)[key] + [tp]]
      ensures Finished(conns) == old(Finished(conns))[key := conns[key].reasm.done]
      ensures old(conns[key].reasm.done) ==> conns[key].reasm.done
    {
      hide AllFollow, Apart, Finished, AllParts;
      PartOfAll(conns, key);
      FeedStream(conns, own, key, tp);
      TrackerIsNoPart(this, conns);
      own, repr := own[key := own[key] + [tp]], repr + {conns[key].reasm.buf};
    }

    /** Feed a tracked stream; the table learns when its first record is consumed. */
    method FeedTracked(key: Key, tp: seq<byte>)
      requires Valid() && key in conns && key in own
      modifies this`own, this`repr, table, repr
      ensures Valid() && fresh(repr - old(repr))
      ensures own == old(own)[key := old(own)[key] + [tp]]
      ensures table.streams.Keys == old(table.streams).Keys
    {
      hide AllFollow, Apart, Finished, Follows, TlsStreams;
      ghost var before, done := table.streams, Finished(conns);
      FinishedAt(conns, table.streams, key);
      PartOfAll(conns, key);
      FeedOne(key, tp);
      TableIsNoPart(table, conns);
      if conns[key].reasm.done {
        table.Finish(key);
        assert table.streams.Keys == before.Keys;
      } else {
        assert done[key := false] == done;
      }
    }

    /** process_transport for a TCP packet to a TLS port. */
    method Packet(key: Key, tp: seq<byte>, now: int)
      requires Valid() && IsTls(key)
      modifies this, table, repr
      ensures Valid() && fresh(repr - old(repr))
      ensures if DecodeTcp(tp) == None then own == old(own) && table.streams == old(table.streams) else
                && OthersKept(old(table.streams), old(own), key, now, own)
                && key in own && own[key] == (if key in old(own) then old(own)[key] else []) + [tp]
                && table.streams.Keys <= old(table.streams).Keys + {key}
    {
      hide AllFollow, Apart, Finished, MayGo, OthersKept, TlsStreams;
      if |tp| < 20 || tp[12] / 16 * 4 > |tp| || tp[12] / 16 * 4 < 20 { return; }
      FindOrCreate(key, now);
      FinishedKeys(conns, own);
      ghost var found := own;
      FeedTracked(key, tp);
      KeptToo(old(table.streams), old(own), key, now, found, own);
    }

    /** A packet of another kind of stream in the same table, which may finish that stream. */
    method OtherPacket(key: Key, tp: seq<byte>, now: int, finishes: bool)
      requires Valid() && !IsTls(key)
      modifies this, table
      ensures Valid() && fresh(repr - old(repr))
      ensures if DecodeTcp(tp) == None then own == old(own) && table.streams == old(table.streams) else
                && OthersKept(old(table.streams), old(own), key, now, own)
                && table.streams.Keys <= old(table.streams).Keys + {key}
    {
      hide AllFollow, Apart, Finished, MayGo, OthersKept, TlsStreams;
      if |tp| < 20 || tp[12] / 16 * 4 > |tp| || tp[12] / 16 * 4 < 20 { return; }
      FindOrCreate(key, now);
      if finishes { FinishOther(key); }
    }

    method FinishOther(key: Key)
      requires Valid() && !IsTls(key) && key in table.streams
      modifies table
      ensures Valid() && table.streams.Keys == old(table.streams).Keys
    {
      hide AllFollow, Apart, Finished, TlsStreams;
      OthersAside(table.streams, key);
      TableIsNoPart(table, conns);
      table.Finish(key);
    }
  }

  // ---- any interleaving of many connections ----

  /** A TCP packet of some connection, when it is captured, and whether it finishes a stream that is not TLS. */
  datatype Arrival = Arrival(key: Key, tp: seq<byte>, now: int, finishes: bool)

  /** The packets of one connection, in order, without those that have no valid TCP header. */
  function PacketsOf(arrivals: seq<Arrival>, k: Key): Packets {
    if arrivals == [] then []
    else
      var a := arrivals[|arrivals| - 1];
      PacketsOf(arrivals[..|arrivals| - 1], k) + if a.key == k && DecodeTcp(a.tp).Some? then [a.tp] else []
  }

  function KeysOf(arrivals: seq<Arrival>): set<Key> { set a <- arrivals :: a.key }

  /** The last packets of a connection. */
  ghost predicate Tail(own: Packets, all: Packets) {
    |own| <= |all| && own == all[|all| - |own|..]
  }

  /** What is known of each connection is the tail of its packets, and all of them while there are few connections. */
  ghost predicate Tracked(own: map<Key, Packets>, keys: set<Key>, arrivals: seq<Arrival>) {
    && keys <= KeysOf(arrivals)
    && (forall k :: k in own ==> Tail(own[k], PacketsOf(arrivals, k)))
    && (|KeysOf(arrivals)| <= STREAM_MAX ==>
          forall k :: IsTls(k) && PacketsOf(arrivals, k) != [] ==> k in own && own[k] == PacketsOf(arrivals, k))
  }

  lemma KeysGrow(arrivals: seq<Arrival>, a: Arrival)
    ensures KeysOf(arrivals + [a]) == KeysOf(arrivals) + {a.key}
    ensures |KeysOf(arrivals)| <= |KeysOf(arrivals + [a])|
  {
    var keys, more := KeysOf(arrivals), KeysOf(arrivals + [a]);
    assert forall b :: b in arrivals + [a] <==> b in arrivals || b == a;
    SubsetSize(keys, more);
  }

  lemma PacketsMore(arrivals: seq<Arrival>, a: Arrival, k: Key)
    ensures PacketsOf(arrivals + [a], k) ==
            PacketsOf(arrivals, k) + if a.key == k && DecodeTcp(a.tp).Some? then [a.tp] else []
  {
    assert (arrivals + [a])[..|arrivals|] == arrivals;
  }

  lemma NothingTracked()
    ensures Tracked(map[], {}, [])
  {
  }

  /** Nobody has to go while there are at most 4096 connections. */
  lemma NobodyGoes(streams: Streams, arrivals: seq<Arrival>, a: Arrival, k: Key)
    requires streams.Keys <= KeysOf(arrivals) && a.key !in streams && MayGo(streams, k, a.now)
    ensures |KeysOf(arrivals + [a])| > STREAM_MAX
  {
    KeysGrow(arrivals, a);
    SubsetSize(streams.Keys + {a.key}, KeysOf(arrivals + [a]));
  }

  lemma TailMore(own: Packets, all: Packets, tp: seq<byte>)
    requires Tail(own, all)
    ensures Tail(own + [tp], all + [tp]) && Tail([tp], all + [tp]) && Tail(own, all + [])
  {
    assert all + [] == all;
  }

  /** One arrival more. */
  lemma TrackedMore(streams: Streams, own: map<Key, Packets>, arrivals: seq<Arrival>, a: Arrival,
                    keys: set<Key>, own': map<Key, Packets>)
    requires Tracked(own, streams.Keys, arrivals) && DecodeTcp(a.tp).Some?
    requires forall k :: k in own ==> k in streams && IsTls(k)
    requires forall k :: k in own' ==> k in own || k == a.key
    requires OthersKept(streams, own, a.key, a.now, own') && keys <= streams.Keys + {a.key}
    requires IsTls(a.key) ==> a.key in own' && own'[a.key] == (if a.key in own then own[a.key] else []) + [a.tp]
    requires !IsTls(a.key) ==> a.key !in own'
    ensures Tracked(own', keys, arrivals + [a])
  {
    hide DecodeTcp, MayGo, PacketsOf, KeysOf, Tail;
    var more := arrivals + [a];
    KeysGrow(arrivals, a);
    forall k | k in own' ensures Tail(own'[k], PacketsOf(more, k)) {
      TailOfOne(own, arrivals, a, own', k);
    }
    if |KeysOf(more)| <= STREAM_MAX {
      forall k | IsTls(k) && PacketsOf(more, k) != [] ensures k in own' && own'[k] == PacketsOf(more, k) {
        AllOfOne(streams, own, arrivals, a, own', k);
      }
    }
  }

  lemma TailOfOne(own: map<Key, Packets>, arrivals: seq<Arrival>, a: Arrival, own': map<Key, Packets>, k: Key)
    requires k in own ==> Tail(own[k], PacketsOf(arrivals, k))
    requires DecodeTcp(a.tp).Some? && k in own'
    requires if k == a.key then own'[k] == (if k in own then own[k] else []) + [a.tp] else k in own && own'[k] == own[k]
    ensures Tail(own'[k], PacketsOf(arrivals + [a], k))
  {
    hide DecodeTcp, PacketsOf, Tail;
    PacketsMore(arrivals, a, k);
    NoTail(PacketsOf(arrivals, k));
    TailMore(if k in own then own[k] else [], PacketsOf(arrivals, k), a.tp);
  }

  lemma AllOfOne(streams: Streams, own: map<Key, Packets>, arrivals: seq<Arrival>,
                   a: Arrival, own': map<Key, Packets>, k: Key)
    requires k in own ==> k in streams
    requires PacketsOf(arrivals, k) != [] ==> k in own && own[k] == PacketsOf(arrivals, k)
    requires k in own ==> Tail(own[k], PacketsOf(arrivals, k))
    requires DecodeTcp(a.tp).Some? && IsTls(k) &&
             streams.Keys <= KeysOf(arrivals) && |KeysOf(arrivals + [a])| <= STREAM_MAX
    requires OthersKept(streams, own, a.key, a.now, own')
    requires k == a.key ==> k in own' && own'[k] == (if k in own then own[k] else []) + [a.tp]
    requires PacketsOf(arrivals + [a], k) != []
    ensures k in own' && own'[k] == PacketsOf(arrivals + [a], k)
  {
    hide DecodeTcp, PacketsOf, MayGo, KeysOf;
    PacketsMore(arrivals, a, k);
    var all := PacketsOf(arrivals, k);
    if k == a.key {
      assert k !in own ==> all == [];
      assert k in own && all == [] ==> own[k] == [];
    } else {
      assert all + [] == all;
      if k !in own' { NobodyGoes(streams, arrivals, a, k); }
    }
  }

  lemma NoTail(all: Packets)
    ensures Tail([], all)
  {
  }

  lemma TrackedSame(own: map<Key, Packets>, keys: set<Key>, arrivals: seq<Arrival>, a: Arrival)
    requires Tracked(own, keys, arrivals) && DecodeTcp(a.tp) == None
    ensures Tracked(own, keys, arrivals + [a])
  {
    hide DecodeTcp, PacketsOf, KeysOf, Tail;
    KeysGrow(arrivals, a);
    forall k ensures PacketsOf(arrivals + [a], k) == PacketsOf(arrivals, k) {
      PacketsMore(arrivals, a, k);
      assert PacketsOf(arrivals, k) + [] == PacketsOf(arrivals, k);
    }
  }

  lemma OwnInTable(t: Tracker)
    requires t.Valid()
    ensures forall k :: k in t.own <==> k in t.table.streams && IsTls(k)
  {
    FinishedKeys(t.conns, t.own);
  }

  /** process_transport on all packets of all connections, from an empty table. */
  method ProcessAll(arrivals: seq<Arrival>) returns (t: Tracker)
    ensures t.Valid() && Tracked(t.own, t.table.streams.Keys, arrivals)
  {
    hide Tracker.Valid, Tracked, DecodeTcp, OthersKept, IsTls;
    t := new Tracker();
    NothingTracked();
    assert arrivals[..0] == [] && t.table.streams.Keys == {};
    assert arrivals[..|arrivals|] == arrivals;
    for i := 0 to |arrivals|
      invariant fresh(t) && fresh(t.table) && fresh(t.repr) && t.Valid()
      invariant Tracked(t.own, t.table.streams.Keys, arrivals[..i])
    {
      var a := arrivals[i];
      ghost var streams, before := t.table.streams, t.own;
      OwnInTable(t);
      if IsTls(a.key) {
        t.Packet(a.key, a.tp, a.now);
      } else {
        t.OtherPacket(a.key, a.tp, a.now, a.finishes);
      }
      OwnInTable(t);
      assert arrivals[..i + 1] == arrivals[..i] + [a];
      if DecodeTcp(a.tp) == None {
        TrackedSame(before, streams.Keys, arrivals[..i], a);
      } else {
        KeptKeys(streams, before, a.key, a.now, t.own);
        TrackedMore(streams, before, arrivals[..i], a, t.table.streams.Keys, t.own);
      }
    }
  }

  lemma KeptKeys(streams: Streams, own: map<Key, Packets>, key: Key, now: int, own': map<Key, Packets>)
    requires OthersKept(streams, own, key, now, own')
    ensures forall k :: k in own' ==> k in own || k == key
  {
  }

  /** Among all the connections whose packets interleave, one that is tracked has reported what its own packets since
      then tell: its server name, once, exactly if they cover the record. */
  lemma TrackedConnection(t: Tracker, k: Key, ch: Tls.ClientHello, stream: seq<byte>)
    requires t.Valid() && k in t.own && HelloStream(t.own[k], ch, stream)
    ensures k in t.conns && t.conns[k].hosts == Reported(t.own[k], ch)
  {
    hide Tells, HelloStream, Reported;
    assert FollowsOwn(t.conns, t.own, k);
    TellsOne(t.own[k], t.conns[k].hosts, t.conns[k].reasm.done, ch, stream);
  }

  /** With at most 4096 connections, however their packets interleave, every connection reports what all its packets
      tell. */
  lemma EveryConnection(t: Tracker, arrivals: seq<Arrival>, k: Key, ch: Tls.ClientHello, stream: seq<byte>)
    requires t.Valid() && Tracked(t.own, t.table.streams.Keys, arrivals) && |KeysOf(arrivals)| <= STREAM_MAX
    requires IsTls(k) && PacketsOf(arrivals, k) != [] && HelloStream(PacketsOf(arrivals, k), ch, stream)
    ensures k in t.conns && t.conns[k].hosts == Reported(PacketsOf(arrivals, k), ch)
  {
    hide HelloStream, Reported, PacketsOf, KeysOf, Tracker.Valid;
    TrackedConnection(t, k, ch, stream);
  }

  /** The same for a connection on a TLS port whose packets are a SYN and slices of a stream that starts with a
      ClientHello: its server name is reported once, exactly if its packets hold every byte of the record. */
  lemma EveryStream(t: Tracker, arrivals: seq<Arrival>, k: Key, syn: seq<byte>, packets: Packets,
                    ch: Tls.ClientHello, stream: seq<byte>)
    requires t.Valid() && Tracked(t.own, t.table.streams.Keys, arrivals) && |KeysOf(arrivals)| <= 4096
    requires k.dport == 443 || k.dport == 8443
    requires PacketsOf(arrivals, k) == [syn] + packets
    requires DecodeTcp(syn).Some? && DecodeTcp(syn).value.syn
    requires forall tp :: tp in packets ==> CarriesSlice(DecodeTcp(syn).value.sq, tp, stream)
    requires ch.WellFormed() && |ch.Record()| <= 8192 && ch.Record() <= stream
    ensures k in t.conns
    ensures if RecordCaptured(DecodeTcp(syn).value.sq, packets, stream, ch) then RightHosts(ch, t.conns[k].hosts)
            else t.conns[k].hosts == []
  {
    hide HelloStream, Reported, PacketsOf, KeysOf, Tracker.Valid,
         RecordCaptured, RightHosts, DecodeTcp, CarriesSlice, Tracked;
    AfterSyn(syn, packets, ch, stream);
    EveryConnection(t, arrivals, k, ch, stream);
  }
}
