/** wol-proxy/src/wol-proxy.c: the 32-slot duplicate filter against an unbounded history. */
module DupFilter {
  import opened Bytes

  const DUP_MAX: nat := 32
  const DUP_WINDOW_SECS: int := 5

  type Mac = seq<byte>

  /** A slot of the table; `seen == 0` marks an empty one. */
  datatype Entry = Entry(src: uint32, mac: Mac, seen: int)

  const EMPTY: Entry := Entry(0, [], 0)

  predicate SamePair(e: Entry, src: uint32, mac: Mac) { e.src == src && e.mac == mac }

  // ---- the ideal: remember every accepted packet for ever ----

  /** The pair was accepted less than five seconds ago. */
  ghost predicate Recent(history: seq<Entry>, src: uint32, mac: Mac, now: int) {
    exists i :: 0 <= i < |history| && SamePair(history[i], src, mac) && now - history[i].seen < DUP_WINDOW_SECS
  }

  ghost predicate Chronological(history: seq<Entry>) {
    && (forall i :: 0 <= i < |history| ==> history[i].seen > 0)
    && (forall i, j :: 0 <= i < j < |history| ==> history[i].seen <= history[j].seen)
  }

  lemma RecentIs(history: seq<Entry>, src: uint32, mac: Mac, now: int)
    ensures Recent(history, src, mac, now) <==>
            exists e :: e in history && e.src == src && e.mac == mac && now - e.seen < 5
    ensures Since(history, now - DUP_WINDOW_SECS + 1) == set i: nat | i < |history| && now - history[i].seen < 5
  {
    if e :| e in history && e.src == src && e.mac == mac && now - e.seen < 5 {
      var i :| 0 <= i < |history| && history[i] == e;
    }
  }

  /** The positions of the packets accepted at time t or later. */
  ghost function Since(history: seq<Entry>, t: int): set<nat> {
    set i: nat | i < |history| && history[i].seen >= t
  }

  // ---- where the slots come from ----

  /** origin[s] is the position in the history of the packet in slot s, or -1 for a slot never used. */
  ghost predicate Traced(tab: seq<Entry>, history: seq<Entry>, origin: seq<int>) {
    && |origin| == |tab|
    && (forall s :: 0 <= s < |tab| ==> -1 <= origin[s] < |history|)
    && (forall s :: 0 <= s < |tab| ==> if origin[s] == -1 then tab[s].seen == 0 else tab[s] == history[origin[s]])
    && (forall s, t :: 0 <= s < t < |tab| ==> origin[s] == -1 || origin[s] != origin[t])
  }

  /** A packet that is no longer in the table was followed, or accompanied in its own second, by enough others. */
  ghost predicate Remembered(tab: seq<Entry>, history: seq<Entry>) {
    forall i :: 0 <= i < |history| ==> history[i] in tab || |Since(history, history[i].seen)| > |tab|
  }

  ghost predicate Inv(tab: seq<Entry>, history: seq<Entry>, origin: seq<int>) {
    Traced(tab, history, origin) && (Chronological(history) ==> Remembered(tab, history))
  }

  ghost predicate Oldest(tab: seq<Entry>, o: nat) {
    o < |tab| && forall s :: 0 <= s < |tab| ==> tab[o].seen <= tab[s].seen
  }

  /** Pigeonhole: if the oldest slot is in use, so are all the others, each by a different packet no older than it. */
  lemma {:induction false} SlotsAreDistinctPackets(tab: seq<Entry>, history: seq<Entry>, origin: seq<int>,
      o: nat, n: nat)
    returns (used: set<nat>)
    requires Traced(tab, history, origin) && Chronological(history) && Oldest(tab, o) && tab[o].seen != 0 && n <= |tab|
    ensures |used| == n && used <= Since(history, tab[o].seen)
    ensures forall i :: i in used ==> exists s :: 0 <= s < n && origin[s] == i
  {
    if n == 0 {
      return {};
    }
    var rest := SlotsAreDistinctPackets(tab, history, origin, o, n - 1);
    assert tab[o].seen > 0 by {
      assert origin[o] != -1;
    }
    assert origin[n - 1] != -1;
    assert origin[n - 1] !in rest;
    used := rest + {origin[n - 1]};
  }

  lemma SinceGrows(history: seq<Entry>, e: Entry, t: int)
    ensures Since(history, t) <= Since(history + [e], t)
    ensures |Since(history, t)| <= |Since(history + [e], t)|
    ensures e.seen >= t ==> |Since(history + [e], t)| == |Since(history, t)| + 1
  {
    hide Since;
    SinceMore(history, e, t);
    SinceBelow(history, t);
  }

  lemma SinceMore(history: seq<Entry>, e: Entry, t: int)
    ensures Since(history + [e], t) == Since(history, t) + if e.seen >= t then {|history|} else {}
  {
    var more := history + [e];
    forall i: nat | i < |history| ensures i in Since(more, t) <==> i in Since(history, t) {
      assert more[i] == history[i];
    }
    assert more[|history|] == e;
  }

  lemma SinceBelow(history: seq<Entry>, t: int)
    ensures |history| !in Since(history, t)
  {
  }

  lemma TracedUpdate(tab: seq<Entry>, history: seq<Entry>, origin: seq<int>, o: nat, e: Entry)
    requires Traced(tab, history, origin) && o < |tab|
    ensures Traced(tab[o := e], history + [e], origin[o := |history|])
  {
    var tab', history', origin' := tab[o := e], history + [e], origin[o := |history|];
    forall s | 0 <= s < |tab| && origin'[s] != -1 ensures tab'[s] == history'[origin'[s]] {
      assert s == o || tab[s] == history[origin[s]];
    }
  }

  /** The packet that gives way was kept until 32 others, no older, were accepted. */
  lemma EvictedWasCrowdedOut(tab: seq<Entry>, history: seq<Entry>, origin: seq<int>, o: nat, e: Entry, i: nat)
    requires Inv(tab, history, origin) && Chronological(history) && Oldest(tab, o) && i < |history|
    requires history[i] in tab && history[i] !in tab[o := e] && e.seen >= history[i].seen
    ensures |Since(history + [e], history[i].seen)| > |tab|
  {
    var tab' := tab[o := e];
    forall s | 0 <= s < |tab| && s != o ensures tab[s] in tab' {
      assert tab'[s] == tab[s];
    }
    assert tab[o] == history[i];
    var used := SlotsAreDistinctPackets(tab, history, origin, o, |tab|);
    SubsetSize(used, Since(history, tab[o].seen));
    SinceGrows(history, e, history[i].seen);
  }

  lemma RememberedUpdate(tab: seq<Entry>, history: seq<Entry>, origin: seq<int>, o: nat, e: Entry)
    requires Inv(tab, history, origin) && Chronological(history) && Oldest(tab, o)
    requires forall i :: 0 <= i < |history| ==> history[i].seen <= e.seen
    ensures Remembered(tab[o := e], history + [e])
  {
    var history', tab' := history + [e], tab[o := e];
    assert tab'[o] == e;
    forall i | 0 <= i < |history'| ensures history'[i] in tab' || |Since(history', history'[i].seen)| > |tab'| {
      if i < |history| && history[i] !in tab' {
        if history[i] in tab {
          EvictedWasCrowdedOut(tab, history, origin, o, e, i);
        } else {
          SinceGrows(history, e, history[i].seen);
        }
      }
    }
  }

  /** Overwriting the oldest slot keeps the invariant. */
  lemma AcceptKeeps(tab: seq<Entry>, history: seq<Entry>, origin: seq<int>, o: nat, e: Entry)
    requires Inv(tab, history, origin) && Oldest(tab, o)
    ensures |origin| == |tab| && Inv(tab[o := e], history + [e], origin[o := |history|])
  {
    TracedUpdate(tab, history, origin, o, e);
    if Chronological(history + [e]) {
      EarlierChronological(history, e);
      RememberedUpdate(tab, history, origin, o, e);
    }
  }

  lemma EarlierChronological(history: seq<Entry>, e: Entry)
    requires Chronological(history + [e])
    ensures Chronological(history) && forall i :: 0 <= i < |history| ==> history[i].seen <= e.seen
  {
    var more := history + [e];
    assert forall i :: 0 <= i < |history| ==> history[i] == more[i];
    assert more[|history|] == e;
  }

  /** The table, with the packets it ever accepted. */
  class DupTable {
    const tab: array<Entry>
    ghost var history: seq<Entry>
    ghost var origin: seq<int>

    ghost predicate Valid()
      reads this, tab
    {
      tab.Length == DUP_MAX && Inv(tab[..], history, origin)
    }

    constructor ()
      ensures Valid() && fresh(tab) && history == []
    {
      tab := new Entry[DUP_MAX](_ => EMPTY);
      history := [];
      origin := seq(DUP_MAX, _ => -1);
    }

    predicate Matches(e: Entry, src: uint32, mac: Mac, now: int) {
      e.seen != 0 && SamePair(e, src, mac) && now - e.seen < DUP_WINDOW_SECS
    }

    /** One pass over the slots: a match, or the first of the oldest ones. */
    method Scan(src: uint32, mac: Mac, now: int) returns (dup: bool, oldest: nat)
      requires tab.Length > 0
      ensures dup <==> exists e :: e in tab[..] && Matches(e, src, mac, now)
      ensures !dup ==> Oldest(tab[..], oldest)
    {
      oldest := 0;
      var oldestT := tab[0].seen;
      for i := 0 to tab.Length
        invariant oldest < tab.Length && oldestT == tab[oldest].seen
        invariant forall s :: 0 <= s < i ==> oldestT <= tab[s].seen && !Matches(tab[s], src, mac, now)
      {
        if tab[i].seen != 0 && tab[i].src == src && tab[i].mac == mac && now - tab[i].seen < DUP_WINDOW_SECS {
          assert tab[..][i] == tab[i] && Matches(tab[i], src, mac, now);
          return true, i;
        }
        if tab[i].seen < oldestT {
          oldest, oldestT := i, tab[i].seen;
        }
      }
      dup := false;
    }

    /** dup_check: true for a duplicate; otherwise the packet is accepted and replaces the oldest slot. The answer is
        that of the unbounded history, unless more than 32 packets were accepted within the window or the clock went
        back. */
    method DupCheck(src: uint32, mac: Mac, now: int) returns (dup: bool)
      requires Valid()
      modifies this, tab
      ensures Valid()
      ensures history == if dup then old(history) else old(history) + [Entry(src, mac, now)]
      ensures dup ==> Recent(old(history), src, mac, now)
      ensures !dup && Recent(old(history), src, mac, now) && Chronological(old(history)) ==>
                |Since(old(history), now - DUP_WINDOW_SECS + 1)| > DUP_MAX
      ensures dup ==> exists e :: e in old(history) && e.src == src && e.mac == mac && now - e.seen < 5
      ensures !dup && Chronological(old(history)) &&
              (exists e :: e in old(history) && e.src == src && e.mac == mac && now - e.seen < 5) ==>
                |set i: nat | i < |old(history)| && now - old(history)[i].seen < 5| > 32
    {
      RecentIs(history, src, mac, now);
      hide Inv, Recent;
      var oldest;
      dup, oldest := Scan(src, mac, now);
      if dup {
        ghost var e :| e in tab[..] && Matches(e, src, mac, now);
        InHistory(tab[..], history, origin, e, now);
        return;
      }
      if Chronological(history) {
        NotRemembered(tab[..], history, origin, src, mac, now);
      }
      AcceptKeeps(tab[..], history, origin, oldest, Entry(src, mac, now));
      ghost var before := tab[..];
      tab[oldest] := Entry(src, mac, now);
      assert tab[..] == before[oldest := Entry(src, mac, now)];
      origin := origin[oldest := |history|];
      history := history + [Entry(src, mac, now)];
    }
  }

  /** A slot that matches holds a packet that was accepted. */
  lemma InHistory(tab: seq<Entry>, history: seq<Entry>, origin: seq<int>, e: Entry, now: int)
    requires Inv(tab, history, origin) && e in tab && e.seen != 0 && now - e.seen < DUP_WINDOW_SECS
    ensures Recent(history, e.src, e.mac, now)
  {
    var s :| 0 <= s < |tab| && tab[s] == e;
    assert history[origin[s]] == e;
  }

  lemma NotRemembered(tab: seq<Entry>, history: seq<Entry>, origin: seq<int>, src: uint32, mac: Mac, now: int)
    requires Inv(tab, history, origin) && Chronological(history)
    requires forall e :: e in tab ==> !(e.seen != 0 && SamePair(e, src, mac) && now - e.seen < DUP_WINDOW_SECS)
    ensures Recent(history, src, mac, now) ==> |Since(history, now - DUP_WINDOW_SECS + 1)| > |tab|
  {
    if Recent(history, src, mac, now) {
      var i :| 0 <= i < |history| && SamePair(history[i], src, mac) && now - history[i].seen < DUP_WINDOW_SECS;
      assert history[i] !in tab;
      SubsetSize(Since(history, history[i].seen), Since(history, now - DUP_WINDOW_SECS + 1));
    }
  }
}
