/** apptraffic/src/ipreasm.c: the bounded table that reassembles IP fragments. */
module IpFrag {
  import opened Bytes

  const IPFRAG_MAX: nat := 128
  const IPFRAG_MAX_LEN: nat := 8192
  const IPFRAG_TIMEOUT: int := 30

  /** is_v6, source, destination, identification and protocol. */
  datatype Key = Key(v6: bool, src: seq<byte>, dst: seq<byte>, id: uint32, proto: byte)

  datatype Fragment = Fragment(key: Key, off: nat, payload: seq<byte>, mf: bool)

  /** A slot: its contiguous prefix, and the total length once the last fragment was seen. */
  datatype Slot = Free | Used(key: Key, buf: seq<byte>, haveLast: bool, total: nat, lastSeen: int)

  // ---- what a fragment is: section 3.2 of RFC 791, section 4.5 of RFC 8200 ----

  /** The datagram each key stands for. */
  type Traffic = Key -> seq<byte>

  predicate IsFragmentOf(f: Fragment, d: seq<byte>) {
    && f.off + |f.payload| <= |d|
    && f.payload == d[f.off..f.off + |f.payload|]
    && (f.mf <==> f.off + |f.payload| < |d|)
  }

  /** As much of a datagram as the table keeps. */
  function Kept(d: seq<byte>): seq<byte> {
    d[..Min(|d|, IPFRAG_MAX_LEN)]
  }

  predicate Sound(s: Slot, traffic: Traffic) {
    s.Used? ==>
      && s.buf <= Kept(traffic(s.key))
      && s.total == if s.haveLast then |Kept(traffic(s.key))| else 0
  }

  ghost predicate AllSound(tab: seq<Slot>, traffic: Traffic) {
    forall i :: 0 <= i < |tab| ==> Sound(tab[i], traffic)
  }

  // ---- one fragment on its slot ----

  predicate Ignored(f: Fragment) { f.off >= IPFRAG_MAX_LEN || f.payload == [] }

  function ClippedPayload(f: Fragment): seq<byte>
    requires f.off < IPFRAG_MAX_LEN
  {
    f.payload[..Min(|f.payload|, IPFRAG_MAX_LEN - f.off)]
  }

  /** What the slot holds after the fragment, before completion is looked at. */
  function Advance(s: Slot, f: Fragment, now: int): Slot
    requires s.Used?
  {
    if Ignored(f) then s
    else
      var p := ClippedPayload(f);
      var end := f.off + |p|;
      var t := if f.mf then s else s.(haveLast := true, total := end);
      if f.off > |s.buf| then t
      else if end > |s.buf| then t.(buf := s.buf + p[|s.buf| - f.off..], lastSeen := now)
      else t.(lastSeen := now)
  }

  /** The fragment was looked at, touched the prefix, and completed the datagram. */
  predicate Completes(s: Slot, f: Fragment, now: int)
    requires s.Used?
  {
    var t := Advance(s, f, now);
    !Ignored(f) && f.off <= |s.buf| && t.haveLast && t.total > 0 && |t.buf| >= t.total && t.total <= IPFRAG_MAX_LEN
  }

  lemma ClippedIsSlice(f: Fragment, d: seq<byte>)
    requires !Ignored(f) && IsFragmentOf(f, d)
    ensures var n := |ClippedPayload(f)|;
            && f.off + n <= |Kept(d)| && ClippedPayload(f) == Kept(d)[f.off..f.off + n]
            && (!f.mf ==> f.off + n == |Kept(d)|)
  {
    var n := |ClippedPayload(f)|;
    assert f.payload[..n] == d[f.off..f.off + n];
  }

  lemma ExtendPrefix(k: seq<byte>, buf: seq<byte>, p: seq<byte>, off: nat)
    requires buf <= k && off + |p| <= |k| && p == k[off..off + |p|] && off <= |buf| < off + |p|
    ensures buf + p[|buf| - off..] == k[..off + |p|]
  {
    SliceSlice(k, off, off + |p|, |buf| - off, |p|);
    assert k[..off + |p|] == k[..|buf|] + k[|buf|..off + |p|];
  }

  lemma AdvanceSound(s: Slot, f: Fragment, now: int, traffic: Traffic)
    requires s.Used? && s.key == f.key && Sound(s, traffic) && IsFragmentOf(f, traffic(f.key))
    ensures Sound(Advance(s, f, now), traffic)
    ensures Completes(s, f, now) ==> Advance(s, f, now).buf[..Advance(s, f, now).total] == Kept(traffic(f.key))
  {
    hide Advance, Sound, Kept, IsFragmentOf, Ignored;
    AdvanceKeeps(s, f, now, traffic);
    if Completes(s, f, now) {
      SoundWhole(Advance(s, f, now), traffic);
    }
  }

  lemma AdvanceKeeps(s: Slot, f: Fragment, now: int, traffic: Traffic)
    requires s.Used? && s.key == f.key && Sound(s, traffic) && IsFragmentOf(f, traffic(f.key))
    ensures Advance(s, f, now).Used? && Advance(s, f, now).key == f.key && Sound(Advance(s, f, now), traffic)
  {
    hide Kept, ClippedPayload, IsFragmentOf;
    if !Ignored(f) {
      var p := ClippedPayload(f);
      ClippedIsSlice(f, traffic(f.key));
      if f.off <= |s.buf| < f.off + |p| {
        ExtendPrefix(Kept(traffic(f.key)), s.buf, p, f.off);
      }
    }
  }

  /** A slot that knows the total and has as much holds the datagram. */
  lemma SoundWhole(t: Slot, traffic: Traffic)
    requires t.Used? && Sound(t, traffic) && t.haveLast && |t.buf| >= t.total
    ensures t.buf[..t.total] == Kept(traffic(t.key))
  {
  }

  lemma CompletesWhole(s: Slot, f: Fragment, now: int)
    requires s.Used?
    ensures var t := Advance(s, f, now);
            t.Used? && (Completes(s, f, now) ==> 0 < t.total <= |t.buf|)
  {
  }

  lemma KeptShort(d: seq<byte>)
    ensures |d| <= 8192 ==> Kept(d) == d
    ensures |d| >= 8192 ==> Kept(d) == d[..8192]
  {
  }

  lemma FreeIsSound(traffic: Traffic)
    ensures Sound(Free, traffic)
  {
  }

  /** Fragments cut a datagram in order. */
  ghost predicate InOrder(fs: seq<Fragment>, key: Key, d: seq<byte>, from: nat) {
    if fs == [] then from == |d|
    else
      && fs[0].key == key && fs[0].off == from && fs[0].payload != [] && IsFragmentOf(fs[0], d)
      && InOrder(fs[1..], key, d, from + |fs[0].payload|)
  }

  function AdvanceAll(s: Slot, fs: seq<Fragment>, now: int): (t: Slot)
    requires s.Used?
    ensures t.Used?
    decreases |fs|
  {
    if fs == [] then s else AdvanceAll(Advance(s, fs[0], now), fs[1..], now)
  }

  /** The slot has a proper prefix of the datagram and has not seen the last fragment. */
  predicate Awaits(s: Slot, d: seq<byte>) {
    s.Used? && s.buf < d && |d| <= IPFRAG_MAX_LEN && !s.haveLast && s.total == 0
  }

  lemma NextInOrder(s: Slot, f: Fragment, d: seq<byte>, now: int)
    requires Awaits(s, d) && f.off == |s.buf| && f.payload != [] && IsFragmentOf(f, d)
    ensures Completes(s, f, now) <==> !f.mf
    ensures f.mf ==> Awaits(Advance(s, f, now), d) && |Advance(s, f, now).buf| == f.off + |f.payload|
  {
    assert ClippedPayload(f) == f.payload;
    assert Advance(s, f, now).buf == d[..f.off + |f.payload|];
  }

  ghost predicate OnlyLastCompletes(s: Slot, fs: seq<Fragment>, now: int)
    requires s.Used?
  {
    forall n :: 0 <= n < |fs| ==> (Completes(AdvanceAll(s, fs[..n], now), fs[n], now) <==> n == |fs| - 1)
  }

  /** A slot that gets the fragments of one datagram in order completes with the last one, and not before. */
  lemma {:induction false} InOrderCompletes(s: Slot, fs: seq<Fragment>, key: Key, d: seq<byte>, now: int)
    requires Awaits(s, d) && InOrder(fs, key, d, |s.buf|)
    ensures fs != [] && OnlyLastCompletes(s, fs, now)
    decreases |fs|
  {
    hide Completes, IsFragmentOf, Advance;
    var f := fs[0];
    NextInOrder(s, f, d, now);
    LastHasNoMore(fs, key, d, |s.buf|);
    var t := Advance(s, f, now);
    if f.mf {
      InOrderCompletes(t, fs[1..], key, d, now);
    }
    forall n | 0 <= n < |fs|
      ensures Completes(AdvanceAll(s, fs[..n], now), fs[n], now) <==> n == |fs| - 1
    {
      if n > 0 {
        assert fs[..n][1..] == fs[1..][..n - 1] && fs[n] == fs[1..][n - 1];
      }
    }
  }

  lemma LastHasNoMore(fs: seq<Fragment>, key: Key, d: seq<byte>, from: nat)
    requires fs != [] && InOrder(fs, key, d, from)
    ensures !fs[0].mf <==> |fs| == 1
  {
  }

  /** The body of ipfrag_feed on the slot it found: the slot after the fragment, and whether the datagram is
      complete. */
  method Update(s: Slot, f: Fragment, now: int) returns (t: Slot, complete: bool)
    requires s.Used?
    ensures t == Advance(s, f, now) && complete == Completes(s, f, now)
  {
    t := s;
    var off, payload := f.off, f.payload;
    if off >= IPFRAG_MAX_LEN { return s, false; }
    if |payload| > IPFRAG_MAX_LEN - off { payload := payload[..IPFRAG_MAX_LEN - off]; }
    if |payload| <= 0 { return s, false; }
    assert payload == ClippedPayload(f);
    var end := off + |payload|;
    if !f.mf { t := t.(haveLast := true, total := end); }
    if off > |t.buf| { return t, false; }
    if end > |t.buf| {
      var copyOff := |t.buf| - off;
      t := t.(buf := t.buf + payload[copyOff..]);
    }
    t := t.(lastSeen := now);
    complete := t.haveLast && t.total > 0 && |t.buf| >= t.total && t.total <= IPFRAG_MAX_LEN;
  }

  // ---- which slot a fragment goes to ----

  predicate Takes(s: Slot, key: Key) { s.Free? || s.key == key }

  ghost predicate NoneTakes(tab: seq<Slot>, key: Key, n: nat)
    requires n <= |tab|
  {
    forall j :: 0 <= j < n ==> !Takes(tab[j], key)
  }

  /** The first of the least recently used slots. */
  ghost predicate LeastRecent(tab: seq<Slot>, n: nat, i: nat)
    requires n <= |tab|
  {
    && i < n && tab[i].Used?
    && (forall j :: 0 <= j < n ==> tab[j].Used? && tab[i].lastSeen <= tab[j].lastSeen)
    && (forall j :: 0 <= j < i ==> tab[i].lastSeen < tab[j].lastSeen)
  }

  /** The first slot that is free or has the key; if there is none, the least recently used one. */
  ghost predicate Chosen(tab: seq<Slot>, key: Key, i: nat) {
    && i < |tab|
    && (if Takes(tab[i], key) then NoneTakes(tab, key, i) else NoneTakes(tab, key, |tab|) && LeastRecent(tab, |tab|, i))
  }

  lemma ChosenUnique(tab: seq<Slot>, key: Key, i: nat, j: nat)
    requires Chosen(tab, key, i) && Chosen(tab, key, j)
    ensures i == j
  {
  }

  /** What the fragment finds in its slot. */
  function Claimed(s: Slot, key: Key, now: int): (t: Slot)
    ensures t.Used? && t.key == key
  {
    if s.Used? && s.key == key then s else Used(key, [], false, 0, now)
  }

  /** One ipfrag_feed on the whole table: exactly one slot changes. */
  ghost predicate Fed(before: seq<Slot>, f: Fragment, now: int, after: seq<Slot>, out: Option<seq<byte>>) {
    exists i: nat :: Chosen(before, f.key, i) && FedAt(before, f, now, after, out, i)
  }

  ghost predicate FedAt(before: seq<Slot>, f: Fragment, now: int, after: seq<Slot>, out: Option<seq<byte>>, i: nat)
    requires i < |before|
  {
    var s := Claimed(before[i], f.key, now);
    var t := Advance(s, f, now);
    && after == before[i := if Completes(s, f, now) then Free else t]
    && out == if Completes(s, f, now) && t.Used? && t.total <= |t.buf| then Some(t.buf[..t.total]) else None
  }

  /** ipfrag_age on the whole table. */
  function Aged(tab: seq<Slot>, now: int): (r: seq<Slot>)
    ensures |r| == |tab|
  {
    seq(|tab|, i requires 0 <= i < |tab| =>
      if tab[i].Used? && now - tab[i].lastSeen > IPFRAG_TIMEOUT then Free else tab[i])
  }

  class FragTable {
    const tab: array<Slot>
    ghost const traffic: Traffic

    ghost predicate Valid()
      reads tab
    {
      tab.Length == IPFRAG_MAX && AllSound(tab[..], traffic)
    }

    constructor (ghost traffic: Traffic)
      ensures Valid() && fresh(tab) && this.traffic == traffic
      ensures forall i :: 0 <= i < tab.Length ==> tab[i] == Free
    {
      this.traffic := traffic;
      tab := new Slot[IPFRAG_MAX](_ => Free);
    }

    /** The first slot that is free or has the key; if there is none, the least recently used one is given up. */
    method FindOrCreate(key: Key, now: int) returns (i: nat)
      requires Valid()
      modifies tab
      ensures Valid() && Chosen(old(tab[..]), key, i)
      ensures tab[..] == old(tab[..])[i := Claimed(old(tab[i]), key, now)]
      ensures old(tab[i]).Used? && old(tab[i]).key != key ==>
                forall j :: 0 <= j < tab.Length ==>
                  old(tab[j]).Used? && old(tab[j]).key != key && old(tab[i]).lastSeen <= old(tab[j]).lastSeen
      ensures old(tab[i]).Free? || old(tab[i]).key == key ==>
                forall j :: 0 <= j < i ==> old(tab[j]).Used? && old(tab[j]).key != key
      ensures tab[i] == if old(tab[i]).Used? && old(tab[i]).key == key then old(tab[i])
                    else Used(key, [], false, 0, now)
    {
      ghost var before := tab[..];
      var oldest := 0;
      for k := 0 to tab.Length
        invariant tab[..] == before
        invariant NoneTakes(before, key, k)
        invariant if k == 0 then oldest == 0 else LeastRecent(before, k, oldest)
      {
        assert before[k] == tab[k];
        if tab[k].Free? {
          tab[k] := Used(key, [], false, 0, now);
          return k;
        }
        if tab[k].key == key {
          assert before[k := before[k]] == before;
          return k;
        }
        if k == 0 || tab[k].lastSeen < tab[oldest].lastSeen { oldest := k; }
      }
      tab[oldest] := Used(key, [], false, 0, now);
      return oldest;
    }

    /** ipfrag_feed: whatever it returns is the datagram of the key. */
    method Feed(f: Fragment, now: int) returns (out: Option<seq<byte>>)
      requires Valid() && IsFragmentOf(f, traffic(f.key))
      modifies tab
      ensures Valid()
      ensures Fed(old(tab[..]), f, now, tab[..], out)
      ensures out.Some? ==> out.value == Kept(traffic(f.key)) && out.value != []
      ensures out.Some? && |traffic(f.key)| <= IPFRAG_MAX_LEN ==> out.value == traffic(f.key)
    {
      hide Advance, Completes, IsFragmentOf, Kept, Sound, Chosen, Claimed;
      ghost var before := tab[..];
      KeptShort(traffic(f.key));
      var i := FindOrCreate(f.key, now);
      assert tab[i] == tab[..][i] == Claimed(before[i], f.key, now);
      FreeIsSound(traffic);
      AdvanceSound(tab[i], f, now, traffic);
      CompletesWhole(tab[i], f, now);
      var t, complete := Update(tab[i], f, now);
      tab[i] := t;
      if complete {
        out := Some(t.buf[..t.total]);
        tab[i] := Free;
      } else {
        out := None;
      }
      assert tab[..] == before[i := if complete then Free else t];
      assert FedAt(before, f, now, tab[..], out, i);
    }

    /** ipfrag_age. */
    method Age(now: int)
      requires Valid()
      modifies tab
      ensures Valid() && tab[..] == Aged(old(tab[..]), now)
      ensures forall j :: 0 <= j < tab.Length ==>
                tab[j] == if old(tab[j]).Used? && now - old(tab[j]).lastSeen > IPFRAG_TIMEOUT then Free else old(tab[j])
    {
      for i := 0 to tab.Length
        invariant forall j :: i <= j < tab.Length ==> tab[j] == old(tab[j])
        invariant forall j :: 0 <= j < i ==>
                    tab[j] == if old(tab[j]).Used? && now - old(tab[j]).lastSeen > IPFRAG_TIMEOUT
                                then Free else old(tab[j])
      {
        if tab[i].Used? && now - tab[i].lastSeen > IPFRAG_TIMEOUT {
          tab[i] := Free;
        }
      }
      assert forall j :: 0 <= j < tab.Length ==> Sound(old(tab[..])[j], traffic);
    }
  }

  // ---- when a datagram completes ----

  /** Only slot i, if any, has the key. */
  ghost predicate OnlyAt(tab: seq<Slot>, key: Key, i: nat) {
    forall j :: 0 <= j < |tab| && j != i ==> tab[j].Free? || tab[j].key != key
  }

  lemma AdvanceKey(s: Slot, f: Fragment, now: int)
    requires s.Used?
    ensures Advance(s, f, now).Used? && Advance(s, f, now).key == s.key
  {
  }

  lemma LastGivesAll(s: Slot, f: Fragment, d: seq<byte>, now: int)
    requires Awaits(s, d) && s.key == f.key && f.off == |s.buf| && f.payload != [] && IsFragmentOf(f, d) && !f.mf
    ensures var t := Advance(s, f, now);
            t.Used? && t.total <= |t.buf| && t.buf[..t.total] == d
  {
    hide Advance, Completes, Kept;
    NextOnSlot(s, f, d, now);
    KeptShort(d);
  }

  /** The fragments of one datagram, one after the other, into a table that holds none of them: it is delivered with the
      last fragment and not before, however full the table is. */
  method FeedInOrder(t: FragTable, fs: seq<Fragment>, key: Key, nows: seq<int>) returns (out: Option<seq<byte>>)
    requires t.Valid() && |nows| == |fs| > 0
    requires 0 < |t.traffic(key)| <= IPFRAG_MAX_LEN && InOrder(fs, key, t.traffic(key), 0)
    requires NoneHas(t.tab[..], key)
    modifies t.tab
    ensures t.Valid() && out == Some(t.traffic(key))
  {
    ghost var d := t.traffic(key);
    ghost var i: nat := 0;
    out := None;
    for n := 0 to |fs|
      invariant t.Valid()
      invariant n == 0 ==> NoneHas(t.tab[..], key) && InOrder(fs[n..], key, d, 0)
      invariant 0 < n < |fs| ==> Settled(t.tab[..], key, i, d) && InOrder(fs[n..], key, d, |t.tab[i].buf|)
      invariant n < |fs| ==> out == None
      invariant n == |fs| ==> out == Some(d)
    {
      ghost var before := t.tab[..];
      assert fs[n..][0] == fs[n] && fs[n..][1..] == fs[n + 1..];
      LastHasNoMore(fs[n..], key, d, fs[n].off);
      out := t.Feed(fs[n], nows[n]);
      i := SettledStep(before, fs[n], fs[n..], key, d, if n == 0 then |before| else i, nows[n], t.tab[..], out);
    }
  }

  /** The datagram has its slot, and nothing in front of it can take its next fragment. */
  ghost predicate Settled(tab: seq<Slot>, key: Key, i: nat, d: seq<byte>) {
    && i < |tab| && Awaits(tab[i], d) && tab[i].key == key
    && OnlyAt(tab, key, i) && NoneTakes(tab, key, i)
  }

  lemma SettledStep(tab: seq<Slot>, f: Fragment, rest: seq<Fragment>, key: Key, d: seq<byte>, i: nat, now: int,
                    after: seq<Slot>, out: Option<seq<byte>>) returns (c: nat)
    requires 0 < |d| <= IPFRAG_MAX_LEN
    requires if i == |tab| then OnlyAt(tab, key, i) && f.off == 0 else Settled(tab, key, i, d) && f.off == |tab[i].buf|
    requires rest != [] && rest[0] == f && InOrder(rest, key, d, f.off)
    requires Fed(tab, f, now, after, out)
    ensures |rest| > 1 ==> out == None && Settled(after, key, c, d) && InOrder(rest[1..], key, d, |after[c].buf|)
    ensures |rest| == 1 ==> out == Some(d)
  {
    hide Advance, Completes, IsFragmentOf;
    LastHasNoMore(rest, key, d, f.off);
    c :| Chosen(tab, key, c) && FedAt(tab, f, now, after, out, c);
    var s := Claimed(tab[c], key, now);
    NextInOrder(s, f, d, now);
    AdvanceKey(s, f, now);
    if !f.mf {
      LastGivesAll(s, f, d, now);
    }
  }

  // ---- when a datagram completes, whatever else arrives in between ----

  datatype Event = Arrive(f: Fragment, now: int) | Tick(now: int)

  ghost predicate Stepped(before: seq<Slot>, e: Event, after: seq<Slot>, out: Option<seq<byte>>) {
    match e
    case Arrive(f, now) => Fed(before, f, now, after, out)
    case Tick(now) => after == Aged(before, now) && out == None
  }

  /** The table before and after each call, and what each call delivers. */
  ghost predicate IsRun(tabs: seq<seq<Slot>>, events: seq<Event>, outs: seq<Option<seq<byte>>>) {
    && |tabs| == |events| + 1 && |outs| == |events|
    && forall n :: 0 <= n < |events| ==> Stepped(tabs[n], events[n], tabs[n + 1], outs[n])
  }

  predicate IsOf(e: Event, key: Key) { e.Arrive? && e.f.key == key }

  /** The fragments of a key, in the order they arrive. */
  function FragmentsOf(events: seq<Event>, key: Key): seq<Fragment> {
    if events == [] then []
    else if IsOf(events[0], key) then [events[0].f] + FragmentsOf(events[1..], key)
    else FragmentsOf(events[1..], key)
  }

  /** A slot has the datagram up to position off, and no slot before it is free. */
  ghost predicate Waits(tab: seq<Slot>, key: Key, off: nat) {
    exists i :: Holds(tab, key, off, i) && forall j :: 0 <= j < i ==> tab[j].Used?
  }

  ghost predicate Holds(tab: seq<Slot>, key: Key, off: nat, i: int) {
    0 <= i < |tab| && tab[i].Used? && tab[i].key == key && |tab[i].buf| == off
  }

  /** Every slot of the key holds part of what arrived so far, and none has seen the last fragment. */
  ghost predicate Partial(tab: seq<Slot>, key: Key, d: seq<byte>, off: nat) {
    forall i :: 0 <= i < |tab| && tab[i].Used? && tab[i].key == key ==>
      tab[i].buf <= d && |tab[i].buf| <= off && !tab[i].haveLast && tab[i].total == 0
  }

  ghost predicate AtMostOne(tab: seq<Slot>, key: Key) {
    forall i, j :: 0 <= i < j < |tab| && tab[i].Used? && tab[j].Used? ==> tab[i].key != key || tab[j].key != key
  }

  /** No slot can take the fragment at off for its next one. */
  ghost predicate Behind(tab: seq<Slot>, key: Key, off: nat) {
    forall i :: !Holds(tab, key, off, i)
  }

  ghost predicate NoneHas(tab: seq<Slot>, key: Key) {
    OnlyAt(tab, key, |tab|)
  }

  /** The datagram is on its way: nothing has arrived, its one slot waits, or it is lost. */
  ghost predicate OnTheWay(tab: seq<Slot>, key: Key, d: seq<byte>, off: nat) {
    && Partial(tab, key, d, off)
    && (off == 0 ==> NoneHas(tab, key))
    && (0 < off < IPFRAG_MAX_LEN ==> AtMostOne(tab, key) || Behind(tab, key, off))
  }

  predicate IsNext(f: Fragment, d: seq<byte>, off: nat) {
    f.off == off && f.payload != [] && IsFragmentOf(f, d)
  }

  /** What one fragment does to the slot it claims. */
  lemma NextOnSlot(s: Slot, f: Fragment, d: seq<byte>, now: int)
    requires s.Used? && s.key == f.key && IsNext(f, d, f.off)
    requires s.buf <= d && |s.buf| <= f.off && !s.haveLast && s.total == 0
    ensures Advance(s, f, now).Used? && Advance(s, f, now).key == s.key
    ensures Completes(s, f, now) <==> !f.mf && f.off < IPFRAG_MAX_LEN && |s.buf| == f.off
    ensures Completes(s, f, now) ==>
              var t := Advance(s, f, now);
              t.total <= |t.buf| && t.buf[..t.total] == Kept(d)
    ensures f.mf ==>
              var t := Advance(s, f, now);
              && t.buf <= d && |t.buf| <= f.off + |f.payload| && !t.haveLast && t.total == 0
              && (f.off + |f.payload| < IPFRAG_MAX_LEN ==> (|t.buf| == f.off + |f.payload| <==> |s.buf| == f.off))
  {
    hide Kept, ClippedPayload, IsFragmentOf;
    if f.off < IPFRAG_MAX_LEN {
      var p := ClippedPayload(f);
      ClippedFacts(f, d);
      if |s.buf| == f.off {
        assert s.buf + p[0..] == d[..f.off + |p|];
      }
    }
  }

  lemma ClippedFacts(f: Fragment, d: seq<byte>)
    requires IsNext(f, d, f.off) && f.off < IPFRAG_MAX_LEN
    ensures var n := |ClippedPayload(f)|;
            && 0 < n <= |f.payload| && f.off + n <= |d| && ClippedPayload(f) == d[f.off..f.off + n]
            && (f.off + |f.payload| < IPFRAG_MAX_LEN ==> n == |f.payload|)
            && f.off + n <= IPFRAG_MAX_LEN && (!f.mf ==> d[..f.off + n] == Kept(d))
  {
    var n := |ClippedPayload(f)|;
    assert f.payload[..n] == d[f.off..f.off + n];
  }

  lemma ChosenWaits(tab: seq<Slot>, key: Key, off: nat, c: nat)
    requires Chosen(tab, key, c) && Holds(tab, key, off, c)
    ensures Waits(tab, key, off)
  {
  }

  /** The next fragment of a datagram, be it the last or one in the middle, is put behind what came before exactly if
      its slot still waits for it and no slot before that one is free. */
  lemma NextFragmentGoesOn(tab: seq<Slot>, key: Key, d: seq<byte>, f: Fragment, now: int,
                           after: seq<Slot>, out: Option<seq<byte>>)
    requires OnTheWay(tab, key, d, f.off) && f.key == key && IsNext(f, d, f.off) && 0 < f.off < IPFRAG_MAX_LEN
    requires Fed(tab, f, now, after, out)
    ensures !f.mf ==> out == if Waits(tab, key, f.off) then Some(Kept(d)) else None
    ensures f.mf ==> out == None && Partial(after, key, d, f.off + |f.payload|)
    ensures f.mf && f.off + |f.payload| < IPFRAG_MAX_LEN ==>
              if Waits(tab, key, f.off) then AtMostOne(after, key) && !Behind(after, key, f.off + |f.payload|)
              else Behind(after, key, f.off + |f.payload|)
  {
    hide Advance, Completes, Kept, IsFragmentOf;
    var c: nat :| Chosen(tab, key, c) && FedAt(tab, f, now, after, out, c);
    var s := Claimed(tab[c], key, now);
    NextOnSlot(s, f, d, now);
    if Holds(tab, key, f.off, c) {
      ChosenWaits(tab, key, f.off, c);
    }
    if Waits(tab, key, f.off) {
      var i :| Holds(tab, key, f.off, i) && forall j :: 0 <= j < i ==> tab[j].Used?;
      assert Chosen(tab, key, i);
      ChosenUnique(tab, key, i, c);
      if f.mf && f.off + |f.payload| < IPFRAG_MAX_LEN {
        assert Holds(after, key, f.off + |f.payload|, c);
      }
    }
  }

  /** The first fragment gets a slot of its own; if it is the only one, it is delivered at once. */
  lemma FirstFragmentStarts(tab: seq<Slot>, key: Key, d: seq<byte>, f: Fragment, now: int,
                            after: seq<Slot>, out: Option<seq<byte>>)
    requires NoneHas(tab, key) && f.key == key && IsNext(f, d, 0)
    requires Fed(tab, f, now, after, out)
    ensures !f.mf ==> out == Some(Kept(d))
    ensures f.mf ==> out == None && Partial(after, key, d, |f.payload|) && AtMostOne(after, key)
  {
    hide Advance, Completes, Kept, IsFragmentOf;
    var c: nat :| Chosen(tab, key, c) && FedAt(tab, f, now, after, out, c);
    NextOnSlot(Claimed(tab[c], key, now), f, d, now);
  }

  /** A fragment past the end of what the table keeps changes nothing for its datagram. */
  lemma FragmentPastEnd(tab: seq<Slot>, key: Key, d: seq<byte>, f: Fragment, now: int,
                        after: seq<Slot>, out: Option<seq<byte>>)
    requires Partial(tab, key, d, f.off) && f.key == key && IsNext(f, d, f.off) && f.off >= IPFRAG_MAX_LEN
    requires Fed(tab, f, now, after, out)
    ensures out == None
    ensures f.mf ==> Partial(after, key, d, f.off + |f.payload|)
  {
    hide Advance, Completes, Kept, IsFragmentOf;
    var c: nat :| Chosen(tab, key, c) && FedAt(tab, f, now, after, out, c);
    NextOnSlot(Claimed(tab[c], key, now), f, d, now);
  }

  /** A fragment of the datagram keeps it on its way. */
  lemma NextKeepsOnTheWay(tab: seq<Slot>, key: Key, d: seq<byte>, f: Fragment, now: int,
                          after: seq<Slot>, out: Option<seq<byte>>)
    requires OnTheWay(tab, key, d, f.off) && f.key == key && IsNext(f, d, f.off)
    requires Fed(tab, f, now, after, out)
    ensures f.mf ==> out == None && OnTheWay(after, key, d, f.off + |f.payload|)
    ensures f.mf && 0 < f.off && f.off + |f.payload| < IPFRAG_MAX_LEN && !Waits(tab, key, f.off) ==>
              Behind(after, key, f.off + |f.payload|)
    ensures !f.mf ==>
              out == if f.off < IPFRAG_MAX_LEN && (f.off > 0 ==> Waits(tab, key, f.off)) then Some(Kept(d)) else None
  {
    hide Fed, Partial, AtMostOne, Waits, Behind, NoneHas, Kept, IsFragmentOf;
    if f.off >= IPFRAG_MAX_LEN {
      FragmentPastEnd(tab, key, d, f, now, after, out);
    } else if f.off > 0 {
      NextFragmentGoesOn(tab, key, d, f, now, after, out);
    } else {
      FirstFragmentStarts(tab, key, d, f, now, after, out);
    }
  }

  /** Whatever else happens can only take the slot away. */
  lemma OthersKeepOnTheWay(tab: seq<Slot>, key: Key, d: seq<byte>, off: nat, e: Event,
                           after: seq<Slot>, out: Option<seq<byte>>)
    requires OnTheWay(tab, key, d, off) && !IsOf(e, key) && Stepped(tab, e, after, out)
    ensures OnTheWay(after, key, d, off)
    ensures Behind(tab, key, off) ==> Behind(after, key, off)
  {
    OnlyFewer(tab, key, e, after, out);
    forall i | Holds(after, key, off, i) ensures Holds(tab, key, off, i) {
    }
  }

  lemma OnlyFewer(tab: seq<Slot>, key: Key, e: Event, after: seq<Slot>, out: Option<seq<byte>>)
    requires !IsOf(e, key) && Stepped(tab, e, after, out)
    ensures |after| == |tab|
    ensures forall i :: 0 <= i < |tab| && after[i].Used? && after[i].key == key ==> after[i] == tab[i]
  {
    hide Completes, Advance;
    if e.Arrive? {
      var c: nat :| Chosen(tab, e.f.key, c) && FedAt(tab, e.f, e.now, after, out, c);
      AdvanceKey(Claimed(tab[c], e.f.key, e.now), e.f, e.now);
    }
  }

  // ---- whole runs ----

  /** Before each of its later fragments from call n on, the datagram's slot waits for it. */
  ghost predicate AlwaysWaits(tabs: seq<seq<Slot>>, events: seq<Event>, key: Key, n: nat)
    requires |tabs| == |events| + 1
  {
    forall m :: n <= m < |events| && IsOf(events[m], key) && events[m].f.off > 0
      ==> Waits(tabs[m], key, events[m].f.off)
  }

  /** A call from n on with a fragment of the key delivers something. */
  ghost predicate Delivers(events: seq<Event>, outs: seq<Option<seq<byte>>>, key: Key, n: nat)
    requires |outs| == |events|
  {
    exists m :: n <= m < |events| && IsOf(events[m], key) && outs[m].Some?
  }

  /** If such a call delivers something, it is the datagram, and it was the last fragment. */
  ghost predicate DeliversOnly(events: seq<Event>, outs: seq<Option<seq<byte>>>, key: Key, d: seq<byte>, n: nat)
    requires |outs| == |events|
  {
    forall m :: n <= m < |events| && IsOf(events[m], key) && outs[m].Some?
      ==> outs[m] == Some(Kept(d)) && !events[m].f.mf
  }

  function LastOff(fs: seq<Fragment>): nat
    requires fs != []
  {
    fs[|fs| - 1].off
  }

  lemma {:induction false} LaterFragments(fs: seq<Fragment>, key: Key, d: seq<byte>, from: nat)
    requires fs != [] && InOrder(fs, key, d, from)
    ensures IsNext(fs[0], d, from) && fs[0].key == key
    ensures LastOff(fs) >= from
    ensures |fs| > 1 ==> LastOff(fs[1..]) == LastOff(fs) >= from + |fs[0].payload|
    ensures fs[0].mf <==> |fs| > 1
    decreases |fs|
  {
    LastHasNoMore(fs, key, d, from);
    if |fs| > 1 {
      LaterFragments(fs[1..], key, d, from + |fs[0].payload|);
    }
  }

  lemma {:induction false} NoFragmentsLeft(events: seq<Event>, key: Key, n: nat)
    requires n <= |events| && FragmentsOf(events[n..], key) == []
    ensures forall m :: n <= m < |events| ==> !IsOf(events[m], key)
    decreases |events| - n
  {
    if n < |events| {
      assert events[n..][1..] == events[n + 1..];
      NoFragmentsLeft(events, key, n + 1);
    }
  }

  lemma SomethingLeft(events: seq<Event>, key: Key, n: nat)
    requires n <= |events| && FragmentsOf(events[n..], key) != []
    ensures n < |events|
  {
  }

  lemma BehindNeverWaits(tab: seq<Slot>, key: Key, off: nat)
    ensures Behind(tab, key, off) ==> !Waits(tab, key, off)
  {
  }

  function OwnFragment(e: Event, key: Key): seq<Fragment> { if IsOf(e, key) then [e.f] else [] }

  lemma FragmentsStep(events: seq<Event>, key: Key, n: nat)
    requires n < |events|
    ensures FragmentsOf(events[n..], key) ==
            OwnFragment(events[n], key) + FragmentsOf(events[n + 1..], key)
  {
    assert events[n..][1..] == events[n + 1..];
    assert FragmentsOf(events[n + 1..], key) == [] + FragmentsOf(events[n + 1..], key);
  }

  /** From a state in which the datagram is on its way. */
  lemma {:induction false} DeliveredFrom(tabs: seq<seq<Slot>>, events: seq<Event>, outs: seq<Option<seq<byte>>>,
                                         key: Key, d: seq<byte>, n: nat, off: nat)
    requires IsRun(tabs, events, outs) && n <= |events| && OnTheWay(tabs[n], key, d, off)
    requires FragmentsOf(events[n..], key) != [] && InOrder(FragmentsOf(events[n..], key), key, d, off)
    ensures DeliversOnly(events, outs, key, d, n)
    ensures Delivers(events, outs, key, n) <==>
            AlwaysWaits(tabs, events, key, n) && LastOff(FragmentsOf(events[n..], key)) < IPFRAG_MAX_LEN
    ensures 0 < off < IPFRAG_MAX_LEN && Behind(tabs[n], key, off) ==> !Delivers(events, outs, key, n)
    decreases |events| - n
  {
    hide OnTheWay, Fed, InOrder, Waits, Kept, Behind, IsFragmentOf, FragmentsOf;
    SomethingLeft(events, key, n);
    var fs, e := FragmentsOf(events[n..], key), events[n];
    assert Stepped(tabs[n], e, tabs[n + 1], outs[n]);
    FragmentsStep(events, key, n);
    LaterFragments(fs, key, d, off);
    if !IsOf(e, key) {
      assert fs == FragmentsOf(events[n + 1..], key);
      OthersKeepOnTheWay(tabs[n], key, d, off, e, tabs[n + 1], outs[n]);
      DeliveredFrom(tabs, events, outs, key, d, n + 1, off);
    } else {
      BehindNeverWaits(tabs[n], key, off);
      NextKeepsOnTheWay(tabs[n], key, d, e.f, e.now, tabs[n + 1], outs[n]);
      assert fs[1..] == FragmentsOf(events[n + 1..], key);
      if |fs| > 1 {
        RestInOrder(fs, key, d, off);
        DeliveredFrom(tabs, events, outs, key, d, n + 1, off + |e.f.payload|);
      } else {
        NoFragmentsLeft(events, key, n + 1);
      }
    }
  }

  lemma RestInOrder(fs: seq<Fragment>, key: Key, d: seq<byte>, from: nat)
    requires |fs| > 1 && InOrder(fs, key, d, from)
    ensures InOrder(fs[1..], key, d, from + |fs[0].payload|)
  {
  }

  /** In every run, with whatever else arrives, is evicted or expires in between: a datagram whose fragments arrive in
      order is delivered, with its last fragment, exactly if at each later fragment its slot still waits for it and no
      slot before that one is free, and the last fragment starts within the first 8192 bytes. */
  lemma DeliveredExactly(tabs: seq<seq<Slot>>, events: seq<Event>, outs: seq<Option<seq<byte>>>, key: Key, d: seq<byte>)
    requires IsRun(tabs, events, outs) && NoneHas(tabs[0], key)
    requires FragmentsOf(events, key) != [] && InOrder(FragmentsOf(events, key), key, d, 0)
    ensures DeliversOnly(events, outs, key, d, 0)
    ensures Delivers(events, outs, key, 0) <==>
            AlwaysWaits(tabs, events, key, 0) && LastOff(FragmentsOf(events, key)) < IPFRAG_MAX_LEN
  {
    hide InOrder, IsRun, FragmentsOf, DeliversOnly, AlwaysWaits, Delivers;
    assert events[0..] == events;
    DeliveredFrom(tabs, events, outs, key, d, 0, 0);
  }

  /** Every sequence of calls of ipfrag_feed and ipfrag_age is such a run. */
  method Replay(t: FragTable, events: seq<Event>)
    returns (outs: seq<Option<seq<byte>>>, ghost tabs: seq<seq<Slot>>)
    requires t.Valid()
    requires forall e :: e in events && e.Arrive? ==> IsFragmentOf(e.f, t.traffic(e.f.key))
    modifies t.tab
    ensures t.Valid() && IsRun(tabs, events, outs) && tabs[0] == old(t.tab[..]) && tabs[|events|] == t.tab[..]
  {
    hide FragTable.Valid, Stepped, IsFragmentOf, Kept;
    outs, tabs := [], [t.tab[..]];
    for n := 0 to |events|
      invariant t.Valid() && IsRun(tabs, events[..n], outs) && tabs[0] == old(t.tab[..]) && tabs[n] == t.tab[..]
    {
      ghost var before := t.tab[..];
      var out := None;
      match events[n] {
        case Arrive(f, now) => out := t.Feed(f, now);
        case Tick(now) => t.Age(now);
      }
      StepIs(before, events[n], t.tab[..], out);
      RunStep(tabs, events, n, outs, t.tab[..], out);
      outs, tabs := outs + [out], tabs + [t.tab[..]];
    }
    assert events[..|events|] == events;
  }

  lemma StepIs(before: seq<Slot>, e: Event, after: seq<Slot>, out: Option<seq<byte>>)
    requires e.Arrive? ==> Fed(before, e.f, e.now, after, out)
    requires e.Tick? ==> after == Aged(before, e.now) && out == None
    ensures Stepped(before, e, after, out)
  {
  }

  lemma RunStep(tabs: seq<seq<Slot>>, events: seq<Event>, n: nat, outs: seq<Option<seq<byte>>>,
                after: seq<Slot>, out: Option<seq<byte>>)
    requires n < |events| && IsRun(tabs, events[..n], outs) && Stepped(tabs[n], events[n], after, out)
    ensures IsRun(tabs + [after], events[..n + 1], outs + [out])
  {
    hide Stepped;
    var tabs', events', outs' := tabs + [after], events[..n + 1], outs + [out];
    forall i | 0 <= i < |events'| ensures Stepped(tabs'[i], events'[i], tabs'[i + 1], outs'[i]) {
      if i < n {
        assert events'[i] == events[..n][i] && tabs'[i] == tabs[i] && tabs'[i + 1] == tabs[i + 1];
      }
    }
  }

  // ---- the condition can fail ----

  const EMPTY_TABLE: seq<Slot> := seq(IPFRAG_MAX, _ => Free)

  /** The fragment goes to slot c and stays there. */
  lemma StaysInSlot(tab: seq<Slot>, f: Fragment, now: int, c: nat, t: Slot)
    requires Chosen(tab, f.key, c)
    requires Advance(Claimed(tab[c], f.key, now), f, now) == t && !Completes(Claimed(tab[c], f.key, now), f, now)
    ensures Fed(tab, f, now, tab[c := t], None)
  {
    assert FedAt(tab, f, now, tab[c := t], None, c);
  }

  /** The fragment completes the datagram in slot c. */
  lemma LeavesSlot(tab: seq<Slot>, f: Fragment, now: int, c: nat, d: seq<byte>)
    requires Chosen(tab, f.key, c) && tab[c].Used? && tab[c].key == f.key && Completes(tab[c], f, now)
    requires var t := Advance(tab[c], f, now); t.Used? && t.total <= |t.buf| && t.buf[..t.total] == d
    ensures Fed(tab, f, now, tab[c := Free], Some(d))
  {
    hide Completes, Advance;
    assert FedAt(tab, f, now, tab[c := Free], Some(d), c);
  }

  /** The parts of a datagram of two bytes, in a slot. */
  lemma TwoParts(key: Key, x: byte, y: byte)
    ensures var first, last := Fragment(key, 0, [x], true), Fragment(key, 1, [y], false);
            && Advance(Claimed(Free, key, 0), first, 0) == Used(key, [x], false, 0, 0)
            && !Completes(Claimed(Free, key, 0), first, 0)
            && Advance(Used(key, [x], false, 0, 0), last, 0) == Used(key, [x, y], true, 2, 0)
            && Completes(Used(key, [x], false, 0, 0), last, 0)
            && Advance(Claimed(Free, key, 0), last, 0) == Used(key, [], true, 2, 0)
            && !Completes(Claimed(Free, key, 0), last, 0)
  {
    assert [x][..1] == [x] && [y][..1] == [y] && [][..0] + [x][0..] == [x];
  }

  lemma InOrderOfTwo(f: Fragment, g: Fragment, key: Key, d: seq<byte>)
    requires f.key == g.key == key && IsNext(f, d, 0) && IsNext(g, d, |f.payload|) && !g.mf
    ensures InOrder([f, g], key, d, 0)
  {
    assert [f, g][1..] == [g] && [g][1..] == [];
  }

  lemma FragmentsOfFour(events: seq<Event>, key: Key)
    requires |events| == 4
    ensures FragmentsOf(events, key) ==
            OwnFragment(events[0], key) + (OwnFragment(events[1], key) +
              (OwnFragment(events[2], key) + OwnFragment(events[3], key)))
  {
    hide FragmentsOf, OwnFragment;
    FragmentsStep(events, key, 0);
    FragmentsStep(events, key, 1);
    FragmentsStep(events, key, 2);
    FragmentsStep(events, key, 3);
    assert events[0..] == events && events[4..] == [];
    NoEvents(key);
    assert OwnFragment(events[3], key) + [] == OwnFragment(events[3], key);
  }

  lemma NoEvents(key: Key)
    ensures FragmentsOf([], key) == []
  {
  }

  /** Two datagrams of two fragments each, into an empty table: the end of the first frees slot 0, the end of the second
      goes there instead of to slot 1, and the second is never delivered although its fragments arrive in order. */
  lemma InterleavingSplits(a: Key, b: Key)
    returns (tabs: seq<seq<Slot>>, events: seq<Event>, outs: seq<Option<seq<byte>>>)
    requires a != b
    ensures IsRun(tabs, events, outs) && tabs[0] == EMPTY_TABLE
    ensures InOrder(FragmentsOf(events, a), a, [1, 2], 0) && InOrder(FragmentsOf(events, b), b, [3, 4], 0)
    ensures outs == [None, None, Some([1, 2]), None]
  {
    hide Advance, Completes, Claimed, Fed, InOrder, FragmentsOf;
    var a1, a2 := Fragment(a, 0, [1], true), Fragment(a, 1, [2], false);
    var b1, b2 := Fragment(b, 0, [3], true), Fragment(b, 1, [4], false);
    events := [Arrive(a1, 0), Arrive(b1, 0), Arrive(a2, 0), Arrive(b2, 0)];
    outs := [None, None, Some([1, 2]), None];
    var t0 := EMPTY_TABLE;
    var t1 := t0[0 := Used(a, [1], false, 0, 0)];
    var t2 := t1[1 := Used(b, [3], false, 0, 0)];
    var t3 := t2[0 := Free];
    var t4 := t3[0 := Used(b, [], true, 2, 0)];
    tabs := [t0, t1, t2, t3, t4];
    TwoParts(a, 1, 2);
    TwoParts(b, 3, 4);
    StaysInSlot(t0, a1, 0, 0, t1[0]);
    StaysInSlot(t1, b1, 0, 1, t2[1]);
    LeavesSlot(t2, a2, 0, 0, [1, 2]);
    StaysInSlot(t3, b2, 0, 0, t4[0]);
    InOrderOfTwo(a1, a2, a, [1, 2]);
    InOrderOfTwo(b1, b2, b, [3, 4]);
    FragmentsOfFour(events, a);
    FragmentsOfFour(events, b);
    assert FragmentsOf(events, a) == [a1, a2] && FragmentsOf(events, b) == [b1, b2];
  }

  // ---- one fragment on its slot, written out ----

  /** What lies past 8192 is cut. A fragment beyond a gap is dropped, though a last one tells the total; any other puts
      what reaches past the prefix behind it. */
  lemma AdvanceExactly(s: Slot, f: Fragment, now: int)
    requires s.Used?
    ensures Advance(s, f, now).Used? && Advance(s, f, now).key == s.key
    ensures var n := if f.off >= 8192 then 0 else if f.off + |f.payload| > 8192 then 8192 - f.off else |f.payload|;
            var t := Advance(s, f, now);
            if n == 0 then t == s && !Completes(s, f, now) else
              && t.haveLast == (s.haveLast || !f.mf) && t.total == (if f.mf then s.total else f.off + n)
              && (if f.off > |s.buf| then t.buf == s.buf && t.lastSeen == s.lastSeen && !Completes(s, f, now)
                  else
                    && t.lastSeen == now && s.buf <= t.buf
                    && |t.buf| == (if f.off + n > |s.buf| then f.off + n else |s.buf|)
                    && (forall i :: |s.buf| <= i < |t.buf| ==> t.buf[i] == f.payload[i - f.off])
                    && (Completes(s, f, now) <==> t.haveLast && 0 < t.total <= |t.buf| && t.total <= 8192))
  {
    if f.off < 8192 && f.payload != [] && f.off <= |s.buf| {
      var p, t := ClippedPayload(f), Advance(s, f, now);
      if f.off + |p| > |s.buf| {
        assert t.buf == s.buf + p[|s.buf| - f.off..];
      }
    }
  }
}
