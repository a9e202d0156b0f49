/** apptraffic/src/main.c: from cumulative conntrack counters to committed rows. */
module FlowAccounting {
  import opened Bytes

  const TWO63: int := 0x8000_0000_0000_0000
  const TS_BUCKET: int := 300
  const CONNTRACK_PERIOD: int := 5

  /** Received and sent bytes, received and sent packets. */
  datatype Quad = Quad(rx: nat, tx: nat, rxp: nat, txp: nat) {
    predicate Fits(bound: int) { rx < bound && tx < bound && rxp < bound && txp < bound }

    predicate AtMost(other: Quad) { rx <= other.rx && tx <= other.tx && rxp <= other.rxp && txp <= other.txp }

    function Plus(d: Quad): Quad { Quad(rx + d.rx, tx + d.tx, rxp + d.rxp, txp + d.txp) }

    /** 64-bit addition, which wraps. */
    function Plus64(d: Quad): Quad {
      Quad((rx + d.rx) % TWO64, (tx + d.tx) % TWO64, (rxp + d.rxp) % TWO64, (txp + d.txp) % TWO64)
    }

    /** The increase since `prev`, counter by counter. */
    function RiseFrom(prev: Quad): Quad {
      Quad(Rise(rx, prev.rx), Rise(tx, prev.tx), Rise(rxp, prev.rxp), Rise(txp, prev.txp))
    }

    function Bytes(): nat { rx + tx }
  }

  const ZERO: Quad := Quad(0, 0, 0, 0)

  /** The difference as a signed 64-bit number, if it is positive. */
  function Rise(now: nat, prev: nat): nat {
    var d := (now - prev) % TWO64;
    if d < TWO63 then d else 0
  }

  /** That is the positive part of the increase exactly if neither a rise nor a fall is too large for 63 bits. */
  lemma RiseIsIncrease(now: nat, prev: nat)
    requires now < TWO64 && prev < TWO64
    ensures Rise(now, prev) == (if now > prev then now - prev else 0) <==> now - prev < TWO63 && prev - now <= TWO63
  {
    if now >= prev {
      DivMod(now - prev, TWO64, 0, now - prev);
    } else {
      DivMod(now - prev, TWO64, -1, now - prev + TWO64);
    }
  }

  datatype FlowKey = FlowKey(src: uint32, dst: uint32, sport: nat, dport: nat, proto: nat)

  /** What database_store_flow writes for the protocol. */
  datatype ProtoName = Tcp | Udp | Icmp

  function NameOf(proto: nat): ProtoName {
    if proto == 17 then Udp else if proto == 1 then Icmp else Tcp
  }

  datatype RowKey = RowKey(src: uint32, dst: uint32, sport: nat, dport: nat, proto: ProtoName, bucket: int)

  datatype Flow = Flow(acc: Quad, prev: Quad, dirty: bool, lastSeen: int)

  function RowOf(k: FlowKey, lastSeen: int): RowKey {
    RowKey(k.src, k.dst, k.sport, k.dport, NameOf(k.proto), lastSeen / TS_BUCKET)
  }

  /** Two flows share a row exactly if they were seen in the same five minutes and differ in nothing but a protocol that
      is neither UDP nor ICMP. */
  lemma RowsShared(j: FlowKey, k: FlowKey, seenJ: int, seenK: int)
    ensures RowOf(j, seenJ) == RowOf(k, seenK) <==>
            && j.(proto := 0) == k.(proto := 0) && seenJ / TS_BUCKET == seenK / TS_BUCKET
            && (j.proto == k.proto || (j.proto !in {1, 17} && k.proto !in {1, 17}))
  {
  }

  /** One flow_ingest on the entry of a flow, if it has one. */
  function Observe(old_: Option<Flow>, c: Quad, now: int): Flow {
    match old_
    case None => Flow(c, c, true, now)
    case Some(f) =>
      var d := c.RiseFrom(f.prev);
      Flow(f.acc.Plus64(d), c, f.dirty || d != ZERO, now)
  }

  // ---- the ledger: every successful store, by flow entry and by row ----

  datatype Store = Store(entry: nat, row: RowKey, amount: Quad)

  function EntrySum(ledger: seq<Store>, entry: nat): Quad {
    if ledger == [] then ZERO
    else
      var last := ledger[|ledger| - 1];
      var sum := EntrySum(ledger[..|ledger| - 1], entry);
      if last.entry == entry then sum.Plus(last.amount) else sum
  }

  function RowSum(ledger: seq<Store>, row: RowKey): Quad {
    if ledger == [] then ZERO
    else
      var last := ledger[|ledger| - 1];
      var sum := RowSum(ledger[..|ledger| - 1], row);
      if last.row == row then sum.Plus(last.amount) else sum
  }

  lemma LedgerStep(ledger: seq<Store>, s: Store)
    ensures forall e :: EntrySum(ledger + [s], e) ==
                        if s.entry == e then EntrySum(ledger, e).Plus(s.amount) else EntrySum(ledger, e)
    ensures forall r :: RowSum(ledger + [s], r) ==
                        if s.row == r then RowSum(ledger, r).Plus(s.amount) else RowSum(ledger, r)
  {
    assert (ledger + [s])[..|ledger|] == ledger;
  }

  lemma {:induction false} UnknownEntry(ledger: seq<Store>, entry: nat)
    requires forall s :: s in ledger ==> s.entry < entry
    ensures EntrySum(ledger, entry) == ZERO
  {
    if ledger != [] {
      UnknownEntry(ledger[..|ledger| - 1], entry);
    }
  }

  // ---- what an entry should have counted: a sum over the observations of its flow ----

  /** The first counters, then every increase. */
  function Counted(seen: seq<Quad>): Quad {
    if seen == [] then ZERO
    else if |seen| == 1 then seen[0]
    else Counted(seen[..|seen| - 1]).Plus(seen[|seen| - 1].RiseFrom(seen[|seen| - 2]))
  }

  /** No counter ever fell, or left 63 bits. */
  predicate Rising(seen: seq<Quad>) {
    |seen| <= 1 ||
    (Rising(seen[..|seen| - 1]) && seen[|seen| - 2].AtMost(seen[|seen| - 1]) && seen[|seen| - 1].Fits(TWO63))
  }

  /** The same for one counter: where it starts, plus the positive part of every difference. */
  function Increments(xs: seq<int>): int {
    if xs == [] then 0
    else if |xs| == 1 then xs[0]
    else Increments(xs[..|xs| - 1]) + Max(xs[|xs| - 1] - xs[|xs| - 2], 0)
  }

  function Max(a: int, b: int): int { if a >= b then a else b }

  datatype Counter = Rx | Tx | RxPackets | TxPackets

  function Of(c: Quad, which: Counter): nat {
    match which
    case Rx => c.rx
    case Tx => c.tx
    case RxPackets => c.rxp
    case TxPackets => c.txp
  }

  function Column(seen: seq<Quad>, which: Counter): seq<int> {
    seq(|seen|, i requires 0 <= i < |seen| => Of(seen[i], which))
  }

  lemma {:induction false} CountedColumn(seen: seq<Quad>, which: Counter)
    requires forall c :: c in seen ==> c.Fits(TWO63)
    ensures Of(Counted(seen), which) == Increments(Column(seen, which))
    decreases |seen|
  {
    var xs := Column(seen, which);
    if |seen| > 1 {
      var before, last, prev := seen[..|seen| - 1], seen[|seen| - 1], seen[|seen| - 2];
      assert last in seen && prev in seen;
      CountedColumn(before, which);
      RiseIsIncrease(Of(last, which), Of(prev, which));
      assert xs[..|xs| - 1] == Column(before, which);
    }
  }

  /** A flow entry: its number, and the observations since it was created. */
  datatype Book = Book(entry: nat, seen: seq<Quad>)

  function Note(old_: Option<Book>, fresh_: nat, c: Quad): Book {
    match old_
    case None => Book(fresh_, [c])
    case Some(b) => Book(b.entry, b.seen + [c])
  }

  /** The entry was updated with the last observation. */
  predicate UpToDate(f: Flow, b: Book) {
    b.seen != [] && f.prev == b.seen[|b.seen| - 1]
  }

  /** The conservation law of one entry: what its rows got plus what it still holds is what it counted. */
  ghost predicate Balanced(f: Flow, b: Book, committed: Quad) {
    && (Counted(b.seen).Fits(TWO63) ==> committed.Plus(f.acc) == Counted(b.seen))
    && (Rising(b.seen) ==> Counted(b.seen) == f.prev)
    && (!f.dirty ==> f.acc == ZERO)
    && f.acc.Fits(TWO64)
  }

  lemma CountedMore(seen: seq<Quad>, c: Quad)
    requires seen != []
    ensures Counted(seen + [c]) == Counted(seen).Plus(c.RiseFrom(seen[|seen| - 1]))
    ensures Rising(seen + [c]) <==> Rising(seen) && seen[|seen| - 1].AtMost(c) && c.Fits(TWO63)
  {
    var more := seen + [c];
    assert more[..|seen|] == seen;
  }

  lemma ObserveBalanced(f: Flow, b: Book, committed: Quad, c: Quad, now: int)
    requires Balanced(f, b, committed) && UpToDate(f, b) && c.Fits(TWO64)
    ensures Balanced(Observe(Some(f), c, now), Note(Some(b), 0, c), committed)
  {
    hide Counted, Rising, Quad.Plus, Quad.Plus64, Quad.RiseFrom, Quad.Fits, Quad.AtMost;
    CountedMore(b.seen, c);
    QuadObserved(f.acc, Counted(b.seen), committed, c, f.prev);
  }

  lemma QuadObserved(acc: Quad, total: Quad, committed: Quad, now: Quad, prev: Quad)
    ensures var d := now.RiseFrom(prev);
            && (total.Plus(d).Fits(TWO63) && (total.Fits(TWO63) ==> committed.Plus(acc) == total) ==>
                  committed.Plus(acc.Plus64(d)) == total.Plus(d))
            && (total == prev && prev.AtMost(now) && now.Fits(TWO63) ==> total.Plus(d) == now)
            && (acc == ZERO && d == ZERO ==> acc.Plus64(d) == ZERO)
            && acc.Plus64(d).Fits(TWO64)
  {
    hide Rise;
    CounterObserved(acc.rx, total.rx, committed.rx, now.rx, prev.rx);
    CounterObserved(acc.tx, total.tx, committed.tx, now.tx, prev.tx);
    CounterObserved(acc.rxp, total.rxp, committed.rxp, now.rxp, prev.rxp);
    CounterObserved(acc.txp, total.txp, committed.txp, now.txp, prev.txp);
  }

  /** One counter goes up: the wrapped sum is exact as long as everything counted fits. */
  lemma CounterObserved(acc: nat, total: nat, committed: nat, now: nat, prev: nat)
    ensures total + Rise(now, prev) < TWO63 && committed + acc == total ==>
              committed + (acc + Rise(now, prev)) % TWO64 == total + Rise(now, prev)
    ensures total == prev && prev <= now < TWO63 ==> total + Rise(now, prev) == now
    ensures (acc + Rise(now, prev)) % TWO64 < TWO64
  {
    if prev <= now < TWO63 {
      RiseIsIncrease(now, prev);
    }
    hide Rise;
    if acc + Rise(now, prev) < TWO64 {
      DivMod(acc + Rise(now, prev), TWO64, 0, acc + Rise(now, prev));
    }
  }

  // ---- double entry: the ledger by entry and by row comes to the same total ----

  function Total(ledger: seq<Store>): Quad {
    if ledger == [] then ZERO else Total(ledger[..|ledger| - 1]).Plus(ledger[|ledger| - 1].amount)
  }

  lemma TotalStep(ledger: seq<Store>, s: Store)
    ensures Total(ledger + [s]) == Total(ledger).Plus(s.amount)
  {
    assert (ledger + [s])[..|ledger|] == ledger;
  }

  /** What the entries numbered below n got together. */
  function EntriesTotal(ledger: seq<Store>, n: nat): Quad {
    if n == 0 then ZERO else EntriesTotal(ledger, n - 1).Plus(EntrySum(ledger, n - 1))
  }

  lemma {:induction false} NoStores(n: nat)
    ensures EntriesTotal([], n) == ZERO
  {
    if n > 0 {
      NoStores(n - 1);
    }
  }

  lemma {:induction false} EntriesStep(ledger: seq<Store>, s: Store, n: nat)
    ensures EntriesTotal(ledger + [s], n) ==
            if s.entry < n then EntriesTotal(ledger, n).Plus(s.amount) else EntriesTotal(ledger, n)
  {
    if n > 0 {
      EntriesStep(ledger, s, n - 1);
      LedgerStep(ledger, s);
    }
  }

  /** Every stored amount belongs to exactly one entry. */
  lemma {:induction false} EntriesMakeUpTotal(ledger: seq<Store>, n: nat)
    requires forall s :: s in ledger ==> s.entry < n
    ensures EntriesTotal(ledger, n) == Total(ledger)
    decreases |ledger|
  {
    if ledger == [] {
      NoStores(n);
    } else {
      var before, last := ledger[..|ledger| - 1], ledger[|ledger| - 1];
      assert ledger == before + [last];
      EntriesMakeUpTotal(before, n);
      EntriesStep(before, last, n);
    }
  }

  ghost function TableTotal(rows: map<RowKey, Quad>, keys: set<RowKey>): Quad
    requires keys <= rows.Keys
  {
    if keys == {} then ZERO
    else
      var r :| r in keys;
      rows[r].Plus(TableTotal(rows, keys - {r}))
  }

  lemma PlusSwap(a: Quad, b: Quad, c: Quad)
    ensures a.Plus(b.Plus(c)) == b.Plus(a.Plus(c))
  {
  }

  /** The sum of a table does not depend on the order of its rows. */
  lemma {:induction false} TakeOut(rows: map<RowKey, Quad>, keys: set<RowKey>, r: RowKey)
    requires keys <= rows.Keys && r in keys
    ensures TableTotal(rows, keys) == rows[r].Plus(TableTotal(rows, keys - {r}))
    decreases |keys|
  {
    var first :| first in keys && TableTotal(rows, keys) == rows[first].Plus(TableTotal(rows, keys - {first}));
    if first != r {
      var rest := keys - {first} - {r};
      assert keys - {r} - {first} == rest;
      TakeOut(rows, keys - {first}, r);
      TakeOut(rows, keys - {r}, first);
      PlusSwap(rows[first], rows[r], TableTotal(rows, rest));
    }
  }

  lemma {:induction false} SameRows(a: map<RowKey, Quad>, b: map<RowKey, Quad>, keys: set<RowKey>)
    requires keys <= a.Keys && keys <= b.Keys && forall r :: r in keys ==> a[r] == b[r]
    ensures TableTotal(a, keys) == TableTotal(b, keys)
    decreases |keys|
  {
    if keys != {} {
      var r :| r in keys;
      TakeOut(a, keys, r);
      TakeOut(b, keys, r);
      SameRows(a, b, keys - {r});
    }
  }

  /** The upsert of database_store_flow: the row starts at zero and gets the amount. */
  function Upsert(rows: map<RowKey, Quad>, r: RowKey, amount: Quad): map<RowKey, Quad> {
    rows[r := (if r in rows then rows[r] else ZERO).Plus(amount)]
  }

  /** One store adds its amount to the sum of the whole table. */
  lemma UpsertTotal(rows: map<RowKey, Quad>, r: RowKey, amount: Quad)
    ensures var rows' := Upsert(rows, r, amount);
            TableTotal(rows', rows'.Keys) == TableTotal(rows, rows.Keys).Plus(amount)
  {
    var rows' := Upsert(rows, r, amount);
    TakeOut(rows', rows'.Keys, r);
    SameRows(rows', rows, rows.Keys - {r});
    assert rows'.Keys - {r} == rows.Keys - {r};
    if r in rows {
      TakeOut(rows, rows.Keys, r);
    } else {
      assert rows.Keys - {r} == rows.Keys;
    }
  }

  // ---- the invariant of the table ----

  type Noise = FlowKey -> bool

  /** The flow table and the database, with the books that say what they should hold. */
  datatype Table = Table(
    flows: map<FlowKey, Flow>, rows: map<RowKey, Quad>,
    books: map<FlowKey, Book>, ledger: seq<Store>, entries: nat)

  ghost predicate EntriesInv(t: Table) {
    && t.books.Keys == t.flows.Keys
    && (forall k :: k in t.flows ==> t.flows[k].acc.Fits(TWO64))
    && (forall k :: k in t.books ==> t.books[k].entry < t.entries)
    && (forall k :: k in t.flows && k in t.books ==> UpToDate(t.flows[k], t.books[k]))
    && (forall s :: s in t.ledger ==> s.entry < t.entries)
    && (forall j, k :: j in t.books && k in t.books && t.books[j].entry == t.books[k].entry ==> j == k)
  }

  ghost predicate FlowBalanced(f: Flow, b: Book, ledger: seq<Store>, noise: bool) {
    noise || Balanced(f, b, EntrySum(ledger, b.entry))
  }

  ghost predicate FlowsInv(t: Table, isNoise: Noise) {
    forall k :: k in t.flows && k in t.books ==> FlowBalanced(t.flows[k], t.books[k], t.ledger, isNoise(k))
  }

  /** A row holds the sum of everything stored in it. */
  ghost predicate RowsInv(rows: map<RowKey, Quad>, ledger: seq<Store>) {
    forall r :: RowSum(ledger, r) == if r in rows then rows[r] else ZERO
  }

  ghost predicate TableInv(t: Table, isNoise: Noise) {
    && EntriesInv(t) && FlowsInv(t, isNoise) && RowsInv(t.rows, t.ledger)
    && TableTotal(t.rows, t.rows.Keys) == Total(t.ledger)
  }

  ghost function Ingested(t: Table, k: FlowKey, c: Quad, now: int): Table {
    if k in t.flows && k in t.books then
      t.(flows := t.flows[k := Observe(Some(t.flows[k]), c, now)],
         books := t.books[k := Note(Some(t.books[k]), 0, c)])
    else
      t.(flows := t.flows[k := Observe(None, c, now)],
         books := t.books[k := Note(None, t.entries, c)], entries := t.entries + 1)
  }

  lemma IngestKeeps(t: Table, isNoise: Noise, k: FlowKey, c: Quad, now: int)
    requires TableInv(t, isNoise) && c.Fits(TWO64)
    ensures TableInv(Ingested(t, k, c, now), isNoise)
  {
    hide EntriesInv, FlowsInv, RowsInv, TableTotal, Total;
    IngestEntries(t, k, c, now);
    IngestFlows(t, isNoise, k, c, now);
  }

  lemma IngestEntries(t: Table, k: FlowKey, c: Quad, now: int)
    requires EntriesInv(t) && c.Fits(TWO64)
    ensures EntriesInv(Ingested(t, k, c, now))
  {
    if k in t.flows {
      ObserveFits(t.flows[k], c, now);
    }
    hide Observe;
  }

  lemma ObserveFits(f: Flow, c: Quad, now: int)
    requires c.Fits(TWO64)
    ensures Observe(Some(f), c, now).acc.Fits(TWO64) && Observe(None, c, now).acc.Fits(TWO64)
  {
  }

  lemma IngestFlows(t: Table, isNoise: Noise, k: FlowKey, c: Quad, now: int)
    requires EntriesInv(t) && FlowsInv(t, isNoise) && c.Fits(TWO64)
    ensures FlowsInv(Ingested(t, k, c, now), isNoise)
  {
    hide Observe, Note, FlowBalanced;
    var t' := Ingested(t, k, c, now);
    forall j | j in t'.flows && j in t'.books ensures FlowBalanced(t'.flows[j], t'.books[j], t'.ledger, isNoise(j)) {
      if j in t.flows {
        assert FlowBalanced(t.flows[j], t.books[j], t.ledger, isNoise(j));
        if j == k {
          ObservedOnce(t.flows[k], t.books[k], t.ledger, isNoise(k), c, now);
        }
      } else {
        FirstSeen(t.ledger, t.entries, isNoise(k), c, now);
      }
    }
  }

  lemma ObservedOnce(f: Flow, b: Book, ledger: seq<Store>, noise: bool, c: Quad, now: int)
    requires FlowBalanced(f, b, ledger, noise) && UpToDate(f, b) && c.Fits(TWO64)
    ensures FlowBalanced(Observe(Some(f), c, now), Note(Some(b), 0, c), ledger, noise)
  {
    hide Balanced, Observe;
    if !noise {
      ObserveBalanced(f, b, EntrySum(ledger, b.entry), c, now);
    }
  }

  lemma FirstSeen(ledger: seq<Store>, entries: nat, noise: bool, c: Quad, now: int)
    requires c.Fits(TWO64) && forall s :: s in ledger ==> s.entry < entries
    ensures FlowBalanced(Observe(None, c, now), Note(None, entries, c), ledger, noise)
  {
    UnknownEntry(ledger, entries);
  }

  /** Every observation of an address pair that carries bytes, in either direction, is noted. */
  lemma IngestIs(t: Table, k: FlowKey, c: Quad, now: int)
    requires t.books.Keys == t.flows.Keys
    ensures k.src != 0 && k.dst != 0 && c.rx + c.tx > 0 ==>
              var t' := IngestOne(t, k, c, now);
              && k in t'.flows && t'.flows[k].prev == c && t'.flows[k].lastSeen == now
              && k in t'.books && t'.books[k].seen == (if k in t.flows then t.books[k].seen else []) + [c]
              && t'.flows == t.flows[k := t'.flows[k]] && t'.books == t.books[k := t'.books[k]]
              && t'.rows == t.rows && t'.ledger == t.ledger
    ensures k.src == 0 || k.dst == 0 || c.rx + c.tx == 0 ==> IngestOne(t, k, c, now) == t
  {
  }

  lemma IngestTouches(t: Table, k: FlowKey, c: Quad, now: int)
    ensures var after := Ingested(t, k, c, now).flows;
            forall j :: j in after ==> (j in t.flows && after[j] == t.flows[j]) || after[j].lastSeen == now
  {
  }

  /** flow_ingest; a flow without addresses or without bytes is not looked at. */
  ghost function IngestOne(t: Table, k: FlowKey, c: Quad, now: int): Table {
    if k.src == 0 || k.dst == 0 || c.Bytes() == 0 then t else Ingested(t, k, c, now)
  }

  ghost function IngestPass(t: Table, listed: seq<(FlowKey, Quad)>, now: int): Table {
    if listed == [] then t
    else
      var (k, c) := listed[|listed| - 1];
      IngestOne(IngestPass(t, listed[..|listed| - 1], now), k, c, now)
  }

  lemma TableFacts(t: Table, isNoise: Noise)
    requires TableInv(t, isNoise)
    ensures t.books.Keys == t.flows.Keys
    ensures forall k :: k in t.flows ==> t.flows[k].acc.Fits(TWO64)
    ensures forall k :: Uncommitted(t.flows, isNoise, k) ==> Pending(t.flows[k])
  {
    forall k | Uncommitted(t.flows, isNoise, k) ensures Pending(t.flows[k]) {
      assert FlowBalanced(t.flows[k], t.books[k], t.ledger, isNoise(k));
    }
  }

  /** flow_expire. */
  ghost function Expire(t: Table, cutoff: int): Table {
    var gone := set k | k in t.flows && t.flows[k].lastSeen < cutoff;
    t.(flows := t.flows - gone, books := t.books - gone)
  }

  lemma ExpireKeeps(t: Table, isNoise: Noise, cutoff: int)
    requires TableInv(t, isNoise)
    ensures TableInv(Expire(t, cutoff), isNoise)
  {
    var t' := Expire(t, cutoff);
    forall j | j in t'.flows ensures FlowBalanced(t'.flows[j], t'.books[j], t'.ledger, isNoise(j)) {
      assert FlowBalanced(t.flows[j], t.books[j], t.ledger, isNoise(j));
    }
  }

  // ---- the commit pass, flow by flow ----

  predicate Pending(f: Flow) { f.dirty && f.acc.Bytes() > 0 }

  function Cleared(f: Flow): Flow { f.(acc := ZERO, dirty := false) }

  function AfterCommit(f: Flow, noise: bool, stored: bool): Flow {
    if Pending(f) && (noise || stored) then Cleared(f) else f
  }

  ghost function Stored(t: Table, k: FlowKey): Table
    requires k in t.flows && k in t.books
  {
    var r := RowOf(k, t.flows[k].lastSeen);
    t.(flows := t.flows[k := Cleared(t.flows[k])], rows := Upsert(t.rows, r, t.flows[k].acc),
       ledger := t.ledger + [Store(t.books[k].entry, r, t.flows[k].acc)])
  }

  /** What flow_to_db_cb does to the flow at k. */
  ghost function CommitOne(t: Table, isNoise: Noise, k: FlowKey, storeOk: bool): Table
    requires t.books.Keys == t.flows.Keys
  {
    if k !in t.flows || !Pending(t.flows[k]) then t
    else if isNoise(k) then t.(flows := t.flows[k := Cleared(t.flows[k])])
    else if storeOk then Stored(t, k)
    else t
  }

  /** A commit pass that visits the flows in this order. */
  ghost function CommitPass(t: Table, isNoise: Noise, order: seq<FlowKey>, storeOk: FlowKey -> bool): (t': Table)
    requires t.books.Keys == t.flows.Keys
    ensures t'.books.Keys == t'.flows.Keys == t.flows.Keys
  {
    if order == [] then t
    else
      var k := order[|order| - 1];
      CommitOne(CommitPass(t, isNoise, order[..|order| - 1], storeOk), isNoise, k, storeOk(k))
  }

  /** Every flow once. */
  ghost predicate Visits(order: seq<FlowKey>, keys: set<FlowKey>) {
    && (forall k :: k in keys <==> k in order)
    && forall i, j :: 0 <= i < j < |order| ==> order[i] != order[j]
  }

  lemma NoCommits(t: Table, isNoise: Noise, storeOk: FlowKey -> bool)
    requires t.books.Keys == t.flows.Keys
    ensures CommitPass(t, isNoise, [], storeOk) == t && Visits([], {})
  {
  }

  lemma CommitMore(t: Table, isNoise: Noise, order: seq<FlowKey>, k: FlowKey, storeOk: FlowKey -> bool)
    requires t.books.Keys == t.flows.Keys
    ensures CommitPass(t, isNoise, order + [k], storeOk) ==
            CommitOne(CommitPass(t, isNoise, order, storeOk), isNoise, k, storeOk(k))
  {
    assert (order + [k])[..|order|] == order;
  }

  lemma VisitOne(order: seq<FlowKey>, keys: set<FlowKey>, k: FlowKey)
    requires Visits(order, keys) && k !in keys
    ensures Visits(order + [k], keys + {k})
  {
  }

  lemma StoreRows(rows: map<RowKey, Quad>, ledger: seq<Store>, s: Store)
    requires RowsInv(rows, ledger)
    ensures RowsInv(Upsert(rows, s.row, s.amount), ledger + [s])
  {
    LedgerStep(ledger, s);
  }

  lemma StoreKeeps(t: Table, isNoise: Noise, k: FlowKey)
    requires TableInv(t, isNoise) && k in t.flows && !isNoise(k)
    ensures TableInv(Stored(t, k), isNoise)
  {
    hide FlowsInv, EntriesInv, RowsInv, Total, TableTotal, Upsert;
    EntriesFacts(t);
    var s := Store(t.books[k].entry, RowOf(k, t.flows[k].lastSeen), t.flows[k].acc);
    StoreRows(t.rows, t.ledger, s);
    UpsertTotal(t.rows, s.row, s.amount);
    TotalStep(t.ledger, s);
    StoreEntries(t, k);
    StoreFlows(t, isNoise, k);
  }

  lemma EntriesFacts(t: Table)
    requires EntriesInv(t)
    ensures t.books.Keys == t.flows.Keys
  {
  }

  lemma StoreEntries(t: Table, k: FlowKey)
    requires EntriesInv(t) && k in t.flows
    ensures k in t.books && EntriesInv(Stored(t, k))
  {
    hide RowOf, Upsert, UpToDate, Cleared;
    ClearedIs(t.flows[k], t.books[k]);
  }

  lemma ClearedIs(f: Flow, b: Book)
    requires f.acc.Fits(TWO64)
    ensures Cleared(f).acc.Fits(TWO64) && (UpToDate(f, b) <==> UpToDate(Cleared(f), b))
  {
  }

  lemma StoreFlows(t: Table, isNoise: Noise, k: FlowKey)
    requires EntriesInv(t) && FlowsInv(t, isNoise) && k in t.flows && k in t.books && !isNoise(k)
    ensures FlowsInv(Stored(t, k), isNoise)
  {
    hide FlowBalanced, RowOf, Upsert, Cleared;
    var t' := Stored(t, k);
    var s := Store(t.books[k].entry, RowOf(k, t.flows[k].lastSeen), t.flows[k].acc);
    forall j | j in t'.flows && j in t'.books ensures FlowBalanced(t'.flows[j], t'.books[j], t'.ledger, isNoise(j)) {
      assert FlowBalanced(t.flows[j], t.books[j], t.ledger, isNoise(j));
      if j == k {
        OwnStore(t.flows[k], t.books[k], t.ledger, s);
      } else {
        OtherStore(t.flows[j], t.books[j], t.ledger, s, isNoise(j));
      }
    }
  }

  /** A store moves what an entry holds to its row. */
  lemma OwnStore(f: Flow, b: Book, ledger: seq<Store>, s: Store)
    requires FlowBalanced(f, b, ledger, false) && s.entry == b.entry && s.amount == f.acc
    ensures FlowBalanced(Cleared(f), b, ledger + [s], false)
  {
    hide EntrySum, RowSum;
    LedgerStep(ledger, s);
  }

  lemma OtherStore(f: Flow, b: Book, ledger: seq<Store>, s: Store, noise: bool)
    requires FlowBalanced(f, b, ledger, noise) && s.entry != b.entry
    ensures FlowBalanced(f, b, ledger + [s], noise)
  {
    hide EntrySum, RowSum;
    LedgerStep(ledger, s);
  }

  lemma DropNoiseKeeps(t: Table, isNoise: Noise, k: FlowKey)
    requires TableInv(t, isNoise) && k in t.flows && isNoise(k)
    ensures TableInv(t.(flows := t.flows[k := Cleared(t.flows[k])]), isNoise)
  {
    hide RowsInv, TableTotal, Total, EntriesInv, FlowsInv, Cleared;
    DropEntries(t, k);
    DropFlows(t, isNoise, k);
  }

  lemma DropEntries(t: Table, k: FlowKey)
    requires EntriesInv(t) && k in t.flows
    ensures EntriesInv(t.(flows := t.flows[k := Cleared(t.flows[k])]))
  {
    hide UpToDate, Cleared;
    ClearedIs(t.flows[k], t.books[k]);
  }

  lemma DropFlows(t: Table, isNoise: Noise, k: FlowKey)
    requires FlowsInv(t, isNoise) && k in t.flows && isNoise(k)
    ensures FlowsInv(t.(flows := t.flows[k := Cleared(t.flows[k])]), isNoise)
  {
    hide Balanced, Cleared;
    var t' := t.(flows := t.flows[k := Cleared(t.flows[k])]);
    forall j | j in t'.flows && j in t'.books ensures FlowBalanced(t'.flows[j], t'.books[j], t'.ledger, isNoise(j)) {
      assert FlowBalanced(t.flows[j], t.books[j], t.ledger, isNoise(j));
    }
  }

  /** One turn of daemon_loop: its clock, the clock of conntrack_update, what conntrack lists, and which stores
      succeed. */
  datatype Turn = Turn(now: int, seen: int, listed: seq<(FlowKey, Quad)>, storeOk: FlowKey -> bool)

  datatype LoopState = LoopState(table: Table, lastCommit: int, lastConntrack: int)

  /** Conntrack is read every five seconds; then the flows it no longer lists are expired. */
  ghost function AfterReading(s: LoopState, turn: Turn, flowTimeout: int): LoopState {
    if turn.now - s.lastConntrack < CONNTRACK_PERIOD then s
    else s.(table := Expire(IngestPass(s.table, turn.listed, turn.seen), turn.seen - flowTimeout),
          lastConntrack := turn.now)
  }

  /** When the interval is over, all flows are committed, in some order. */
  ghost predicate CommitTaken(s: LoopState, turn: Turn, isNoise: Noise, interval: int, s': LoopState) {
    if turn.now - s.lastCommit < interval then s' == s
    else
      && s.table.books.Keys == s.table.flows.Keys
      && exists order :: Visits(order, s.table.flows.Keys) &&
           s' == s.(table := CommitPass(s.table, isNoise, order, turn.storeOk), lastCommit := turn.now)
  }

  /** One turn of daemon_loop. */
  ghost predicate TurnTaken(s: LoopState, turn: Turn, isNoise: Noise, interval: int, flowTimeout: int, s': LoopState) {
    CommitTaken(AfterReading(s, turn, flowTimeout), turn, isNoise, interval, s')
  }

  ghost predicate WellFormedTurn(turn: Turn) {
    forall o :: o in turn.listed ==> o.1.Fits(TWO64)
  }

  ghost predicate Uncommitted(t: map<FlowKey, Flow>, isNoise: Noise, k: FlowKey) {
    k in t && !isNoise(k) && (t[k].acc.rx > 0 || t[k].acc.tx > 0)
  }

  /** Bytes that wait for a commit were seen since the last one, and the next one is less than an interval away. */
  ghost predicate Prompt(t: map<FlowKey, Flow>, isNoise: Noise, interval: int, lastCommit: int, lastNow: int) {
    && lastCommit <= lastNow
    && forall k :: Uncommitted(t, isNoise, k) ==> t[k].lastSeen >= lastCommit && lastNow - lastCommit < interval
  }

  ghost predicate SeenSince(t: map<FlowKey, Flow>, isNoise: Noise, since: int) {
    forall k :: Uncommitted(t, isNoise, k) ==> t[k].lastSeen >= since
  }

  /** Every flow with uncommitted bytes is still there. */
  ghost predicate AllSurvive(before: map<FlowKey, Flow>, isNoise: Noise, after: map<FlowKey, Flow>) {
    forall k :: Uncommitted(before, isNoise, k) ==> k in after && after[k] == before[k]
  }

  /** The expiry of this turn, if it has one, discards no uncommitted bytes of what conntrack has just listed. */
  ghost predicate NothingLost(s: LoopState, turn: Turn, isNoise: Noise, flowTimeout: int) {
    turn.now - s.lastConntrack >= CONNTRACK_PERIOD ==>
      AllSurvive(IngestPass(s.table, turn.listed, turn.seen).flows, isNoise,
            AfterReading(s, turn, flowTimeout).table.flows)
  }

  /** Expiry loses bytes exactly if some wait in a flow last seen before the cutoff. */
  lemma ExpiryLoses(t: Table, isNoise: Noise, cutoff: int)
    ensures AllSurvive(t.flows, isNoise, Expire(t, cutoff).flows) <==> SeenSince(t.flows, isNoise, cutoff)
  {
    var after := Expire(t, cutoff).flows;
    forall k | Uncommitted(t.flows, isNoise, k)
      ensures k in after && after[k] == t.flows[k] <==> t.flows[k].lastSeen >= cutoff
    {
    }
  }

  lemma PromptIsSeen(t: map<FlowKey, Flow>, isNoise: Noise, interval: int, lastCommit: int, lastNow: int)
    requires Prompt(t, isNoise, interval, lastCommit, lastNow)
    ensures lastCommit <= lastNow && SeenSince(t, isNoise, lastCommit)
  {
  }

  /** What waits when conntrack has been read was seen just now, or waits for less than an interval and a turn. */
  lemma ListedIsSeen(before: map<FlowKey, Flow>, after: map<FlowKey, Flow>, isNoise: Noise, interval: int,
                     lastCommit: int, lastNow: int, seen: int, period: int, flowTimeout: int)
    requires Prompt(before, isNoise, interval, lastCommit, lastNow)
    requires forall k :: k in after ==> (k in before && after[k] == before[k]) || after[k].lastSeen == seen
    requires lastNow <= seen && (before == map[] || seen <= lastNow + period)
    requires interval + period <= flowTimeout && 0 <= flowTimeout
    ensures SeenSince(after, isNoise, lastCommit) && SeenSince(after, isNoise, seen - flowTimeout)
  {
    forall k | Uncommitted(after, isNoise, k)
      ensures after[k].lastSeen >= lastCommit && after[k].lastSeen >= seen - flowTimeout
    {
      if after[k].lastSeen != seen {
        assert Uncommitted(before, isNoise, k);
      }
    }
  }

  lemma ExpiredIsSeen(t: Table, isNoise: Noise, cutoff: int, since: int)
    requires SeenSince(t.flows, isNoise, since)
    ensures SeenSince(Expire(t, cutoff).flows, isNoise, since)
  {
    var after := Expire(t, cutoff).flows;
    forall k | Uncommitted(after, isNoise, k) ensures after[k].lastSeen >= since {
      assert Uncommitted(t.flows, isNoise, k);
    }
  }

  lemma TurnIs(s: LoopState, turn: Turn, isNoise: Noise, interval: int, flowTimeout: int, s': LoopState)
    requires CommitTaken(AfterReading(s, turn, flowTimeout), turn, isNoise, interval, s')
    ensures TurnTaken(s, turn, isNoise, interval, flowTimeout, s')
  {
  }

  /** A successful store leaves nothing behind, a failed one everything. */
  lemma CommittedIs(before: map<FlowKey, Flow>, isNoise: Noise, storeOk: FlowKey -> bool, after: map<FlowKey, Flow>)
    requires forall k :: Uncommitted(before, isNoise, k) ==> Pending(before[k])
    requires after == map k | k in before :: AfterCommit(before[k], isNoise(k), storeOk(k))
    ensures forall k :: k in before && !isNoise(k) ==>
              if storeOk(k) then after[k].acc.rx == 0 && after[k].acc.tx == 0 else after[k] == before[k]
  {
    forall k | k in before && !isNoise(k)
      ensures if storeOk(k) then after[k].acc.rx == 0 && after[k].acc.tx == 0 else after[k] == before[k]
    {
      assert Uncommitted(before, isNoise, k) ==> Pending(before[k]);
    }
  }

  /** If every store succeeds, a commit pass leaves nothing behind. */
  lemma NothingWaits(before: map<FlowKey, Flow>, isNoise: Noise, storeOk: FlowKey -> bool, after: map<FlowKey, Flow>)
    requires forall k :: Uncommitted(before, isNoise, k) ==> Pending(before[k])
    requires after == map k | k in before :: AfterCommit(before[k], isNoise(k), storeOk(k))
    ensures (forall k :: storeOk(k)) ==> forall k :: !Uncommitted(after, isNoise, k)
  {
  }

  /** One counter: only a rise counts. */
  method Accumulate(acc: nat, now: nat, prev: nat) returns (sum: nat, rose: bool)
    requires acc < TWO64
    ensures sum == (acc + Rise(now, prev)) % TWO64 && (rose <==> Rise(now, prev) > 0)
  {
    var d := (now - prev) % TWO64;
    if d >= TWO63 { d := d - TWO64; }
    sum, rose := acc, false;
    if d > 0 { sum, rose := (acc + d) % TWO64, true; }
  }

  method Reobserve(f: Flow, c: Quad, now: int) returns (g: Flow)
    requires f.acc.Fits(TWO64)
    ensures g == Observe(Some(f), c, now)
  {
    var rx, rx1 := Accumulate(f.acc.rx, c.rx, f.prev.rx);
    var tx, tx1 := Accumulate(f.acc.tx, c.tx, f.prev.tx);
    var rxp, rxp1 := Accumulate(f.acc.rxp, c.rxp, f.prev.rxp);
    var txp, txp1 := Accumulate(f.acc.txp, c.txp, f.prev.txp);
    g := Flow(Quad(rx, tx, rxp, txp), c, f.dirty || rx1 || tx1 || rxp1 || txp1, now);
  }

  class FlowTable {
    const isNoise: Noise
    const commitInterval: int
    const flowTimeout: int
    var flows: map<FlowKey, Flow>
    var rows: map<RowKey, Quad>
    var lastCommit: int
    var lastConntrack: int
    ghost var books: map<FlowKey, Book>
    ghost var ledger: seq<Store>
    ghost var entries: nat

    ghost function View(): Table
      reads this
    {
      Table(flows, rows, books, ledger, entries)
    }

    ghost function Loop(): LoopState
      reads this
    {
      LoopState(View(), lastCommit, lastConntrack)
    }

    ghost predicate Valid()
      reads this
    {
      TableInv(View(), isNoise)
    }

    constructor (isNoise: Noise, commitInterval: int, flowTimeout: int)
      ensures Valid() && flows == map[] && rows == map[] && lastCommit == 0
      ensures this.isNoise == isNoise && this.commitInterval == commitInterval && this.flowTimeout == flowTimeout
    {
      this.isNoise, this.commitInterval, this.flowTimeout := isNoise, commitInterval, flowTimeout;
      flows, rows, lastCommit, lastConntrack := map[], map[], 0, 0;
      books, ledger, entries := map[], [], 0;
    }

    method Ingest(k: FlowKey, c: Quad, now: int)
      requires Valid() && c.Fits(TWO64)
      modifies this`flows, this`books, this`entries
      ensures Valid()
      ensures View() == IngestOne(old(View()), k, c, now)
      ensures k.src != 0 && k.dst != 0 && c.rx + c.tx > 0 ==>
                && k in flows && flows[k].prev == c && flows[k].lastSeen == now
                && k in books && books[k].seen == (if k in old(flows) then old(books)[k].seen else []) + [c]
                && flows == old(flows)[k := flows[k]] && books == old(books)[k := books[k]]
                && rows == old(rows) && ledger == old(ledger)
      ensures k.src == 0 || k.dst == 0 || c.rx + c.tx == 0 ==> View() == old(View())
    {
      hide TableInv, Note;
      TableFacts(View(), isNoise);
      IngestIs(View(), k, c, now);
      if k.src == 0 || k.dst == 0 { return; }
      if c.rx == 0 && c.tx == 0 { return; }
      IngestKeeps(View(), isNoise, k, c, now);
      TableFacts(View(), isNoise);
      ghost var after := Ingested(View(), k, c, now);
      var f := Flow(c, c, true, now);
      if k in flows {
        f := Reobserve(flows[k], c, now);
      }
      flows := flows[k := f];
      books, entries := after.books, after.entries;
    }

    /** Forget the flows conntrack has not listed for longer than the timeout. */
    method ExpireFlows(now: int)
      requires Valid()
      modifies this`flows, this`books
      ensures Valid() && View() == Expire(old(View()), now - flowTimeout)
      ensures forall k :: k in flows <==> k in old(flows) && old(flows)[k].lastSeen >= now - flowTimeout
      ensures forall k :: k in flows ==> flows[k] == old(flows)[k]
      ensures AllSurvive(old(flows), isNoise, flows) <==> SeenSince(old(flows), isNoise, now - flowTimeout)
    {
      hide TableInv;
      ExpireKeeps(View(), isNoise, now - flowTimeout);
      ghost var after := Expire(View(), now - flowTimeout);
      TableFacts(View(), isNoise);
      ExpiryLoses(View(), isNoise, now - flowTimeout);
      var cutoff := now - flowTimeout;
      flows := map k | k in flows && !(flows[k].lastSeen < cutoff) :: flows[k];
      books := after.books;
      assert flows == after.flows;
    }

    /** flow_to_db_cb: commit one flow, or drop it as protocol noise. */
    method CommitFlow(k: FlowKey, storeOk: bool)
      requires Valid() && k in flows
      modifies this`flows, this`rows, this`ledger
      ensures Valid() && old(books.Keys == flows.Keys)
      ensures View() == CommitOne(old(View()), isNoise, k, storeOk)
      ensures flows == old(flows)[k := AfterCommit(old(flows)[k], isNoise(k), storeOk)]
      ensures old(Uncommitted(flows, isNoise, k)) && storeOk ==>
                && flows[k].acc == ZERO
                && var row := RowKey(k.src, k.dst, k.sport, k.dport,
                                     if k.proto == 17 then Udp else if k.proto == 1 then Icmp else Tcp,
                                     old(flows)[k].lastSeen / 300);
                   rows == old(rows)[row := (if row in old(rows) then old(rows)[row] else ZERO).Plus(old(flows)[k].acc)]
      ensures isNoise(k) || !storeOk || (old(flows)[k].acc.rx == 0 && old(flows)[k].acc.tx == 0) ==> rows == old(rows)
    {
      hide TableInv;
      TableFacts(View(), isNoise);
      var f := flows[k];
      if !f.dirty || (f.acc.rx == 0 && f.acc.tx == 0) { return; }
      if isNoise(k) {
        DropNoiseKeeps(View(), isNoise, k);
        flows := flows[k := f.(acc := ZERO, dirty := false)];
        return;
      }
      if storeOk {
        StoreKeeps(View(), isNoise, k);
        ghost var after := Stored(View(), k);
        var r := RowOf(k, f.lastSeen);
        rows := rows[r := (if r in rows then rows[r] else ZERO).Plus(f.acc)];
        flows := flows[k := f.(acc := ZERO, dirty := false)];
        ledger := after.ledger;
      }
    }

    /** conntrack_foreach_flow(flow_to_db_cb), in any order. */
    method CommitAll(storeOk: FlowKey -> bool) returns (ghost order: seq<FlowKey>)
      requires Valid()
      modifies this`flows, this`rows, this`ledger
      ensures Valid() && old(books.Keys == flows.Keys)
      ensures Visits(order, old(flows).Keys) && View() == CommitPass(old(View()), isNoise, order, storeOk)
      ensures flows == map k | k in old(flows) :: AfterCommit(old(flows)[k], isNoise(k), storeOk(k))
      ensures forall k :: k in old(flows) && !isNoise(k) ==>
                if storeOk(k) then flows[k].acc.rx == 0 && flows[k].acc.tx == 0 else flows[k] == old(flows)[k]
    {
      hide TableInv, CommitOne, CommitPass, Visits, AfterCommit;
      TableFacts(View(), isNoise);
      NoCommits(View(), isNoise, storeOk);
      ghost var before := flows;
      order := [];
      var todo := flows.Keys;
      assert old(flows).Keys - todo == {};
      while todo != {}
        invariant Valid()
        invariant View() == CommitPass(old(View()), isNoise, order, storeOk)
        invariant Visits(order, old(flows).Keys - todo)
        invariant todo <= flows.Keys == old(flows).Keys
        invariant forall k :: k in flows ==>
                    flows[k] == if k in todo then old(flows)[k] else AfterCommit(old(flows)[k], isNoise(k), storeOk(k))
        decreases todo
      {
        var k :| k in todo;
        CommitFlow(k, storeOk(k));
        VisitOne(order, old(flows).Keys - todo, k);
        CommitMore(old(View()), isNoise, order, k, storeOk);
        assert old(flows).Keys - (todo - {k}) == old(flows).Keys - todo + {k};
        order := order + [k];
        todo := todo - {k};
      }
      assert old(flows).Keys - todo == old(flows).Keys;
      CommittedIs(before, isNoise, storeOk, flows);
    }

    method IngestAll(listed: seq<(FlowKey, Quad)>, seen: int)
      requires Valid() && forall o :: o in listed ==> o.1.Fits(TWO64)
      modifies this`flows, this`books, this`entries
      ensures Valid() && View() == IngestPass(old(View()), listed, seen)
      ensures forall k :: k in flows ==> (k in old(flows) && flows[k] == old(flows)[k]) || flows[k].lastSeen == seen
    {
      hide TableInv, Ingested;
      assert listed[..|listed|] == listed;
      for i := 0 to |listed|
        invariant Valid() && View() == IngestPass(old(View()), listed[..i], seen)
        invariant forall k :: k in flows ==> (k in old(flows) && flows[k] == old(flows)[k]) || flows[k].lastSeen == seen
      {
        var (k, c) := listed[i];
        IngestTouches(View(), k, c, seen);
        assert listed[..i + 1][..i] == listed[..i];
        Ingest(k, c, seen);
      }
    }

    /** One turn of daemon_loop. `lastNow` is the clock of the turn before. */
    method Iterate(turn: Turn, ghost lastNow: int, ghost period: int)
      requires Valid() && WellFormedTurn(turn)
      modifies this
      ensures Valid() && TurnTaken(old(Loop()), turn, isNoise, commitInterval, flowTimeout, Loop())
      ensures && old(Prompt(flows, isNoise, commitInterval, lastCommit, lastNow))
              && lastNow <= turn.now <= turn.seen && (old(flows) == map[] || turn.seen <= lastNow + period)
              && commitInterval + period <= flowTimeout && 0 <= flowTimeout
              && (forall k :: turn.storeOk(k))
              ==> NothingLost(old(Loop()), turn, isNoise, flowTimeout)
                  && Prompt(flows, isNoise, commitInterval, lastCommit, turn.now)
    {
      hide *;
      ReadIfDue(turn, lastNow, period);
      CommitIfDue(turn);
      TurnIs(old(Loop()), turn, isNoise, commitInterval, flowTimeout, Loop());
    }

    method ReadIfDue(turn: Turn, ghost lastNow: int, ghost period: int)
      requires Valid() && WellFormedTurn(turn)
      modifies this
      ensures Valid() && Loop() == AfterReading(old(Loop()), turn, flowTimeout)
      ensures lastCommit == old(lastCommit)
      ensures && old(Prompt(flows, isNoise, commitInterval, lastCommit, lastNow))
              && lastNow <= turn.now <= turn.seen && (old(flows) == map[] || turn.seen <= lastNow + period)
              && commitInterval + period <= flowTimeout && 0 <= flowTimeout
              ==> NothingLost(old(Loop()), turn, isNoise, flowTimeout)
                  && lastCommit <= turn.now && SeenSince(flows, isNoise, lastCommit)
    {
      hide TableInv, IngestPass, Uncommitted, Expire, Prompt, SeenSince, AllSurvive;
      ghost var calm := && Prompt(flows, isNoise, commitInterval, lastCommit, lastNow)
                        && lastNow <= turn.now <= turn.seen && (flows == map[] || turn.seen <= lastNow + period)
                        && commitInterval + period <= flowTimeout && 0 <= flowTimeout;
      if calm { PromptIsSeen(flows, isNoise, commitInterval, lastCommit, lastNow); }
      if turn.now - lastConntrack >= CONNTRACK_PERIOD {
        ghost var before := flows;
        IngestAll(turn.listed, turn.seen);
        if calm {
          ListedIsSeen(before, flows, isNoise, commitInterval, lastCommit, lastNow, turn.seen, period, flowTimeout);
          ExpiredIsSeen(View(), isNoise, turn.seen - flowTimeout, lastCommit);
        }
        ExpireFlows(turn.seen);
        lastConntrack := turn.now;
      }
    }

    method CommitIfDue(turn: Turn)
      requires Valid()
      modifies this`flows, this`rows, this`ledger, this`lastCommit
      ensures Valid() && CommitTaken(old(Loop()), turn, isNoise, commitInterval, Loop())
      ensures old(lastCommit) <= turn.now && (forall k :: turn.storeOk(k))
              && old(SeenSince(flows, isNoise, lastCommit)) ==>
                Prompt(flows, isNoise, commitInterval, lastCommit, turn.now)
    {
      hide TableInv, Visits, CommitPass, AfterCommit;
      if turn.now - lastCommit >= commitInterval {
        TableFacts(View(), isNoise);
        ghost var before := flows;
        ghost var order := CommitAll(turn.storeOk);
        NothingWaits(before, isNoise, turn.storeOk, flows);
        lastCommit := turn.now;
      }
    }

    /** daemon_loop, over any sequence of turns: no bytes are lost to expiry if every store succeeds and a commit
        interval and a turn fit into the flow timeout. */
    method DaemonLoop(turns: seq<Turn>, ghost period: int) returns (ghost run: seq<LoopState>)
      requires Valid() && flows == map[] && lastCommit == 0
      requires forall i :: 0 <= i < |turns| ==> WellFormedTurn(turns[i])
      modifies this
      ensures Valid() && RunInv(run, isNoise)
      ensures IsRun(run, turns, isNoise, commitInterval, flowTimeout) && run[0] == old(Loop()) && run[|turns|] == Loop()
      ensures Timely(turns, period) && commitInterval + period <= flowTimeout && 0 <= flowTimeout ==>
                forall i :: 0 <= i < |turns| ==> NothingLost(run[i], turns[i], isNoise, flowTimeout)
    {
      hide TableInv, NothingLost;
      ghost var lastNow := 0;
      run := [Loop()];
      ghost var sound := Timely(turns, period) && commitInterval + period <= flowTimeout && 0 <= flowTimeout;
      for i := 0 to |turns|
        invariant Valid()
        invariant IsRun(run, turns[..i], isNoise, commitInterval, flowTimeout)
                  && run[0] == old(Loop()) && run[i] == Loop()
        invariant lastNow == if i == 0 then 0 else turns[i - 1].now
        invariant i == 0 ==> flows == map[]
        invariant forall j :: 0 <= j <= i ==> TableInv(run[j].table, isNoise)
        invariant sound ==> forall j :: 0 <= j < i ==> NothingLost(run[j], turns[j], isNoise, flowTimeout)
        invariant sound ==> Prompt(flows, isNoise, commitInterval, lastCommit, lastNow)
      {
        assert sound ==> TimelyTurn(turns, period, i);
        Iterate(turns[i], lastNow, period);
        RunStep(run, turns, i, isNoise, commitInterval, flowTimeout, Loop());
        run := run + [Loop()];
        lastNow := turns[i].now;
      }
      assert turns[..|turns|] == turns;
    }
  }

  ghost predicate IsRun(run: seq<LoopState>, turns: seq<Turn>, isNoise: Noise, interval: int, flowTimeout: int) {
    && |run| == |turns| + 1
    && forall i :: 0 <= i < |turns| ==> TurnTaken(run[i], turns[i], isNoise, interval, flowTimeout, run[i + 1])
  }

  lemma RunStep(run: seq<LoopState>, turns: seq<Turn>, n: nat, isNoise: Noise, interval: int,
              flowTimeout: int, s: LoopState)
    requires n < |turns| && IsRun(run, turns[..n], isNoise, interval, flowTimeout)
    requires TurnTaken(run[n], turns[n], isNoise, interval, flowTimeout, s)
    ensures IsRun(run + [s], turns[..n + 1], isNoise, interval, flowTimeout)
  {
    hide TurnTaken;
    var run', turns' := run + [s], turns[..n + 1];
    forall i | 0 <= i < |turns'| ensures TurnTaken(run'[i], turns'[i], isNoise, interval, flowTimeout, run'[i + 1]) {
      if i < n {
        assert turns'[i] == turns[..n][i] && run'[i] == run[i] && run'[i + 1] == run[i + 1];
      }
    }
  }

  /** The clock does not go back, a turn is at most `period` after the one before, and its stores succeed. */
  ghost predicate TimelyTurn(turns: seq<Turn>, period: int, i: int)
    requires 0 <= i < |turns|
  {
    && 0 <= turns[i].now <= turns[i].seen
    && (i > 0 ==> turns[i - 1].now <= turns[i].now && turns[i].seen <= turns[i - 1].now + period)
    && forall k :: turns[i].storeOk(k)
  }

  ghost predicate Timely(turns: seq<Turn>, period: int) {
    forall i :: 0 <= i < |turns| ==> TimelyTurn(turns, period, i)
  }

  // ---- what the invariant means ----

  /** While an entry lives, its stores and what it still holds make up everything that was observed of it; if no counter
      ever fell, that is the latest counter itself. */
  lemma Conservation(t: FlowTable, k: FlowKey)
    requires t.Valid() && k in t.flows && !t.isNoise(k)
    ensures k in t.books && t.books[k].seen != []
    ensures var seen := t.books[k].seen;
            && t.flows[k].prev == seen[|seen| - 1]
            && (Counted(seen).Fits(TWO63) ==>
                  EntrySum(t.ledger, t.books[k].entry).Plus(t.flows[k].acc) == Counted(seen))
            && (Rising(seen) && t.flows[k].prev.Fits(TWO63) ==>
                  EntrySum(t.ledger, t.books[k].entry).Plus(t.flows[k].acc) == seen[|seen| - 1])
    ensures !t.flows[k].dirty ==> t.flows[k].acc == ZERO
  {
    assert k in t.books;
    assert UpToDate(t.flows[k], t.books[k]);
    assert FlowBalanced(t.flows[k], t.books[k], t.ledger, t.isNoise(k));
  }

  /** The database as a whole holds exactly what all flow entries, living and expired, have committed. */
  lemma DatabaseHoldsWhatFlowsCommitted(t: FlowTable)
    requires t.Valid()
    ensures TableTotal(t.rows, t.rows.Keys) == EntriesTotal(t.ledger, t.entries)
    ensures forall r :: r in t.rows ==> t.rows[r] == RowSum(t.ledger, r)
  {
    EntriesMakeUpTotal(t.ledger, t.entries);
  }

  /** A later ledger never takes back what an earlier one gave to an entry or a row. */
  lemma {:induction false} LedgerOnlyGrows(earlier: seq<Store>, later: seq<Store>, entry: nat, row: RowKey)
    requires earlier <= later
    ensures EntrySum(earlier, entry).AtMost(EntrySum(later, entry))
    ensures RowSum(earlier, row).AtMost(RowSum(later, row))
    decreases |later|
  {
    if |earlier| == |later| {
      assert earlier == later;
    } else {
      LedgerOnlyGrows(earlier, later[..|later| - 1], entry, row);
    }
  }

  /** Nothing is taken back from the database. */
  ghost predicate Grows(a: Table, b: Table) {
    a.ledger <= b.ledger && a.rows.Keys <= b.rows.Keys
  }

  lemma {:induction false} ReadingStoresNothing(t: Table, listed: seq<(FlowKey, Quad)>, now: int)
    ensures IngestPass(t, listed, now).ledger == t.ledger && IngestPass(t, listed, now).rows == t.rows
    decreases |listed|
  {
    if listed != [] {
      ReadingStoresNothing(t, listed[..|listed| - 1], now);
    }
  }

  lemma {:induction false} CommitGrows(t: Table, isNoise: Noise, order: seq<FlowKey>, storeOk: FlowKey -> bool)
    requires t.books.Keys == t.flows.Keys
    ensures Grows(t, CommitPass(t, isNoise, order, storeOk))
    decreases |order|
  {
    if order != [] {
      CommitGrows(t, isNoise, order[..|order| - 1], storeOk);
    }
  }

  lemma TurnGrows(s: LoopState, turn: Turn, isNoise: Noise, interval: int, flowTimeout: int, s': LoopState)
    requires TurnTaken(s, turn, isNoise, interval, flowTimeout, s')
    ensures Grows(s.table, s'.table)
  {
    hide CommitPass, Visits, IngestPass;
    ReadingStoresNothing(s.table, turn.listed, turn.seen);
    var read := AfterReading(s, turn, flowTimeout);
    if turn.now - read.lastCommit >= interval {
      var order :| && Visits(order, read.table.flows.Keys)
                   && s' == read.(table := CommitPass(read.table, isNoise, order, turn.storeOk),
                            lastCommit := turn.now);
      CommitGrows(read.table, isNoise, order, turn.storeOk);
    }
  }

  lemma {:induction false} RunGrows(run: seq<LoopState>, turns: seq<Turn>, isNoise: Noise,
                                      interval: int, flowTimeout: int,
                                    i: nat, j: nat)
    requires IsRun(run, turns, isNoise, interval, flowTimeout) && i <= j < |run|
    ensures Grows(run[i].table, run[j].table)
    decreases j - i
  {
    hide TurnTaken;
    if i < j {
      RunGrows(run, turns, isNoise, interval, flowTimeout, i, j - 1);
      TurnGrows(run[j - 1], turns[j - 1], isNoise, interval, flowTimeout, run[j]);
    }
  }

  /** In every run of the daemon, a row once written stays and never falls. */
  lemma RowsNeverFall(run: seq<LoopState>, turns: seq<Turn>, isNoise: Noise, interval: int, flowTimeout: int,
                      i: nat, j: nat, r: RowKey)
    requires IsRun(run, turns, isNoise, interval, flowTimeout) && i <= j < |run|
    requires TableInv(run[i].table, isNoise) && TableInv(run[j].table, isNoise)
    requires r in run[i].table.rows
    ensures r in run[j].table.rows && run[i].table.rows[r].AtMost(run[j].table.rows[r])
  {
    hide IsRun, EntriesInv, FlowsInv, TableTotal, Total;
    RunGrows(run, turns, isNoise, interval, flowTimeout, i, j);
    LedgerOnlyGrows(run[i].table.ledger, run[j].table.ledger, 0, r);
  }

  // ---- the law over runs, in terms of what conntrack listed ----

  /** The observations of one flow in a list, in order: those of an address pair that carry bytes. */
  function ObservedIn(listed: seq<(FlowKey, Quad)>, k: FlowKey): seq<Quad> {
    if listed == [] then []
    else
      var (j, c) := listed[|listed| - 1];
      ObservedIn(listed[..|listed| - 1], k) +
      if j == k && k.src != 0 && k.dst != 0 && c.rx + c.tx > 0 then [c] else []
  }

  /** What was listed of a flow in the turns from m up to n in which conntrack was read. */
  ghost function Observed(run: seq<LoopState>, turns: seq<Turn>, k: FlowKey, m: nat, n: nat): seq<Quad>
    requires m <= n <= |turns| && |run| == |turns| + 1
    decreases n
  {
    if m == n then []
    else Observed(run, turns, k, m, n - 1) + ReadBy(run[n - 1], turns[n - 1], k)
  }

  ghost function ReadBy(s: LoopState, turn: Turn, k: FlowKey): seq<Quad> {
    if turn.now - s.lastConntrack >= 5 then ObservedIn(turn.listed, k) else []
  }

  /** What an entry has seen, if there is one. */
  ghost function SeenOf(t: Table, k: FlowKey): seq<Quad> {
    if k in t.flows && k in t.books then t.books[k].seen else []
  }

  lemma {:induction false} PassNotesAll(t: Table, listed: seq<(FlowKey, Quad)>, now: int, k: FlowKey)
    requires t.books.Keys == t.flows.Keys
    ensures var t' := IngestPass(t, listed, now);
            && t'.books.Keys == t'.flows.Keys
            && SeenOf(t', k) == SeenOf(t, k) + ObservedIn(listed, k)
            && (k in t'.flows <==> k in t.flows || ObservedIn(listed, k) != [])
    decreases |listed|
  {
    if listed == [] {
      assert SeenOf(t, k) + [] == SeenOf(t, k);
    } else {
      var before := listed[..|listed| - 1];
      var (j, c) := listed[|listed| - 1];
      PassNotesAll(t, before, now, k);
      OneNoted(IngestPass(t, before, now), j, c, now, k);
      hide SeenOf, IngestOne;
      assert SeenOf(t, k) + ObservedIn(before, k) + [c] == SeenOf(t, k) + (ObservedIn(before, k) + [c]);
      assert ObservedIn(before, k) + [] == ObservedIn(before, k);
    }
  }

  lemma OneNoted(t: Table, j: FlowKey, c: Quad, now: int, k: FlowKey)
    requires t.books.Keys == t.flows.Keys
    ensures var t' := IngestOne(t, j, c, now);
            var noted := j == k && k.src != 0 && k.dst != 0 && c.rx + c.tx > 0;
            && t'.books.Keys == t'.flows.Keys
            && SeenOf(t', k) == SeenOf(t, k) + (if noted then [c] else [])
            && (k in t'.flows <==> k in t.flows || noted)
  {
    assert SeenOf(t, k) + [] == SeenOf(t, k);
  }

  lemma {:induction false} CommitKeepsBooks(t: Table, isNoise: Noise, order: seq<FlowKey>, storeOk: FlowKey -> bool)
    requires t.books.Keys == t.flows.Keys
    ensures CommitPass(t, isNoise, order, storeOk).books == t.books
    ensures CommitPass(t, isNoise, order, storeOk).flows.Keys == t.flows.Keys
    decreases |order|
  {
    if order != [] {
      CommitKeepsBooks(t, isNoise, order[..|order| - 1], storeOk);
    }
  }

  /** A turn adds what it reads of a flow to its entry, or ends the entry. */
  lemma TurnNotesAll(s: LoopState, turn: Turn, isNoise: Noise, interval: int, flowTimeout: int,
                     s': LoopState, k: FlowKey)
    requires TurnTaken(s, turn, isNoise, interval, flowTimeout, s') && s.table.books.Keys == s.table.flows.Keys
    ensures k in s'.table.flows ==> SeenOf(s'.table, k) == SeenOf(s.table, k) + ReadBy(s, turn, k)
  {
    hide CommitPass, Visits, IngestPass, ObservedIn;
    var read := AfterReading(s, turn, flowTimeout);
    PassNotesAll(s.table, turn.listed, turn.seen, k);
    assert SeenOf(s.table, k) + [] == SeenOf(s.table, k);
    if turn.now - read.lastCommit >= interval {
      var order :| && Visits(order, read.table.flows.Keys)
                   && s' == read.(table := CommitPass(read.table, isNoise, order, turn.storeOk),
                                  lastCommit := turn.now);
      CommitKeepsBooks(read.table, isNoise, order, turn.storeOk);
    }
  }

  ghost predicate RunInv(run: seq<LoopState>, isNoise: Noise) {
    forall i :: 0 <= i < |run| ==> TableInv(run[i].table, isNoise)
  }

  /** An entry has seen exactly what was listed of its flow since the turn that created it. */
  lemma {:induction false} EntrySeesItsFlow(run: seq<LoopState>, turns: seq<Turn>, isNoise: Noise, interval: int,
                                            flowTimeout: int, k: FlowKey, m: nat, n: nat)
    requires IsRun(run, turns, isNoise, interval, flowTimeout) && RunInv(run, isNoise) && m <= n < |run|
    requires k !in run[m].table.flows && forall i :: m < i <= n ==> k in run[i].table.flows
    ensures SeenOf(run[n].table, k) == Observed(run, turns, k, m, n)
    decreases n
  {
    hide TurnTaken, TableInv, ReadBy;
    if m < n {
      EntrySeesItsFlow(run, turns, isNoise, interval, flowTimeout, k, m, n - 1);
      assert TableInv(run[n - 1].table, isNoise);
      TableFacts(run[n - 1].table, isNoise);
      TurnNotesAll(run[n - 1], turns[n - 1], isNoise, interval, flowTimeout, run[n], k);
    }
  }

  /** The last state before n without the entry. */
  lemma {:induction false} LastWithout(run: seq<LoopState>, k: FlowKey, n: nat) returns (m: nat)
    requires n < |run| && k !in run[0].table.flows
    ensures m <= n && k !in run[m].table.flows && forall i :: m < i <= n ==> k in run[i].table.flows
  {
    if k !in run[n].table.flows {
      m := n;
    } else {
      m := LastWithout(run, k, n - 1);
    }
  }

  /** In every run: what the rows got from a living entry plus what it still holds is the first counters conntrack
      listed of its flow since the entry was created, plus every increase since. */
  lemma RunConservation(run: seq<LoopState>, turns: seq<Turn>, isNoise: Noise, interval: int, flowTimeout: int,
                        k: FlowKey, n: nat) returns (m: nat)
    requires IsRun(run, turns, isNoise, interval, flowTimeout) && RunInv(run, isNoise) && n < |run|
    requires k !in run[0].table.flows && k in run[n].table.flows && !isNoise(k)
    ensures m < n && k !in run[m].table.flows && forall i :: m < i <= n ==> k in run[i].table.flows
    ensures k in run[n].table.books
    ensures var t, seen := run[n].table, Observed(run, turns, k, m, n);
            && seen != [] && t.flows[k].prev == seen[|seen| - 1]
            && (Counted(seen).Fits(TWO63) ==>
                  EntrySum(t.ledger, t.books[k].entry).Plus(t.flows[k].acc) == Counted(seen))
  {
    hide TurnTaken, IsRun, Observed, Rising, RowsInv, TableTotal, Total;
    m := LastWithout(run, k, n);
    EntrySeesItsFlow(run, turns, isNoise, interval, flowTimeout, k, m, n);
    var t := run[n].table;
    assert TableInv(t, isNoise);
    assert UpToDate(t.flows[k], t.books[k]);
    assert FlowBalanced(t.flows[k], t.books[k], t.ledger, isNoise(k));
  }

  // ---- when entries end ----

  /** When a flow was last seen, once this turn has read conntrack. */
  ghost function SeenAt(s: LoopState, turn: Turn, k: FlowKey): Option<int> {
    if ReadBy(s, turn, k) != [] then Some(turn.seen)
    else if k in s.table.flows then Some(s.table.flows[k].lastSeen)
    else None
  }

  lemma {:induction false} PassStamps(t: Table, listed: seq<(FlowKey, Quad)>, now: int, k: FlowKey)
    requires t.books.Keys == t.flows.Keys
    ensures var t' := IngestPass(t, listed, now);
            k in t'.flows ==>
              if ObservedIn(listed, k) != [] then t'.flows[k].lastSeen == now
              else k in t.flows && t'.flows[k].lastSeen == t.flows[k].lastSeen
    decreases |listed|
  {
    if listed != [] {
      var before := listed[..|listed| - 1];
      PassStamps(t, before, now, k);
      PassNotesAll(t, before, now, k);
    }
  }

  lemma {:induction false} CommitKeepsTimes(t: Table, isNoise: Noise, order: seq<FlowKey>, storeOk: FlowKey -> bool,
                                            k: FlowKey)
    requires t.books.Keys == t.flows.Keys && k in t.flows
    ensures k in CommitPass(t, isNoise, order, storeOk).flows
    ensures CommitPass(t, isNoise, order, storeOk).flows[k].lastSeen == t.flows[k].lastSeen
    decreases |order|
  {
    if order != [] {
      CommitKeepsTimes(t, isNoise, order[..|order| - 1], storeOk, k);
    }
  }

  /** An entry lives on exactly if it was seen recently enough when conntrack was read; nothing else ends it. */
  lemma EntryEndsExactly(s: LoopState, turn: Turn, isNoise: Noise, interval: int, flowTimeout: int,
                         s': LoopState, k: FlowKey)
    requires TurnTaken(s, turn, isNoise, interval, flowTimeout, s') && s.table.books.Keys == s.table.flows.Keys
    ensures k in s'.table.flows <==>
              && SeenAt(s, turn, k).Some?
              && (turn.now - s.lastConntrack >= 5 ==> SeenAt(s, turn, k).value >= turn.seen - flowTimeout)
    ensures k in s'.table.flows ==> s'.table.flows[k].lastSeen == SeenAt(s, turn, k).value
  {
    hide CommitPass, Visits, IngestPass, ObservedIn;
    var read := AfterReading(s, turn, flowTimeout);
    PassNotesAll(s.table, turn.listed, turn.seen, k);
    PassStamps(s.table, turn.listed, turn.seen, k);
    if turn.now - read.lastCommit >= interval {
      var order :| && Visits(order, read.table.flows.Keys)
                   && s' == read.(table := CommitPass(read.table, isNoise, order, turn.storeOk),
                                  lastCommit := turn.now);
      CommitKeepsBooks(read.table, isNoise, order, turn.storeOk);
      if k in read.table.flows {
        CommitKeepsTimes(read.table, isNoise, order, turn.storeOk, k);
      }
    }
  }
}
