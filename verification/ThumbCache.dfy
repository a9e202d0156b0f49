/** wechat-miniprogram/utils/thumbcache.js: the size- and count-limited thumbnail cache with LRU eviction. */
module ThumbCache {
  type Key = string

  datatype Rec = Rec(size: nat, time: int)

  type Manifest = map<Key, Rec>

  datatype Entry = Entry(key: Key, rec: Rec)

  datatype Limits = Limits(maxBytes: nat, maxFiles: nat)

  // ---- sizes ----

  function SeqBytes(entries: seq<Entry>): nat {
    if entries == [] then 0 else entries[0].rec.size + SeqBytes(entries[1..])
  }

  ghost function BytesOf(m: Manifest, keys: set<Key>): nat
    requires keys <= m.Keys
  {
    if keys == {} then 0
    else
      var k :| k in keys;
      m[k].size + BytesOf(m, keys - {k})
  }

  ghost function TotalBytes(m: Manifest): nat { BytesOf(m, m.Keys) }

  ghost predicate Within(m: Manifest, limits: Limits) {
    |m| <= limits.maxFiles && TotalBytes(m) <= limits.maxBytes
  }

  lemma {:induction false} TakeOut(m: Manifest, keys: set<Key>, k: Key)
    requires keys <= m.Keys && k in keys
    ensures BytesOf(m, keys) == m[k].size + BytesOf(m, keys - {k})
    decreases |keys|
  {
    var first :| first in keys && BytesOf(m, keys) == m[first].size + BytesOf(m, keys - {first});
    if first != k {
      var rest := keys - {first} - {k};
      assert keys - {k} - {first} == rest;
      TakeOut(m, keys - {first}, k);
      TakeOut(m, keys - {k}, first);
    }
  }

  // ---- a manifest as a list of entries ----

  ghost predicate Lists(entries: seq<Entry>, m: Manifest) {
    && (forall i :: 0 <= i < |entries| ==> entries[i].key in m && m[entries[i].key] == entries[i].rec)
    && (forall k :: k in m ==> exists i :: 0 <= i < |entries| && entries[i].key == k)
    && (forall i, j :: 0 <= i < j < |entries| ==> entries[i].key != entries[j].key)
  }

  ghost function KeySet(entries: seq<Entry>): set<Key> {
    set i | 0 <= i < |entries| :: entries[i].key
  }

  lemma KeySetHead(entries: seq<Entry>)
    requires entries != []
    ensures KeySet(entries) == KeySet(entries[1..]) + {entries[0].key}
  {
    var tail := entries[1..];
    forall k | k in KeySet(entries) ensures k in KeySet(tail) + {entries[0].key} {
      var i :| 0 <= i < |entries| && entries[i].key == k;
      assert i == 0 || tail[i - 1].key == k;
    }
    forall k | k in KeySet(tail) ensures k in KeySet(entries) {
      var i :| 0 <= i < |tail| && tail[i].key == k;
      assert entries[i + 1].key == k;
    }
  }

  lemma {:induction false} ListedBytes(entries: seq<Entry>, m: Manifest)
    requires forall i :: 0 <= i < |entries| ==> entries[i].key in m && m[entries[i].key] == entries[i].rec
    requires forall i, j :: 0 <= i < j < |entries| ==> entries[i].key != entries[j].key
    ensures KeySet(entries) <= m.Keys && |KeySet(entries)| == |entries|
    ensures BytesOf(m, KeySet(entries)) == SeqBytes(entries)
    decreases |entries|
  {
    if entries != [] {
      var head, tail := entries[0], entries[1..];
      ListedBytes(tail, m);
      KeySetHead(entries);
      assert head.key !in KeySet(tail);
      hide KeySet, BytesOf;
      assert KeySet(entries) - {head.key} == KeySet(tail);
      TakeOut(m, KeySet(entries), head.key);
    }
  }

  lemma ListedTotal(entries: seq<Entry>, m: Manifest)
    requires Lists(entries, m)
    ensures |m| == |entries| && TotalBytes(m) == SeqBytes(entries)
  {
    ListedBytes(entries, m);
    assert KeySet(entries) == m.Keys;
  }

  // ---- sorting by age ----

  predicate OldestFirst(entries: seq<Entry>) {
    forall i, j :: 0 <= i < j < |entries| ==> entries[i].rec.time <= entries[j].rec.time
  }

  method InsertByTime(sorted: seq<Entry>, e: Entry) returns (r: seq<Entry>)
    requires OldestFirst(sorted)
    ensures OldestFirst(r) && multiset(r) == multiset(sorted) + multiset{e}
  {
    var i := |sorted|;
    while i > 0 && sorted[i - 1].rec.time > e.rec.time
      invariant 0 <= i <= |sorted|
      invariant forall j :: i <= j < |sorted| ==> sorted[j].rec.time > e.rec.time
    {
      i := i - 1;
    }
    InsertedMultiset(sorted, i, e);
    r := sorted[..i] + [e] + sorted[i..];
  }

  lemma InsertedMultiset(s: seq<Entry>, i: nat, e: Entry)
    requires i <= |s|
    ensures multiset(s[..i] + [e] + s[i..]) == multiset(s) + multiset{e}
  {
    assert s == s[..i] + s[i..];
  }

  /** entries.slice().sort((x, y) => x.time - y.time): an entry goes behind its equals. */
  method SortByTime(entries: seq<Entry>) returns (sorted: seq<Entry>)
    ensures OldestFirst(sorted) && multiset(sorted) == multiset(entries)
  {
    sorted := [];
    for n := 0 to |entries|
      invariant OldestFirst(sorted) && multiset(sorted) == multiset(entries[..n])
    {
      assert entries[..n + 1] == entries[..n] + [entries[n]];
      sorted := InsertByTime(sorted, entries[n]);
    }
    assert entries[..|entries|] == entries;
  }

  predicate FitsIn(entries: seq<Entry>, limits: Limits) {
    |entries| <= limits.maxFiles && SeqBytes(entries) <= limits.maxBytes
  }

  /** selectEvictions: the shortest run of oldest entries that has to go, never all of them. */
  method SelectEvictions(entries: seq<Entry>, limits: Limits) returns (sorted: seq<Entry>, n: nat)
    ensures OldestFirst(sorted) && multiset(sorted) == multiset(entries)
    ensures n <= |sorted| && (entries != [] ==> n < |sorted|)
    ensures FitsIn(sorted[n..], limits) || |sorted| - n <= 1
    ensures forall k :: 0 <= k < n ==> !FitsIn(sorted[k..], limits)
  {
    sorted := SortByTime(entries);
    var bytes := SumSizes(sorted);
    var remaining := |sorted|;
    n := 0;
    while n < |sorted|
      invariant 0 <= n <= |sorted| && remaining == |sorted| - n && bytes == SeqBytes(sorted[n..])
      invariant entries != [] ==> n < |sorted|
      invariant forall k :: 0 <= k < n ==> !FitsIn(sorted[k..], limits)
    {
      if remaining <= limits.maxFiles && bytes <= limits.maxBytes { break; }
      if remaining == 1 { break; }
      assert sorted[n..][1..] == sorted[n + 1..];
      bytes := bytes - sorted[n].rec.size;
      remaining := remaining - 1;
      n := n + 1;
    }
  }

  /** sorted.reduce((s, e) => s + e.size, 0). */
  method SumSizes(entries: seq<Entry>) returns (bytes: nat)
    ensures bytes == SeqBytes(entries)
  {
    bytes := 0;
    for i := 0 to |entries|
      invariant bytes + SeqBytes(entries[i..]) == SeqBytes(entries)
    {
      assert entries[i..][1..] == entries[i + 1..];
      bytes := bytes + entries[i].rec.size;
    }
  }

  // ---- what an eviction leaves ----

  /** Object.keys: the entries of a manifest in some order. */
  method ListEntries(m: Manifest) returns (entries: seq<Entry>)
    ensures Lists(entries, m)
  {
    entries := [];
    var todo := m.Keys;
    while todo != {}
      invariant todo <= m.Keys
      invariant forall i :: 0 <= i < |entries| ==>
          entries[i].key in m && entries[i].key !in todo && m[entries[i].key] == entries[i].rec
      invariant forall k :: k in m && k !in todo ==> exists i :: 0 <= i < |entries| && entries[i].key == k
      invariant forall i, j :: 0 <= i < j < |entries| ==> entries[i].key != entries[j].key
      decreases todo
    {
      var k :| k in todo;
      ghost var before := entries;
      entries := entries + [Entry(k, m[k])];
      todo := todo - {k};
      forall x | x in m && x !in todo ensures exists i :: 0 <= i < |entries| && entries[i].key == x {
        if x == k {
          assert entries[|before|].key == x;
        } else {
          var i :| 0 <= i < |before| && before[i].key == x;
          assert entries[i].key == x;
        }
      }
    }
  }

  lemma Permuted(a: seq<Entry>, b: seq<Entry>, m: Manifest)
    requires Lists(a, m) && multiset(a) == multiset(b)
    ensures Lists(b, m)
  {
    forall i | 0 <= i < |b| ensures b[i].key in m && m[b[i].key] == b[i].rec {
      assert b[i] in multiset(b);
      assert b[i] in a;
    }
    forall k | k in m ensures exists i :: 0 <= i < |b| && b[i].key == k {
      var i :| 0 <= i < |a| && a[i].key == k;
      assert a[i] in multiset(a);
      assert a[i] in b;
    }
    forall i, j | 0 <= i < j < |b| ensures b[i].key != b[j].key {
      if b[i].key == b[j].key {
        assert b[i] == b[j];
        assert multiset(b)[b[i]] >= 2 by { TwiceInMultiset(b, i, j); }
        OnceInMultiset(a, b[i]);
        assert false;
      }
    }
  }

  lemma TwiceInMultiset(s: seq<Entry>, i: nat, j: nat)
    requires i < j < |s| && s[i] == s[j]
    ensures multiset(s)[s[i]] >= 2
  {
    assert s == s[..j] + s[j..];
    assert s[i] in s[..j] && s[j] in s[j..];
  }

  lemma {:induction false} OnceInMultiset(s: seq<Entry>, e: Entry)
    requires forall i, j :: 0 <= i < j < |s| ==> s[i].key != s[j].key
    ensures multiset(s)[e] <= 1
    decreases |s|
  {
    if s != [] {
      assert s == [s[0]] + s[1..];
      OnceInMultiset(s[1..], e);
      if s[0] == e {
        assert e !in s[1..];
      }
    }
  }

  ghost function Without(m: Manifest, sorted: seq<Entry>, n: nat): Manifest
    requires n <= |sorted|
  {
    m - KeySet(sorted[..n])
  }

  /** The entries after the first n list the manifest without those n. */
  lemma RestLists(m: Manifest, sorted: seq<Entry>, n: nat)
    requires Lists(sorted, m) && n <= |sorted|
    ensures Lists(sorted[n..], Without(m, sorted, n))
  {
    var m' := Without(m, sorted, n);
    forall i | 0 <= i < |sorted[n..]| ensures sorted[n..][i].key in m' {
      assert forall j :: 0 <= j < n ==> sorted[..n][j].key != sorted[n + i].key;
    }
    forall k | k in m' ensures exists i :: 0 <= i < |sorted[n..]| && sorted[n..][i].key == k {
      forall j | 0 <= j < n ensures sorted[j].key != k {
        assert sorted[..n][j].key in KeySet(sorted[..n]);
      }
      var i :| 0 <= i < |sorted| && sorted[i].key == k;
      assert sorted[n..][i - n].key == k;
    }
  }

  /** Everything that went is at least as old as everything that stayed. */
  ghost predicate OldestWent(before: Manifest, after: Manifest) {
    forall g, k :: g in before && g !in after && k in after && k in before ==> before[g].time <= before[k].time
  }

  /** Putting the last victim, a youngest of those that went, back in would break a limit. */
  ghost predicate NoneTooMany(before: Manifest, after: Manifest, limits: Limits) {
    after == before ||
    exists g :: g in before && g !in after && !Within(after[g := before[g]], limits) &&
      forall h :: h in before && h !in after ==> before[h].time <= before[g].time
  }

  /** What cleanup may leave. */
  ghost predicate Evicted(before: Manifest, after: Manifest, limits: Limits) {
    && after.Keys <= before.Keys && (forall k :: k in after ==> after[k] == before[k])
    && (before != map[] ==> after != map[])
    && (Within(after, limits) || |after| <= 1)
    && OldestWent(before, after)
    && NoneTooMany(before, after, limits)
  }

  lemma OldestWentFirst(m: Manifest, sorted: seq<Entry>, n: nat)
    requires Lists(sorted, m) && OldestFirst(sorted) && n <= |sorted|
    ensures OldestWent(m, Without(m, sorted, n))
  {
    var after := Without(m, sorted, n);
    RestLists(m, sorted, n);
    forall g, k | g in m && g !in after && k in after ensures m[g].time <= m[k].time {
      var i :| 0 <= i < |sorted[..n]| && sorted[..n][i].key == g;
      var j :| 0 <= j < |sorted[n..]| && sorted[n..][j].key == k;
      assert sorted[i].rec.time <= sorted[n + j].rec.time;
    }
  }

  lemma TakeOneMore(m: Manifest, sorted: seq<Entry>, i: nat)
    requires i < |sorted|
    ensures Without(m, sorted, i + 1) == Without(m, sorted, i) - {sorted[i].key}
  {
    assert sorted[..i + 1] == sorted[..i] + [sorted[i]];
    assert KeySet(sorted[..i + 1]) == KeySet(sorted[..i]) + {sorted[i].key} by {
      assert sorted[..i + 1][i].key == sorted[i].key;
      assert forall j :: 0 <= j < i ==> sorted[..i + 1][j] == sorted[..i][j];
    }
  }

  /** Undoing the last eviction. */
  lemma PutBack(m: Manifest, sorted: seq<Entry>, n: nat)
    requires Lists(sorted, m) && 0 < n <= |sorted|
    ensures var g := sorted[n - 1].key;
            g in m && g !in Without(m, sorted, n) && Without(m, sorted, n - 1) == Without(m, sorted, n)[g := m[g]]
  {
    hide Without, Lists;
    var g := sorted[n - 1].key;
    TakeOneMore(m, sorted, n - 1);
    RestLists(m, sorted, n - 1);
    IsListed(sorted, m, n - 1);
    IsListed(sorted[n - 1..], Without(m, sorted, n - 1), 0);
    PutBackOne(Without(m, sorted, n - 1), g, m[g]);
  }

  lemma IsListed(s: seq<Entry>, m: Manifest, i: nat)
    requires Lists(s, m) && i < |s|
    ensures s[i].key in m && m[s[i].key] == s[i].rec
  {
  }

  lemma PutBackOne(m: Manifest, k: Key, r: Rec)
    requires k in m && m[k] == r
    ensures (m - {k})[k := r] == m
  {
  }

  lemma LastVictimIsYoungest(m: Manifest, sorted: seq<Entry>, n: nat, h: Key)
    requires Lists(sorted, m) && OldestFirst(sorted) && 0 < n <= |sorted|
    requires h in m && h !in Without(m, sorted, n)
    ensures m[h].time <= m[sorted[n - 1].key].time
  {
    var i :| 0 <= i < |sorted[..n]| && sorted[..n][i].key == h;
    assert i == n - 1 || sorted[i].rec.time <= sorted[n - 1].rec.time;
  }

  lemma LastVictimCounts(m: Manifest, sorted: seq<Entry>, n: nat, limits: Limits)
    requires Lists(sorted, m) && OldestFirst(sorted) && 0 < n <= |sorted|
    requires !FitsIn(sorted[n - 1..], limits)
    ensures NoneTooMany(m, Without(m, sorted, n), limits)
  {
    hide Without, Lists, OldestFirst, TotalBytes;
    var after, g := Without(m, sorted, n), sorted[n - 1].key;
    RestLists(m, sorted, n - 1);
    ListedTotal(sorted[n - 1..], Without(m, sorted, n - 1));
    PutBack(m, sorted, n);
    assert !Within(after[g := m[g]], limits);
    hide Within;
    forall h | h in m && h !in after ensures m[h].time <= m[g].time {
      LastVictimIsYoungest(m, sorted, n, h);
    }
  }

  class Cache {
    const limits: Limits
    var manifest: Manifest
    var files: map<Key, nat>       // the cached files, by name, with their sizes

    ghost predicate Valid()
      reads this
    {
      manifest.Keys == files.Keys && forall k :: k in manifest ==> manifest[k].size == files[k]
    }

    constructor (limits: Limits)
      ensures Valid() && manifest == map[] && this.limits == limits
    {
      this.limits := limits;
      manifest, files := map[], map[];
    }

    /** Unlink the file of each victim and forget its record. */
    method Evict(victims: seq<Entry>)
      requires Valid()
      modifies this
      ensures Valid() && manifest == Without(old(manifest), victims, |victims|)
    {
      assert KeySet(victims[..0]) == {};
      for i := 0 to |victims|
        invariant Valid() && manifest == Without(old(manifest), victims, i)
      {
        var key := victims[i].key;
        TakeOneMore(old(manifest), victims, i);
        hide Without;
        files := files - {key};
        manifest := manifest - {key};
      }
    }

    method Cleanup()
      requires Valid()
      modifies this
      ensures Valid() && Evicted(old(manifest), manifest, limits)
    {
      hide Evicted, SeqBytes, OldestFirst, FitsIn, Lists;
      var entries := ListEntries(manifest);
      var sorted, n := SelectEvictions(entries, limits);
      Permuted(entries, sorted, manifest);
      ListedTotal(sorted, manifest);
      EvictionIs(manifest, sorted, n, limits);
      assert sorted[..n][..n] == sorted[..n];
      Evict(sorted[..n]);
    }

    method Get(key: Key, now: int) returns (hit: bool)
      requires Valid()
      modifies this
      ensures Valid() && (hit <==> key in old(manifest)) && files == old(files)
      ensures manifest == if hit then old(manifest)[key := Rec(old(manifest)[key].size, now)] else old(manifest)
    {
      if key !in manifest || key !in files { return false; }
      manifest := manifest[key := manifest[key].(time := now)];
      return true;
    }

    method Put(key: Key, srcSize: nat, now: int)
      requires Valid()
      modifies this
      ensures Valid() && Evicted(old(manifest)[key := Rec(srcSize, now)], manifest, limits)
      ensures (|manifest| <= limits.maxFiles && TotalBytes(manifest) <= limits.maxBytes) || |manifest| == 1
      ensures var all := old(manifest)[key := Rec(srcSize, now)];
              && (forall k :: k in manifest ==> k in all && manifest[k] == all[k])
              && (forall g, k :: g in all && g !in manifest && k in manifest ==> all[g].time <= all[k].time)
              && (manifest != all ==>
                    exists g :: g in all && g !in manifest &&
                      (|manifest[g := all[g]]| > limits.maxFiles ||
                       TotalBytes(manifest[g := all[g]]) > limits.maxBytes))
      ensures (forall k :: k in old(manifest) && k != key ==> old(manifest)[k].time < now) ==>
                key in manifest && manifest[key] == Rec(srcSize, now)
    {
      files := files[key := srcSize];
      manifest := manifest[key := Rec(files[key], now)];
      ghost var before := manifest;
      Cleanup();
      YoungestStays(before, manifest, limits, key);
    }

    method Remove(key: Key)
      requires Valid()
      modifies this
      ensures Valid() && manifest == old(manifest) - {key} && files == old(files) - {key}
    {
      if key in manifest { manifest := manifest - {key}; }
      if key in files { files := files - {key}; }
    }
  }

  lemma EvictionIs(m: Manifest, sorted: seq<Entry>, n: nat, limits: Limits)
    requires Lists(sorted, m) && OldestFirst(sorted)
    requires n <= |sorted| && (m != map[] ==> n < |sorted|)
    requires FitsIn(sorted[n..], limits) || |sorted| - n <= 1
    requires forall k :: 0 <= k < n ==> !FitsIn(sorted[k..], limits)
    ensures Evicted(m, Without(m, sorted, n), limits)
  {
    hide NoneTooMany, OldestWent, Within, OldestFirst, FitsIn;
    var after := Without(m, sorted, n);
    WithoutIsPart(m, sorted, n);
    RestLists(m, sorted, n);
    if n < |sorted| {
      NotEmptied(m, sorted, n);
    }
    hide Lists, Without;
    EvictedFits(sorted[n..], after, limits);
    OldestWentFirst(m, sorted, n);
    if n > 0 {
      LastVictimCounts(m, sorted, n, limits);
    } else {
      NothingWent(m, sorted, limits);
    }
  }

  lemma WithoutIsPart(m: Manifest, sorted: seq<Entry>, n: nat)
    requires n <= |sorted|
    ensures var after := Without(m, sorted, n); after.Keys <= m.Keys && forall k :: k in after ==> after[k] == m[k]
  {
  }

  lemma NotEmptied(m: Manifest, sorted: seq<Entry>, n: nat)
    requires n < |sorted| && Lists(sorted[n..], Without(m, sorted, n))
    ensures Without(m, sorted, n) != map[]
  {
    IsListed(sorted[n..], Without(m, sorted, n), 0);
  }

  lemma NothingWent(m: Manifest, sorted: seq<Entry>, limits: Limits)
    ensures NoneTooMany(m, Without(m, sorted, 0), limits)
  {
    assert KeySet(sorted[..0]) == {};
    assert Without(m, sorted, 0) == m;
  }

  lemma EvictedFits(rest: seq<Entry>, after: Manifest, limits: Limits)
    requires Lists(rest, after) && (FitsIn(rest, limits) || |rest| <= 1)
    ensures Within(after, limits) || |after| <= 1
    ensures |after| == |rest|
  {
    ListedTotal(rest, after);
  }

  /** With a strictly increasing clock, the thumbnail just stored survives its own cleanup. */
  lemma YoungestStays(before: Manifest, after: Manifest, limits: Limits, key: Key)
    requires key in before && Evicted(before, after, limits)
    ensures (forall k :: k in before && k != key ==> before[k].time < before[key].time) ==> key in after
  {
    if key !in after {
      var k :| k in after;
      assert before[key].time <= before[k].time;
    }
  }
}
