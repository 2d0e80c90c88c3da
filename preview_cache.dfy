/**
 * The in-memory cache of map previews shown on the map list: previews keyed
 * by map id, valid while the map's `updated_at` is unchanged and for 24
 * hours, at most 100 of them. The cache is a JavaScript `Map`; it is
 * modelled as its entries in insertion order, with distinct keys. The
 * clock readings and the outcome of the preview generator are parameters.
 */
module PreviewCaching {
  import opened Wrappers
  import opened Sorting

  /** 24 hours in milliseconds. */
  const CacheDuration: int := 86400000
  const MaxCacheSize: int := 100

  datatype CachedPreview = CachedPreview(dataUrl: string, timestamp: int, mapTimestamp: string)

  datatype Entry = Entry(mapId: string, preview: CachedPreview)

  /** The keys of the entries, in order. */
  function Keys(es: seq<Entry>): seq<string> {
    seq(|es|, i requires 0 <= i < |es| => es[i].mapId)
  }

  predicate NoDups(ks: seq<string>) {
    forall i, j :: 0 <= i < j < |ks| ==> ks[i] != ks[j]
  }

  /** What a `Map` guarantees: each key at most once. */
  predicate DistinctKeys(es: seq<Entry>) {
    NoDups(Keys(es))
  }

  /** `Map.get`. */
  function Lookup(es: seq<Entry>, k: string): Option<CachedPreview> {
    if es == [] then None
    else if es[0].mapId == k then Some(es[0].preview)
    else Lookup(es[1..], k)
  }

  /** Replaces the preview of every entry keyed `k`, leaving each entry where it is. */
  function Overwrite(es: seq<Entry>, k: string, p: CachedPreview): seq<Entry> {
    seq(|es|, i requires 0 <= i < |es| => if es[i].mapId == k then Entry(k, p) else es[i])
  }

  /** `Map.set`: a present key keeps its place in the order, a new key goes last. */
  function SetEntry(es: seq<Entry>, k: string, p: CachedPreview): seq<Entry> {
    if k in Keys(es) then Overwrite(es, k, p) else es + [Entry(k, p)]
  }

  /**
   * The entries whose key is not in `ks`; `Without(es, [k])` is
   * `Map.delete(k)`.
   */
  function Without(es: seq<Entry>, ks: seq<string>): seq<Entry> {
    if es == [] then []
    else (if es[0].mapId in ks then [] else [es[0]]) + Without(es[1..], ks)
  }

  /** A cached preview may be served for the map's `updatedAt` at time `now`. */
  predicate Servable(es: seq<Entry>, mapId: string, updatedAt: string, now: int) {
    var cached := Lookup(es, mapId);
    cached.Some? && cached.value.mapTimestamp == updatedAt && now - cached.value.timestamp < CacheDuration
  }

  predicate Expired(e: Entry, now: int) {
    now - e.preview.timestamp >= CacheDuration
  }

  /** The keys the first cleanup loop deletes. */
  function ExpiredKeys(es: seq<Entry>, now: int): seq<string> {
    if es == [] then []
    else (if Expired(es[0], now) then [es[0].mapId] else []) + ExpiredKeys(es[1..], now)
  }

  function RemoveExpired(es: seq<Entry>, now: int): seq<Entry> {
    Without(es, ExpiredKeys(es, now))
  }

  /** The comparator of the eviction sort: ascending timestamp. */
  function TimeKey(e: Entry): Key {
    Key(e.preview.timestamp, 0)
  }

  /** The entries the eviction loop deletes: the first `size - MaxCacheSize` by timestamp. */
  function Oldest(es: seq<Entry>): seq<Entry>
    requires |es| > MaxCacheSize
  {
    SortByCorrect(es, TimeKey);
    SortBy(es, TimeKey)[..|es| - MaxCacheSize]
  }

  function EvictOldest(es: seq<Entry>): seq<Entry> {
    if |es| > MaxCacheSize then Without(es, Keys(Oldest(es))) else es
  }

  /** `cleanup`: expired entries first, then the oldest while over the size limit. */
  function CleanedUp(es: seq<Entry>, now: int): seq<Entry> {
    EvictOldest(RemoveExpired(es, now))
  }

  // ---------------------------------------------------------------------
  // Map operations

  lemma KeysAppend(a: seq<Entry>, b: seq<Entry>)
    ensures Keys(a + b) == Keys(a) + Keys(b)
  {
    forall i | 0 <= i < |a + b| ensures Keys(a + b)[i] == (Keys(a) + Keys(b))[i] {
      if i >= |a| {
        assert Keys(b)[i - |a|] == b[i - |a|].mapId;
      }
    }
  }

  lemma KeysPrefixSnoc(es: seq<Entry>, j: int)
    requires 0 <= j < |es|
    ensures Keys(es[..j + 1]) == Keys(es[..j]) + [es[j].mapId]
  {
    assert es[..j + 1] == es[..j] + [es[j]];
    KeysAppend(es[..j], [es[j]]);
  }

  lemma KeysTail(es: seq<Entry>)
    requires es != []
    ensures Keys(es) == [es[0].mapId] + Keys(es[1..])
  {
    KeysAppend([es[0]], es[1..]);
    assert es == [es[0]] + es[1..];
  }

  lemma DistinctTail(es: seq<Entry>)
    requires es != [] && DistinctKeys(es)
    ensures DistinctKeys(es[1..])
    ensures es[0].mapId !in Keys(es[1..])
  {
    KeysTail(es);
    var ks := Keys(es);
    assert Keys(es[1..]) == ks[1..];
    forall i, j | 0 <= i < j < |ks| - 1 ensures ks[1..][i] != ks[1..][j] {
      assert ks[i + 1] != ks[j + 1];
    }
    forall j | 0 <= j < |ks| - 1 ensures ks[1..][j] != es[0].mapId {
      assert ks[0] != ks[j + 1];
    }
  }

  /** Two entries of a `Map` with the same key are the same entry. */
  lemma SameKeySameEntry(es: seq<Entry>)
    requires DistinctKeys(es)
    ensures forall a, b :: a in es && b in es && a.mapId == b.mapId ==> a == b
  {
    forall a, b | a in es && b in es && a.mapId == b.mapId ensures a == b {
      var i :| 0 <= i < |es| && es[i] == a;
      var j :| 0 <= j < |es| && es[j] == b;
      assert Keys(es)[i] == Keys(es)[j];
    }
  }

  lemma KeyOf(es: seq<Entry>, e: Entry)
    requires e in es
    ensures e.mapId in Keys(es)
  {
    var i :| 0 <= i < |es| && es[i] == e;
    assert Keys(es)[i] == e.mapId;
  }

  /** `Map.get` finds nothing exactly for an absent key, and otherwise a stored entry. */
  lemma {:induction false} LookupSpec(es: seq<Entry>, k: string)
    ensures Lookup(es, k).None? <==> k !in Keys(es)
    ensures Lookup(es, k).Some? ==> Entry(k, Lookup(es, k).value) in es
  {
    if es != [] {
      LookupSpec(es[1..], k);
      KeysTail(es);
    }
  }

  /** In a `Map`, the key of the entry at `i` finds that entry's preview. */
  lemma {:induction false} LookupAt(es: seq<Entry>, i: int)
    requires DistinctKeys(es) && 0 <= i < |es|
    ensures Lookup(es, es[i].mapId) == Some(es[i].preview)
  {
    if i > 0 {
      DistinctTail(es);
      assert Keys(es)[0] != Keys(es)[i];
      LookupAt(es[1..], i - 1);
    }
  }

  lemma OverwriteKeys(es: seq<Entry>, k: string, p: CachedPreview)
    ensures Keys(Overwrite(es, k, p)) == Keys(es)
  {
  }

  /** After `Map.set` on a present key, that key finds the new value and the others their old one. */
  lemma LookupOverwrite(es: seq<Entry>, k: string, p: CachedPreview, k': string)
    requires DistinctKeys(es)
    ensures Lookup(Overwrite(es, k, p), k') == if k' == k && k in Keys(es) then Some(p) else Lookup(es, k')
  {
    var r := Overwrite(es, k, p);
    OverwriteKeys(es, k, p);
    LookupSpec(es, k');
    LookupSpec(r, k');
    if k' in Keys(es) {
      var i :| 0 <= i < |es| && Keys(es)[i] == k';
      LookupAt(es, i);
      LookupAt(r, i);
    }
  }

  lemma LookupAppend(es: seq<Entry>, e: Entry, k: string)
    requires DistinctKeys(es) && e.mapId !in Keys(es)
    ensures DistinctKeys(es + [e])
    ensures Lookup(es + [e], k) == if k == e.mapId then Some(e.preview) else Lookup(es, k)
  {
    var r := es + [e];
    KeysAppend(es, [e]);
    forall i, j | 0 <= i < j < |r| ensures Keys(r)[i] != Keys(r)[j] {
      assert Keys(r)[i] == Keys(es)[i];
      if j < |es| {
        assert Keys(r)[j] == Keys(es)[j];
      }
    }
    LookupSpec(es, k);
    LookupSpec(r, k);
    assert Keys(r) == Keys(es) + [e.mapId];
    if k in Keys(r) {
      var i :| 0 <= i < |r| && Keys(r)[i] == k;
      LookupAt(r, i);
      if i < |es| {
        assert r[i] == es[i] && Keys(es)[i] == k;
        LookupAt(es, i);
      } else {
        assert r[i] == e;
      }
    }
  }

  /**
   * `Map.set(k, p)` stores `p` under `k`, changes no other key's value and
   * keeps the keys distinct; the key order grows only by `k` at the end.
   */
  lemma SetEntryLookup(es: seq<Entry>, k: string, p: CachedPreview)
    requires DistinctKeys(es)
    ensures DistinctKeys(SetEntry(es, k, p))
    ensures Lookup(SetEntry(es, k, p), k) == Some(p)
    ensures forall k' :: k' != k ==> Lookup(SetEntry(es, k, p), k') == Lookup(es, k')
    ensures Keys(SetEntry(es, k, p)) == if k in Keys(es) then Keys(es) else Keys(es) + [k]
  {
    if k in Keys(es) {
      OverwriteKeys(es, k, p);
      LookupOverwrite(es, k, p, k);
      forall k' | k' != k ensures Lookup(SetEntry(es, k, p), k') == Lookup(es, k') {
        LookupOverwrite(es, k, p, k');
      }
    } else {
      KeysAppend(es, [Entry(k, p)]);
      LookupAppend(es, Entry(k, p), k);
      forall k' | k' != k ensures Lookup(SetEntry(es, k, p), k') == Lookup(es, k') {
        LookupAppend(es, Entry(k, p), k');
      }
    }
  }

  lemma {:induction false} WithoutMembers(es: seq<Entry>, ks: seq<string>)
    ensures forall e :: e in Without(es, ks) <==> e in es && e.mapId !in ks
  {
    if es != [] {
      WithoutMembers(es[1..], ks);
      assert es == [es[0]] + es[1..];
    }
  }

  lemma {:induction false} LookupWithout(es: seq<Entry>, ks: seq<string>, k: string)
    requires k !in ks
    ensures Lookup(Without(es, ks), k) == Lookup(es, k)
  {
    if es != [] {
      LookupWithout(es[1..], ks, k);
      var rest := Without(es[1..], ks);
      if es[0].mapId in ks {
        assert Without(es, ks) == rest;
      } else {
        assert Without(es, ks) == [es[0]] + rest;
        assert ([es[0]] + rest)[1..] == rest;
      }
    }
  }

  lemma {:induction false} WithoutDistinct(es: seq<Entry>, ks: seq<string>)
    requires DistinctKeys(es)
    ensures DistinctKeys(Without(es, ks))
  {
    if es != [] {
      DistinctTail(es);
      WithoutDistinct(es[1..], ks);
      var rest := Without(es[1..], ks);
      if es[0].mapId !in ks {
        WithoutMembers(es[1..], ks);
        forall i | 0 <= i < |rest| ensures Keys(rest)[i] != es[0].mapId {
          assert rest[i] in es[1..];
          KeyOf(es[1..], rest[i]);
        }
        KeysAppend([es[0]], rest);
      } else {
        assert Without(es, ks) == rest;
      }
    }
  }

  /**
   * `invalidate(id)`: afterwards nothing is stored under `id`, every other
   * key keeps its value, and the keys stay distinct.
   */
  lemma InvalidateLookup(es: seq<Entry>, mapId: string)
    requires DistinctKeys(es)
    ensures DistinctKeys(Without(es, [mapId]))
    ensures Lookup(Without(es, [mapId]), mapId) == None
    ensures forall k :: k != mapId ==> Lookup(Without(es, [mapId]), k) == Lookup(es, k)
  {
    WithoutDistinct(es, [mapId]);
    WithoutMembers(es, [mapId]);
    var r := Without(es, [mapId]);
    forall i | 0 <= i < |r| ensures Keys(r)[i] != mapId {
      assert r[i] in r;
    }
    LookupSpec(r, mapId);
    forall k | k != mapId ensures Lookup(r, k) == Lookup(es, k) {
      LookupWithout(es, [mapId], k);
    }
  }

  // ---------------------------------------------------------------------
  // Cleanup

  lemma {:induction false} WithoutSnoc(es: seq<Entry>, ks: seq<string>, k: string)
    ensures Without(es, ks + [k]) == Without(Without(es, ks), [k])
  {
    if es != [] {
      WithoutSnoc(es[1..], ks, k);
      var rest := Without(es[1..], ks);
      if es[0].mapId in ks {
        assert Without(es, ks) == rest;
      } else {
        assert Without(es, ks) == [es[0]] + rest;
        assert ([es[0]] + rest)[1..] == rest;
      }
    }
  }

  lemma {:induction false} WithoutNothing(es: seq<Entry>)
    ensures Without(es, []) == es
  {
    if es != [] {
      WithoutNothing(es[1..]);
      assert es == [es[0]] + es[1..];
    }
  }

  lemma {:induction false} ExpiredKeysSnoc(es: seq<Entry>, e: Entry, now: int)
    ensures ExpiredKeys(es + [e], now)
            == ExpiredKeys(es, now) + (if Expired(e, now) then [e.mapId] else [])
  {
    if es != [] {
      assert (es + [e])[1..] == es[1..] + [e];
      ExpiredKeysSnoc(es[1..], e, now);
    }
  }

  lemma {:induction false} ExpiredKeysSource(es: seq<Entry>, now: int, k: string)
    ensures k in ExpiredKeys(es, now) <==> exists e :: e in es && e.mapId == k && Expired(e, now)
  {
    if es != [] {
      ExpiredKeysSource(es[1..], now, k);
      if k !in ExpiredKeys(es, now) {
        forall e | e in es && e.mapId == k ensures !Expired(e, now) {
          if e != es[0] {
            assert e in es[1..];
          }
        }
      }
    }
  }

  /** The first loop keeps exactly the entries that have not expired. */
  lemma RemoveExpiredMembers(es: seq<Entry>, now: int)
    requires DistinctKeys(es)
    ensures forall e :: e in RemoveExpired(es, now) <==> e in es && !Expired(e, now)
    ensures DistinctKeys(RemoveExpired(es, now))
  {
    WithoutDistinct(es, ExpiredKeys(es, now));
    WithoutMembers(es, ExpiredKeys(es, now));
    SameKeySameEntry(es);
    forall e ensures e in RemoveExpired(es, now) <==> e in es && !Expired(e, now) {
      ExpiredKeysSource(es, now, e.mapId);
    }
  }

  lemma {:induction false} WithoutAbsent(es: seq<Entry>, ks: seq<string>)
    requires forall e :: e in es ==> e.mapId !in ks
    ensures Without(es, ks) == es
  {
    if es != [] {
      WithoutAbsent(es[1..], ks);
      assert es == [es[0]] + es[1..];
    }
  }

  lemma {:induction false} DeleteOne(es: seq<Entry>, k: string)
    requires DistinctKeys(es) && k in Keys(es)
    ensures |Without(es, [k])| == |es| - 1
  {
    DistinctTail(es);
    KeysTail(es);
    if es[0].mapId == k {
      forall e | e in es[1..] ensures e.mapId != k {
        KeyOf(es[1..], e);
      }
      WithoutAbsent(es[1..], [k]);
    } else {
      DeleteOne(es[1..], k);
    }
  }

  /** Deleting distinct present keys removes one entry per key. */
  lemma {:induction false} WithoutLength(es: seq<Entry>, ks: seq<string>)
    requires DistinctKeys(es) && NoDups(ks)
    requires forall k :: k in ks ==> k in Keys(es)
    ensures |Without(es, ks)| == |es| - |ks|
    decreases |ks|
  {
    if ks == [] {
      WithoutNothing(es);
    } else {
      var front, k := ks[..|ks| - 1], ks[|ks| - 1];
      assert ks == front + [k];
      WithoutLength(es, front);
      WithoutSnoc(es, front, k);
      WithoutDistinct(es, front);
      WithoutMembers(es, front);
      assert k in ks;
      var i :| 0 <= i < |es| && Keys(es)[i] == k;
      assert es[i] in Without(es, front);
      KeyOf(Without(es, front), es[i]);
      DeleteOne(Without(es, front), k);
    }
  }

  lemma {:induction false} KeysPerm(s: seq<Entry>, t: seq<Entry>)
    requires multiset(s) == multiset(t)
    ensures multiset(Keys(s)) == multiset(Keys(t))
    decreases |s|
  {
    if s == [] {
      assert |t| == |multiset(t)| == 0;
    } else {
      var x := s[|s| - 1];
      var s' := s[..|s| - 1];
      assert s == s' + [x];
      assert x in multiset(t);
      var i :| 0 <= i < |t| && t[i] == x;
      var t' := t[..i] + t[i + 1..];
      assert t == t[..i] + [x] + t[i + 1..];
      assert multiset(t) == multiset(t[..i]) + multiset{x} + multiset(t[i + 1..]);
      assert multiset(s) == multiset(s') + multiset{x};
      assert multiset(t') == multiset(t[..i]) + multiset(t[i + 1..]);
      assert multiset(t') == multiset(t) - multiset{x};
      assert multiset(s') == multiset(s) - multiset{x};
      KeysPerm(s', t');
      KeysAppend(s', [x]);
      KeysAppend(t[..i], [x]);
      KeysAppend(t[..i] + [x], t[i + 1..]);
      KeysAppend(t[..i], t[i + 1..]);
    }
  }

  lemma {:induction false} AtMostOnce(ks: seq<string>, k: string)
    ensures NoDups(ks) ==> multiset(ks)[k] <= 1
  {
    if ks != [] && NoDups(ks) {
      assert ks == [ks[0]] + ks[1..];
      AtMostOnce(ks[1..], k);
      assert ks[0] !in ks[1..];
    }
  }

  lemma TwiceInMultiset(ks: seq<string>, i: int, j: int)
    requires 0 <= i < j < |ks|
    ensures ks[i] == ks[j] ==> multiset(ks)[ks[i]] >= 2
  {
    assert ks == ks[..j] + ks[j..];
    assert ks[i] in ks[..j];
    assert ks[j] in ks[j..];
  }

  lemma NoDupsPerm(a: seq<string>, b: seq<string>)
    requires multiset(a) == multiset(b) && NoDups(b)
    ensures NoDups(a)
  {
    forall i, j | 0 <= i < j < |a| ensures a[i] != a[j] {
      TwiceInMultiset(a, i, j);
      AtMostOnce(b, a[i]);
    }
  }

  /** The keys the eviction loop deletes are distinct keys of the cache, and name exactly the `Oldest` entries. */
  lemma OldestKeys(es: seq<Entry>)
    requires DistinctKeys(es) && |es| > MaxCacheSize
    ensures NoDups(Keys(Oldest(es)))
    ensures forall k :: k in Keys(Oldest(es)) ==> k in Keys(es)
    ensures forall e :: e in es ==> (e.mapId in Keys(Oldest(es)) <==> e in Oldest(es))
  {
    var sorted := SortBy(es, TimeKey);
    SortByCorrect(es, TimeKey);
    var r := |es| - MaxCacheSize;
    var old_ := sorted[..r];
    KeysPerm(sorted, es);
    NoDupsPerm(Keys(sorted), Keys(es));
    assert Keys(old_) == Keys(sorted)[..r];
    forall e | e in old_ ensures e in es {
      assert e in multiset(es);
    }
    forall k | k in Keys(old_) ensures k in Keys(es) {
      var i :| 0 <= i < |old_| && Keys(old_)[i] == k;
      KeyOf(es, old_[i]);
    }
    SameKeySameEntry(es);
    forall e | e in es ensures e.mapId in Keys(old_) <==> e in old_ {
      if e.mapId in Keys(old_) {
        var i :| 0 <= i < |old_| && Keys(old_)[i] == e.mapId;
      } else if e in old_ {
        KeyOf(old_, e);
      }
    }
  }

  /** No entry `Oldest` names is newer than an entry outside it. */
  lemma OldestAreOldest(es: seq<Entry>, x: Entry, y: Entry)
    requires |es| > MaxCacheSize
    requires x in Oldest(es) && y in es && y !in Oldest(es)
    ensures x.preview.timestamp <= y.preview.timestamp
  {
    var sorted := SortBy(es, TimeKey);
    SortByCorrect(es, TimeKey);
    var r := |es| - MaxCacheSize;
    var q :| 0 <= q < r && sorted[..r][q] == x;
    assert y in multiset(sorted);
    var p :| 0 <= p < |sorted| && sorted[p] == y;
    forall k | 0 <= k < r ensures sorted[k] != y {
      assert sorted[..r][k] == sorted[k];
    }
    assert KeyLe(TimeKey(sorted[q]), TimeKey(sorted[p]));
  }

  /**
   * The eviction loop removes exactly `size - MaxCacheSize` entries, the
   * ones `Oldest` names; every other entry survives, and no removed entry is
   * newer than a surviving one.
   */
  lemma EvictOldestExact(es: seq<Entry>)
    requires DistinctKeys(es) && |es| > MaxCacheSize
    ensures |Oldest(es)| == |es| - MaxCacheSize
    ensures |EvictOldest(es)| == MaxCacheSize
    ensures forall e :: e in EvictOldest(es) <==> e in es && e !in Oldest(es)
    ensures forall x, y :: x in Oldest(es) && y in EvictOldest(es) ==>
              x.preview.timestamp <= y.preview.timestamp
    ensures DistinctKeys(EvictOldest(es))
  {
    SortByCorrect(es, TimeKey);
    OldestKeys(es);
    WithoutLength(es, Keys(Oldest(es)));
    WithoutDistinct(es, Keys(Oldest(es)));
    WithoutMembers(es, Keys(Oldest(es)));
    forall x, y | x in Oldest(es) && y in EvictOldest(es)
      ensures x.preview.timestamp <= y.preview.timestamp
    {
      OldestAreOldest(es, x, y);
    }
  }

  /**
   * After `cleanup` no entry has reached the cache duration, at most
   * `MaxCacheSize` entries remain and the keys stay distinct.
   */
  lemma CleanupBounds(es: seq<Entry>, now: int)
    requires DistinctKeys(es)
    ensures forall e :: e in CleanedUp(es, now) ==> now - e.preview.timestamp < CacheDuration
    ensures |CleanedUp(es, now)| <= MaxCacheSize
    ensures DistinctKeys(CleanedUp(es, now))
  {
    RemoveExpiredMembers(es, now);
    if |RemoveExpired(es, now)| > MaxCacheSize {
      EvictOldestExact(RemoveExpired(es, now));
    }
  }

  /** Without the size limit in play, `cleanup` keeps exactly the unexpired entries. */
  lemma CleanupUnderLimit(es: seq<Entry>, now: int)
    requires DistinctKeys(es)
    requires |RemoveExpired(es, now)| <= MaxCacheSize
    ensures forall e :: e in CleanedUp(es, now) <==> e in es && !Expired(e, now)
  {
    RemoveExpiredMembers(es, now);
  }

  // ---------------------------------------------------------------------
  // The cache object

  class PreviewCache {
    var cache: seq<Entry>

    ghost predicate Valid()
      reads this
    {
      DistinctKeys(cache)
    }

    constructor ()
      ensures Valid() && cache == []
    {
      cache := [];
    }

    /**
     * `getPreview` for one call: `now` is read before generating,
     * `cleanupNow` inside `cleanup`; `generated` is the generator's
     * outcome (`None` when it throws) and `fallback` the fallback preview.
     */
    method GetPreview(mapId: string, updatedAt: string, now: int, cleanupNow: int,
                      generated: Option<string>, fallback: string)
      returns (dataUrl: string)
      requires Valid()
      modifies this
      ensures Valid()
      ensures Servable(old(cache), mapId, updatedAt, now) ==>
                dataUrl == Lookup(old(cache), mapId).value.dataUrl && cache == old(cache)
      ensures !Servable(old(cache), mapId, updatedAt, now) && generated.Some? ==>
                dataUrl == generated.value
                && cache == CleanedUp(SetEntry(old(cache), mapId,
                                               CachedPreview(generated.value, now, updatedAt)), cleanupNow)
      ensures !Servable(old(cache), mapId, updatedAt, now) && generated.None? ==>
                dataUrl == fallback && cache == old(cache)
    {
      var cached := Lookup(cache, mapId);
      if cached.Some? && cached.value.mapTimestamp == updatedAt
         && now - cached.value.timestamp < CacheDuration {
        return cached.value.dataUrl;
      }
      if generated.None? {
        return fallback;
      }
      dataUrl := generated.value;
      SetEntryLookup(cache, mapId, CachedPreview(dataUrl, now, updatedAt));
      cache := SetEntry(cache, mapId, CachedPreview(dataUrl, now, updatedAt));
      Cleanup(cleanupNow);
    }

    /** `generatePreview`: the generator's result or the fallback; the cache is not touched. */
    method GeneratePreview(generated: Option<string>, fallback: string) returns (dataUrl: string)
      ensures generated.Some? ==> dataUrl == generated.value
      ensures generated.None? ==> dataUrl == fallback
    {
      dataUrl := generated.GetOr(fallback);
    }

    method Invalidate(mapId: string)
      requires Valid()
      modifies this
      ensures Valid()
      ensures cache == Without(old(cache), [mapId])
    {
      InvalidateLookup(cache, mapId);
      cache := Without(cache, [mapId]);
    }

    method Clear()
      modifies this
      ensures Valid() && cache == []
    {
      cache := [];
    }

    /** `cleanup`, whose own clock reading is `now`. */
    method Cleanup(now: int)
      requires Valid()
      modifies this
      ensures Valid()
      ensures cache == CleanedUp(old(cache), now)
    {
      DropExpired(now);
      DropOldest();
    }

    /** The first loop of `cleanup`: deletes every entry that has reached the cache duration. */
    method DropExpired(now: int)
      requires Valid()
      modifies this
      ensures Valid()
      ensures cache == RemoveExpired(old(cache), now)
    {
      var entries := cache;
      WithoutNothing(entries);
      var i := 0;
      while i < |entries|
        invariant 0 <= i <= |entries|
        invariant cache == Without(entries, ExpiredKeys(entries[..i], now))
      {
        assert entries[..i + 1] == entries[..i] + [entries[i]];
        ExpiredKeysSnoc(entries[..i], entries[i], now);
        if now - entries[i].preview.timestamp >= CacheDuration {
          WithoutSnoc(entries, ExpiredKeys(entries[..i], now), entries[i].mapId);
          cache := Without(cache, [entries[i].mapId]);
        } else {
          assert ExpiredKeys(entries[..i + 1], now) == ExpiredKeys(entries[..i], now);
        }
        i := i + 1;
      }
      assert entries[..i] == entries;
      WithoutDistinct(entries, ExpiredKeys(entries, now));
    }

    /** The second part of `cleanup`: while over the size limit, deletes the oldest entries. */
    method DropOldest()
      requires Valid()
      modifies this
      ensures Valid()
      ensures cache == EvictOldest(old(cache))
    {
      if |cache| > MaxCacheSize {
        var sorted := SortBy(cache, TimeKey);
        SortByCorrect(cache, TimeKey);
        var toRemove := |cache| - MaxCacheSize;
        ghost var kept := cache;
        WithoutNothing(kept);
        assert Keys(sorted[..0]) == [];
        var j := 0;
        while j < toRemove
          invariant 0 <= j <= toRemove
          invariant cache == Without(kept, Keys(sorted[..j]))
        {
          KeysPrefixSnoc(sorted, j);
          WithoutSnoc(kept, Keys(sorted[..j]), sorted[j].mapId);
          cache := Without(cache, [sorted[j].mapId]);
          j := j + 1;
        }
        assert sorted[..j] == Oldest(kept);
        WithoutDistinct(kept, Keys(sorted[..j]));
      }
    }
  }
}
