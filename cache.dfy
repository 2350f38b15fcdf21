/**
 * The bytecode cache (bytecode/cache/bytecode_cache.go): parsed queries
 * grouped in buckets by the length of the query text. A bucket holds at
 * most 20 entries, newest first, and there are at most 100 buckets.
 */
module Cache {
  import opened Wrappers
  import opened Bytes

  const MaxBuckets := 100
  const MaxBucketEntries := 20
  /** How many buckets a full cache drops before it inserts. */
  const EvictCount := 5

  /**
   * `cacheEntry`. The query, bytecode and target are values here, which is
   * what the copies `SetEntry` takes make them in the source.
   */
  datatype CacheEntry = CacheEntry(
    query: seq<byte>,
    bytecode: seq<byte>,
    target: Option<seq<byte>>,
    targetIdx: int,
    fragmentLocation: seq<int>)

  /** What `GetEntry` hands back on a hit; a miss is `(nil, nil, -1)` in the source. */
  datatype Hit = Hit(bytecode: seq<byte>, fragmentLocation: seq<int>, targetIdx: int)

  /** The target test of `GetEntry`: both nil, or both set to the same string. */
  predicate TargetsMatch(a: Option<seq<byte>>, b: Option<seq<byte>>)
  {
    (a.None? && b.None?) || (a.Some? && b.Some? && a.value == b.value)
  }

  /** Pointer targets match exactly when they are the same optional string. */
  lemma TargetsMatchIsEquality(a: Option<seq<byte>>, b: Option<seq<byte>>)
    ensures TargetsMatch(a, b) <==> a == b
  {
    if a.Some? && b.Some? && a.value == b.value {
      assert a == b;
    }
  }

  predicate EntryMatches(e: CacheEntry, query: seq<byte>, target: Option<seq<byte>>)
  {
    e.query == query && TargetsMatch(target, e.target)
  }

  /** `entries[i]` is the first entry for `query` and `target`. */
  predicate FirstAt(entries: seq<CacheEntry>, i: int, query: seq<byte>, target: Option<seq<byte>>)
  {
    0 <= i < |entries| && EntryMatches(entries[i], query, target) &&
    forall j :: 0 <= j < i ==> !EntryMatches(entries[j], query, target)
  }

  /** The first entry of `entries` for `query` and `target`, scanning from the front. */
  function FirstMatch(entries: seq<CacheEntry>, query: seq<byte>, target: Option<seq<byte>>): (r: Option<CacheEntry>)
    ensures r.None? <==> forall i :: 0 <= i < |entries| ==> !EntryMatches(entries[i], query, target)
    ensures r.Some? ==> exists i :: FirstAt(entries, i, query, target) && entries[i] == r.value
  {
    if |entries| == 0 then None
    else if EntryMatches(entries[0], query, target) then Some(entries[0])
    else
      var r := FirstMatch(entries[1..], query, target);
      assert forall i :: 1 <= i < |entries| ==> entries[i] == entries[1..][i - 1];
      if r.Some? then
        var i :| FirstAt(entries[1..], i, query, target) && entries[1..][i] == r.value;
        assert entries[i + 1] == r.value;
        assert forall j :: 1 <= j < i + 1 ==> !EntryMatches(entries[j], query, target) by {
          forall j | 1 <= j < i + 1 ensures !EntryMatches(entries[j], query, target) {
            assert entries[j] == entries[1..][j - 1];
          }
        }
        assert FirstAt(entries, i + 1, query, target);
        r
      else r
  }

  function HitOf(e: CacheEntry): Hit
  {
    Hit(e.bytecode, e.fragmentLocation, e.targetIdx)
  }

  /** What `GetEntry` answers for a table: the first match in the bucket for the query's length. */
  function Lookup(buckets: map<nat, seq<CacheEntry>>, query: seq<byte>, target: Option<seq<byte>>): (r: Option<Hit>)
    ensures r.None? <==> |query| !in buckets || forall e :: e in buckets[|query|] ==> !EntryMatches(e, query, target)
    ensures r.Some? ==> exists e :: e in buckets[|query|] && EntryMatches(e, query, target) && r.value == HitOf(e)
  {
    if |query| !in buckets then None
    else
      var m := FirstMatch(buckets[|query|], query, target);
      if m.Some? then Some(HitOf(m.value)) else None
  }

  /** The bucket bounds, and every entry sits in the bucket of its query's length. */
  predicate WellFormed(buckets: map<nat, seq<CacheEntry>>)
  {
    |buckets| <= MaxBuckets &&
    forall k :: k in buckets ==> |buckets[k]| <= MaxBucketEntries && forall e :: e in buckets[k] ==> |e.query| == k
  }

  /**
   * The table after the eviction step of `SetEntry`: untouched below 100
   * buckets; at 100, five buckets (whichever the map's iteration order
   * offers first) are gone and the rest keep their entries.
   */
  predicate EvictedFrom(old_: map<nat, seq<CacheEntry>>, ev: map<nat, seq<CacheEntry>>)
  {
    if |old_| == MaxBuckets then
      ev.Keys <= old_.Keys && |ev| == MaxBuckets - EvictCount && forall k :: k in ev ==> ev[k] == old_[k]
    else ev == old_
  }

  /** The bucket a new entry joins: empty when there was none, without its last entry when full. */
  function Kept(buckets: map<nat, seq<CacheEntry>>, k: nat): (r: seq<CacheEntry>)
    ensures |r| < MaxBucketEntries || (k in buckets && |buckets[k]| > MaxBucketEntries)
    ensures k in buckets ==> r <= buckets[k]
    ensures k in buckets && |buckets[k]| < MaxBucketEntries ==> r == buckets[k]
  {
    if k !in buckets then []
    else if |buckets[k]| == MaxBucketEntries then buckets[k][..|buckets[k]| - 1]
    else buckets[k]
  }

  /** The insertion step of `SetEntry`: the new entry is prepended to the bucket of its length. */
  function Insert(buckets: map<nat, seq<CacheEntry>>, e: CacheEntry): map<nat, seq<CacheEntry>>
  {
    buckets[|e.query| := [e] + Kept(buckets, |e.query|)]
  }

  /** Right after an insert, a lookup of the same query and target finds what was stored. */
  lemma InsertThenLookup(buckets: map<nat, seq<CacheEntry>>, e: CacheEntry)
    ensures Lookup(Insert(buckets, e), e.query, e.target) == Some(HitOf(e))
  {
    var b := Insert(buckets, e)[|e.query|];
    assert b[0] == e;
    assert EntryMatches(e, e.query, e.target);
  }

  /** An insert leaves every lookup of another query length as it was. */
  lemma InsertKeepsOthers(buckets: map<nat, seq<CacheEntry>>, e: CacheEntry, query: seq<byte>, target: Option<seq<byte>>)
    requires |query| != |e.query|
    ensures Lookup(Insert(buckets, e), query, target) == Lookup(buckets, query, target)
  {
  }

  /** Evicting and then inserting keeps the bounds: at most 100 buckets of at most 20 entries. */
  lemma SetKeepsWellFormed(buckets: map<nat, seq<CacheEntry>>, ev: map<nat, seq<CacheEntry>>, e: CacheEntry)
    requires WellFormed(buckets) && EvictedFrom(buckets, ev)
    ensures WellFormed(Insert(ev, e))
  {
    var k := |e.query|;
    var n := Insert(ev, e);
    assert |n| <= |ev| + 1 by {
      if k in ev {
        assert n.Keys == ev.Keys;
      } else {
        assert n.Keys == ev.Keys + {k};
      }
    }
    forall j | j in n
      ensures |n[j]| <= MaxBucketEntries && forall x :: x in n[j] ==> |x.query| == j
    {
      if j != k {
        assert n[j] == ev[j] == buckets[j];
      } else {
        var kept := Kept(ev, k);
        assert n[j] == [e] + kept;
        forall x | x in kept ensures |x.query| == k {
          var i :| 0 <= i < |kept| && kept[i] == x;
          assert x == ev[k][i];
          assert ev[k] == buckets[k];
        }
      }
    }
  }

  /** Removing one present key from a map takes one off its size. */
  lemma RemoveOne(m: map<nat, seq<CacheEntry>>, k: nat)
    requires k in m
    ensures |m - {k}| == |m| - 1
  {
    assert (m - {k}).Keys == m.Keys - {k};
    assert m.Keys == (m.Keys - {k}) + {k};
  }

  /** `BytecodeCache`: the bucket table is the object's state. */
  class BytecodeCache {
    var buckets: map<nat, seq<CacheEntry>>

    /** An empty cache, as `make(BytecodeCache)` gives. */
    constructor ()
      ensures buckets == map[] && WellFormed(buckets)
    {
      buckets := map[];
    }

    /**
     * `GetEntry` (bytecode/cache/bytecode_cache.go:20-33): look the query up
     * in the bucket for its length and return the first entry whose query
     * and target both match; `None` stands for `(nil, nil, -1)`.
     */
    method GetEntry(query: seq<byte>, target: Option<seq<byte>>) returns (r: Option<Hit>)
      ensures r == Lookup(buckets, query, target)
    {
      if |query| !in buckets {
        return None;
      }
      var entries := buckets[|query|];
      var i := 0;
      while i < |entries|
        invariant 0 <= i <= |entries|
        invariant FirstMatch(entries, query, target) == FirstMatch(entries[i..], query, target)
      {
        var entry := entries[i];
        if entry.query == query && ((target.None? && entry.target.None?) || (target.Some? && entry.target.Some? && target.value == entry.target.value)) {
          return Some(Hit(entry.bytecode, entry.fragmentLocation, entry.targetIdx));
        }
        assert entries[i..][1..] == entries[i + 1..];
        i := i + 1;
      }
      return None;
    }

    /**
     * The eviction loop of `SetEntry` (bytecode/cache/bytecode_cache.go:36-47):
     * a table of exactly 100 buckets loses the first five keys the map's
     * iteration yields. The iteration order is unspecified; `:|` leaves the
     * choice of each key open.
     */
    method Evict()
      modifies this
      ensures EvictedFrom(old(buckets), buckets)
    {
      if |buckets| == MaxBuckets {
        var deleted := 0;
        while deleted < EvictCount
          invariant 0 <= deleted <= EvictCount
          invariant buckets.Keys <= old(buckets).Keys && |buckets| == MaxBuckets - deleted
          invariant forall k :: k in buckets ==> buckets[k] == old(buckets)[k]
        {
          assert buckets.Keys != {};
          var key :| key in buckets;
          RemoveOne(buckets, key);
          buckets := buckets - {key};
          deleted := deleted + 1;
        }
      }
    }

    /**
     * `SetEntry` (bytecode/cache/bytecode_cache.go:35-75): evict when the
     * table is full, drop the last entry of a full bucket, and put a copy of
     * the new entry in front of its bucket.
     */
    method SetEntry(query: seq<byte>, bytecode: seq<byte>, target: Option<seq<byte>>, targetIdx: int, fragmentLocation: seq<int>)
      requires WellFormed(buckets)
      modifies this
      ensures WellFormed(buckets)
      ensures exists ev :: EvictedFrom(old(buckets), ev) && buckets == Insert(ev, CacheEntry(query, bytecode, target, targetIdx, fragmentLocation))
      ensures Lookup(buckets, query, target) == Some(Hit(bytecode, fragmentLocation, targetIdx))
    {
      ghost var before := buckets;
      Evict();
      ghost var ev := buckets;
      var queryLen := |query|;
      var entries: seq<CacheEntry>;
      if queryLen !in buckets {
        entries := [];
      } else {
        entries := buckets[queryLen];
        if |entries| == MaxBucketEntries {
          entries := entries[..|entries| - 1];
        }
      }
      var entry := CacheEntry(query, bytecode, target, targetIdx, fragmentLocation);
      buckets := buckets[queryLen := [entry] + entries];
      assert buckets == Insert(ev, entry);
      SetKeepsWellFormed(before, ev, entry);
      InsertThenLookup(ev, entry);
    }
  }
}
