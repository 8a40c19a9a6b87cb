/**
 The in-memory catalog of the cache (package `cat`): a dictionary from bucket
 name to a per-bucket entry holding that bucket's key-to-etag table and the
 error of its last refresh. Entries are objects: a handle obtained from `Get`
 keeps pointing at the same entry, which later `Put`s update in place.

 The reader/writer locks of the `cat` package are not modelled; each method
 below is the sequential effect of one call.
 */
module Cat {
  import opened Wrappers

  /** One bucket's catalog entry. `err` is the error of the most recent
      refresh, `None` when that refresh succeeded. */
  class KeyMap {
    var etags: map<string, string>
    var err: Option<string>

    /** A new entry, already filled with the caller's table and error. */
    constructor (etags: map<string, string>, err: Option<string>)
      ensures this.etags == etags && this.err == err
    {
      this.etags := etags;
      this.err := err;
    }

    /** Overwrites the entry's content wholesale (no merge with the old table). */
    method Store(etags: map<string, string>, err: Option<string>)
      modifies this
      ensures this.etags == etags && this.err == err
    {
      this.etags := etags;
      this.err := err;
    }
  }

  /** The catalog: bucket name to entry object. */
  class BucketMap {
    var buckets: map<string, KeyMap>

    /** Distinct bucket names never share an entry object. */
    ghost predicate Valid()
      reads this
    {
      forall a, b :: a in buckets && b in buckets && a != b ==> buckets[a] != buckets[b]
    }

    /** An empty catalog. */
    constructor ()
      ensures Valid()
      ensures buckets == map[]
    {
      buckets := map[];
    }

    /** A snapshot of the bucket names: each name in the catalog exactly once,
        and nothing else, in no particular order. */
    method Keys() returns (names: seq<string>)
      ensures multiset(names) == multiset(buckets.Keys)
      ensures |names| == |buckets|
    {
      names := [];
      var rest := buckets.Keys;
      while rest != {}
        invariant rest <= buckets.Keys
        invariant multiset(names) + multiset(rest) == multiset(buckets.Keys)
        decreases rest
      {
        var b :| b in rest;
        names := names + [b];
        rest := rest - {b};
      }
      assert |multiset(names)| == |multiset(buckets.Keys)| == |buckets.Keys|;
    }

    /** Looks up one bucket; the handle is the stored entry object itself. */
    method Get(bucket: string) returns (result: KeyMap?, ok: bool)
      ensures ok <==> bucket in buckets
      ensures ok ==> result == buckets[bucket]
      ensures !ok ==> result == null
    {
      if bucket in buckets {
        result, ok := buckets[bucket], true;
      } else {
        result, ok := null, false;
      }
    }

    /** First phase of `Put` (the part under the catalog-wide lock): finds the
        bucket's entry, or creates one already filled with the caller's
        content and inserts it. No entry's content is touched otherwise. */
    method GetOrCreate(bucket: string, etags: map<string, string>, err: Option<string>)
      returns (km: KeyMap)
      requires Valid()
      modifies this
      ensures Valid()
      ensures buckets == old(buckets)[bucket := km]
      ensures bucket in old(buckets) ==> km == old(buckets[bucket]) && unchanged(km)
      ensures bucket !in old(buckets) ==> fresh(km) && km.etags == etags && km.err == err
    {
      if bucket in buckets {
        km := buckets[bucket];
      } else {
        km := new KeyMap(etags, err);
        km.etags := etags;
        km.err := err;
        buckets := buckets[bucket := km];
      }
    }

    /** Upsert: after the call the bucket's entry holds exactly the caller's
        table and error. An existing entry keeps its identity, so earlier
        handles see the new content; a new bucket gets a fresh entry. Every
        other bucket keeps its entry object and that object's content. */
    method Put(bucket: string, etags: map<string, string>, err: Option<string>)
      requires Valid()
      modifies this, (if bucket in buckets then {buckets[bucket]} else {})
      ensures Valid()
      ensures buckets.Keys == old(buckets.Keys) + {bucket}
      ensures buckets[bucket].etags == etags && buckets[bucket].err == err
      ensures bucket in old(buckets) ==> buckets[bucket] == old(buckets[bucket])
      ensures bucket !in old(buckets) ==> fresh(buckets[bucket])
      ensures forall b :: b in old(buckets) && b != bucket ==>
                buckets[b] == old(buckets[b]) && unchanged(buckets[b])
    {
      var km := GetOrCreate(bucket, etags, err);
      km.Store(etags, err);
    }

    /** Removes a bucket. The removed entry object is not touched, so a
        handle to it keeps its content; deleting an absent bucket changes
        nothing. */
    method Delete(bucket: string)
      requires Valid()
      modifies this
      ensures Valid()
      ensures buckets == old(buckets) - {bucket}
      ensures bucket !in old(buckets) ==> buckets == old(buckets)
      ensures bucket in old(buckets) ==> unchanged(old(buckets)[bucket])
    {
      buckets := buckets - {bucket};
    }
  }

  /** A freshly built catalog reports every bucket as not found and lists no names. */
  method FreshCatalogIsEmpty(bucket: string) returns (handle: KeyMap?, found: bool, names: seq<string>)
    ensures handle == null && !found && names == []
  {
    var bm := new BucketMap();
    handle, found := bm.Get(bucket);
    names := bm.Keys();
  }

  /** Builds a catalog by applying `puts` in order to an empty one: any
      catalog the operations can reach through `Put`. Everything in it is
      newly allocated, so a caller may go on changing it. */
  method Replay(puts: seq<(string, map<string, string>, Option<string>)>) returns (bm: BucketMap)
    ensures fresh(bm) && bm.Valid()
    ensures forall b :: b in bm.buckets ==> fresh(bm.buckets[b])
  {
    bm := new BucketMap();
    var i := 0;
    while i < |puts|
      invariant 0 <= i <= |puts|
      invariant fresh(bm) && bm.Valid()
      invariant forall b :: b in bm.buckets ==> fresh(bm.buckets[b])
    {
      var (bucket, etags, err) := puts[i];
      bm.Put(bucket, etags, err);
      i := i + 1;
    }
  }

  /** Whatever the catalog held before, a handle taken before a second `Put`
      on the same bucket sees that `Put`'s content, because the entry object
      is reused. */
  method HandleSeesLaterPut(history: seq<(string, map<string, string>, Option<string>)>,
                            bucket: string, etags1: map<string, string>, err1: Option<string>,
                            etags2: map<string, string>, err2: Option<string>)
    returns (handle: KeyMap?, found: bool)
    ensures found && handle != null
    ensures handle.etags == etags2 && handle.err == err2
  {
    var bm := Replay(history);
    bm.Put(bucket, etags1, err1);
    handle, found := bm.Get(bucket);
    bm.Put(bucket, etags2, err2);
  }

  /** Whatever the catalog held before, after `Delete` the bucket is not
      found, while a handle obtained before the deletion still holds the
      content last stored in it. */
  method DeleteOrphansHandle(history: seq<(string, map<string, string>, Option<string>)>,
                             bucket: string, etags: map<string, string>, err: Option<string>)
    returns (handle: KeyMap?, foundAfter: bool)
    ensures handle != null && handle.etags == etags && handle.err == err
    ensures !foundAfter
  {
    var bm := Replay(history);
    bm.Put(bucket, etags, err);
    var found;
    handle, found := bm.Get(bucket);
    bm.Delete(bucket);
    var gone;
    gone, foundAfter := bm.Get(bucket);
  }

  /** Whatever the catalog held before, `Put` and `Delete` on one bucket
      leave another bucket's entry object and its content as they were. */
  method OtherBucketUntouched(history: seq<(string, map<string, string>, Option<string>)>,
                              bucket: string, other: string, etags: map<string, string>,
                              err: Option<string>, etags2: map<string, string>, err2: Option<string>)
    returns (before: KeyMap?, after: KeyMap?)
    requires bucket != other
    ensures before != null && before == after
    ensures after.etags == etags && after.err == err
  {
    var bm := Replay(history);
    bm.Put(other, etags, err);
    var ok;
    before, ok := bm.Get(other);
    bm.Put(bucket, etags2, err2);
    bm.Delete(bucket);
    after, ok := bm.Get(other);
  }
}
