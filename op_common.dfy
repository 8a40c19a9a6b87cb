/**
 The deterministic part of the cache's disk-commit path (package `op`): the
 relative location of a cached object, the parent directory the commit
 creates, and the rename / mkdir / retry decision of the commit itself.

 Filesystem calls are not modelled: the outcome of each rename or mkdir is a
 parameter, and the commit reports the calls it would make.
 */
module Op {
  import opened Wrappers

  /** Relative path of a cached object, before it is made absolute:
      `data/<bucket>/<key>`. */
  function MapToPath(bucket: string, key: string): (path: string)
    ensures |path| == |bucket| + |key| + 6
    ensures path[..5] == "data/" && path[5..5 + |bucket|] == bucket
    ensures path[5 + |bucket|] == '/' && path[6 + |bucket|..] == key
  {
    "data/" + bucket + "/" + key
  }

  /** Index of the first `c` in `s`, or -1 when there is none. */
  function IndexByte(s: string, c: char): (i: int)
    ensures -1 <= i < |s|
    ensures i >= 0 ==> s[i] == c && forall k :: 0 <= k < i ==> s[k] != c
    ensures i < 0 ==> forall k :: 0 <= k < |s| ==> s[k] != c
  {
    if |s| == 0 then -1
    else if s[0] == c then 0
    else
      var j := IndexByte(s[1..], c);
      if j < 0 then -1 else j + 1
  }

  /** Index of the last `c` in `s`, or -1 when there is none. */
  function LastIndexByte(s: string, c: char): (i: int)
    ensures -1 <= i < |s|
    ensures i >= 0 ==> s[i] == c && forall k :: i < k < |s| ==> s[k] != c
    ensures i < 0 ==> forall k :: 0 <= k < |s| ==> s[k] != c
  {
    if |s| == 0 then -1
    else if s[|s| - 1] == c then |s| - 1
    else LastIndexByte(s[..|s| - 1], c)
  }

  /** The two conditions on `LastIndexByte` pin its result down. */
  lemma LastIndexByteUnique(s: string, c: char, i: int)
    requires 0 <= i < |s| && s[i] == c
    requires forall k :: i < k < |s| ==> s[k] != c
    ensures LastIndexByte(s, c) == i
  {
  }

  /** Inverse of `MapToPath` for bucket names without '/': splits a
      `data/<bucket>/<key>` path at the first '/' after the prefix. */
  function SplitDataPath(path: string): (r: Option<(string, string)>)
    ensures r.Some? ==> '/' !in r.value.0 && MapToPath(r.value.0, r.value.1) == path
  {
    if |path| < 5 || path[..5] != "data/" then None
    else
      var rest := path[5..];
      var i := IndexByte(rest, '/');
      if i < 0 then None
      else
        assert path == path[..5] + (rest[..i] + "/" + rest[i + 1..]);
        Some((rest[..i], rest[i + 1..]))
  }

  /** For a bucket name without '/', the relative string `data/<bucket>/<key>`
      splits back into the same bucket and key. (The absolute path the
      program uses is also cleaned, which this does not cover.) */
  lemma MapToPathRoundTrip(bucket: string, key: string)
    requires '/' !in bucket
    ensures SplitDataPath(MapToPath(bucket, key)) == Some((bucket, key))
  {
  }

  /** Distinct (bucket, key) pairs with '/'-free bucket names give distinct
      relative strings `data/<bucket>/<key>`, before the path is made absolute
      and cleaned. */
  lemma MapToPathInjective(b1: string, k1: string, b2: string, k2: string)
    requires '/' !in b1 && '/' !in b2
    requires MapToPath(b1, k1) == MapToPath(b2, k2)
    ensures b1 == b2 && k1 == k2
  {
  }

  /** The directory a failed commit to `dst` creates before retrying: `dst`
      up to, but excluding, its last '/', and only when that '/' is not at
      index 0. */
  function ParentDir(dst: string): (dir: Option<string>)
    ensures dir.Some? ==> 0 < |dir.value| < |dst| && dir.value == dst[..|dir.value|]
    ensures dir.Some? ==> dst[|dir.value|] == '/'
    ensures dir.Some? ==> forall k :: |dir.value| < k < |dst| ==> dst[k] != '/'
    ensures dir.Some? ==> dir.value + dst[|dir.value|..] == dst
  {
    var idx := LastIndexByte(dst, '/');
    if idx > 0 then Some(dst[..idx]) else None
  }

  /** No directory is created when `dst` has no '/' at all, or when its only
      '/' is the leading one. */
  lemma ParentDirAbsent(dst: string)
    ensures ParentDir(dst).None? <==> '/' !in dst || (dst[0] == '/' && '/' !in dst[1..])
  {
  }

  /** The last `c` in `a + b` lies in `b` when `b` has one, and in `a` otherwise. */
  lemma LastIndexByteConcat(a: string, b: string, c: char)
    ensures c in b ==> LastIndexByte(a + b, c) == |a| + LastIndexByte(b, c)
    ensures c !in b ==> LastIndexByte(a + b, c) == LastIndexByte(a, c)
  {
    var s := a + b;
    var j := LastIndexByte(b, c);
    if j >= 0 {
      LastIndexByteUnique(s, c, |a| + j);
    } else {
      var i := LastIndexByte(a, c);
      if i >= 0 {
        LastIndexByteUnique(s, c, i);
      } else {
        assert forall k :: 0 <= k < |s| ==> s[k] != c;
      }
    }
  }

  /** The relative string `data/<bucket>/<key>` always has a parent directory
      inside `data/<bucket>`; for a key without '/' it is exactly
      `data/<bucket>`. */
  lemma CachePathParent(bucket: string, key: string)
    ensures ParentDir(MapToPath(bucket, key)).Some?
    ensures '/' !in key ==> ParentDir(MapToPath(bucket, key)) == Some("data/" + bucket)
    ensures '/' in key ==> ParentDir(MapToPath(bucket, key))
                           == Some("data/" + bucket + "/" + key[..LastIndexByte(key, '/')])
  {
    var dir := "data/" + bucket;
    var path := MapToPath(bucket, key);
    assert path == (dir + "/") + key;
    LastIndexByteConcat(dir + "/", key, '/');
    if '/' in key {
      var j := LastIndexByte(key, '/');
      assert path[..|dir| + 1 + j] == dir + "/" + key[..j];
    } else {
      LastIndexByteUnique(dir + "/", '/', |dir|);
      assert path[..|dir|] == dir;
    }
  }

  /** Outcome of one filesystem call, or of the whole commit. */
  datatype Status = Ok | Failed(reason: string)

  /** A filesystem call the commit makes. */
  datatype FsCall = Rename(src: string, dst: string) | MkdirAll(dir: string, perm: int)

  /** Permission bits of the directories the commit creates (octal 0755). */
  const DirPerm: int := 0x1ED

  /** Moves `src` to `dst`, creating `dst`'s directory if the first rename
      fails. `firstRename`, `mkdir` and `retryRename` are what each call
      returns if it is made; `calls` lists the calls made, in order. */
  method MoveFile(src: string, dst: string, firstRename: Status, mkdir: Status, retryRename: Status)
    returns (result: Status, calls: seq<FsCall>)
    // the first rename is always tried; success there ends the commit
    ensures |calls| >= 1 && calls[0] == Rename(src, dst)
    ensures firstRename.Ok? ==> result == Ok && calls == [Rename(src, dst)]
    // no parent: straight to the second rename
    ensures firstRename.Failed? && ParentDir(dst).None? ==> calls == [Rename(src, dst), Rename(src, dst)]
    // a failed mkdir ends the commit with an error, without a second rename
    ensures firstRename.Failed? && ParentDir(dst).Some? && mkdir.Failed? ==>
              calls == [Rename(src, dst), MkdirAll(ParentDir(dst).value, DirPerm)] &&
              result == Failed("Cannot mkdir " + ParentDir(dst).value + " -- " + mkdir.reason)
    ensures firstRename.Failed? && ParentDir(dst).Some? && mkdir.Ok? ==>
              calls == [Rename(src, dst), MkdirAll(ParentDir(dst).value, DirPerm), Rename(src, dst)]
    // once the second rename is made, its error is the commit's error
    ensures |calls| > 1 && calls[|calls| - 1] == Rename(src, dst) ==>
              result == if retryRename.Ok? then Ok else Failed("Cannot mv file -- " + retryRename.reason)
    // success iff one rename succeeded
    ensures |calls| <= 3
    ensures result.Ok? <==> firstRename.Ok? || (retryRename.Ok? && (ParentDir(dst).None? || mkdir.Ok?))
  {
    var rename := Rename(src, dst);
    if firstRename.Ok? {
      return Ok, [rename];
    }

    var idx := LastIndexByte(dst, '/');
    if idx > 0 {
      var dirpath := dst[..idx];
      var mkdirCall := MkdirAll(dirpath, DirPerm);
      if mkdir.Failed? {
        return Failed("Cannot mkdir " + dirpath + " -- " + mkdir.reason), [rename, mkdirCall];
      }
      calls := [rename, mkdirCall, rename];
    } else {
      calls := [rename, rename];
    }

    if retryRename.Failed? {
      return Failed("Cannot mv file -- " + retryRename.reason), calls;
    }
    return Ok, calls;
  }
}
