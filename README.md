# s3pool catalog and file commit, modelled in Dafny

s3pool caches objects from a remote object store on local disk. This project
models two pieces of it:

- **The in-memory catalog** (`cat` package, module `Cat` in
  `cat_bucketmap.dfy`). `BucketMap` maps a bucket name to a `KeyMap` entry
  object. A `KeyMap` holds the bucket's key-to-etag table and the error of its
  last refresh. Both are classes with mutable fields. `Put` is modelled in the
  source's two phases. `GetOrCreate` is the structural phase: it finds the
  entry, or inserts a fresh one that already holds the caller's content.
  `KeyMap.Store` is the content phase, which overwrites the entry. The model
  proves the following:
  - lookups after `Put` and `Delete` give the expected results;
  - `Keys` lists every bucket exactly once (a multiset equality);
  - an existing entry keeps its identity across `Put`;
  - every other bucket's entry and its content are left alone;
  - a deleted entry's handle keeps its content;
  - distinct bucket names never share an entry (`BucketMap.Valid`).
- **The commit path** (`op` package, module `Op` in `op_common.dfy`). This
  covers three things:
  - the relative cache path `data/<bucket>/<key>`, with an inverse
    (`SplitDataPath`) and a round-trip lemma;
  - the parent directory the commit creates (`ParentDir`, from
    `LastIndexByte`);
  - the rename / mkdir / retry decision of `moveFile`.

  The outcomes of the filesystem calls are parameters. `MoveFile` returns the
  list of calls it makes together with its result.

`wrappers.dfy` holds the `Option` datatype. Its `None` also stands for Go's
nil error.

`moveFile` retries after any failure of the first rename, not only when the
parent directory is missing, and discards the first error
(src/s3pool/op/common.go:67-79). The model does the same.

The path properties (`MapToPathRoundTrip`, `MapToPathInjective`,
`CachePathParent`) are about the relative string `data/<bucket>/<key>`, not
about the absolute path the program goes on to use (see "## Left out").

## Model

| member | source | states |
|---|---|---|
| `Cat.KeyMap.constructor` | src/s3pool/cat/bucketmap.go:56-61 | a new entry already holds the caller's etag table and error |
| `Cat.KeyMap.Store` | src/s3pool/cat/bucketmap.go:66-69 | the entry's table and error are replaced wholesale by the caller's |
| `Cat.BucketMap.constructor` | src/s3pool/cat/bucketmap.go:30-32 | a new catalog has no bucket and satisfies the no-shared-entry invariant |
| `Cat.BucketMap.Keys` | src/s3pool/cat/bucketmap.go:34-42 | the result holds each bucket name of the catalog exactly once and nothing else (multiset equality), in any order |
| `Cat.BucketMap.Get` | src/s3pool/cat/bucketmap.go:44-49 | found iff the bucket is in the catalog; when found, the handle is the stored entry object itself; otherwise nil |
| `Cat.BucketMap.GetOrCreate` | src/s3pool/cat/bucketmap.go:52-64 | an existing entry is returned as it is and left untouched; otherwise a fresh entry already holding the caller's content is inserted; only this bucket's mapping changes |
| `Cat.BucketMap.Put` | src/s3pool/cat/bucketmap.go:51-70 | afterwards the bucket is present and its entry holds exactly the caller's table and error; an existing entry keeps its identity and a new one is fresh; every other bucket keeps its entry object and that object's content; distinct buckets still never share an entry |
| `Cat.BucketMap.Delete` | src/s3pool/cat/bucketmap.go:72-76 | the bucket is removed and nothing else changes; deleting an absent bucket is a no-op; the removed entry's content is untouched |
| `Cat.FreshCatalogIsEmpty` | src/s3pool/cat/bucketmap.go:30-49 | on a newly built catalog, `Get` reports not found for any bucket and `Keys` is empty |
| `Cat.HandleSeesLaterPut` | src/s3pool/cat/bucketmap.go:53-69 | starting from any catalog reachable by earlier `Put`s, a handle obtained before a second `Put` on the same bucket sees that `Put`'s table and error |
| `Cat.DeleteOrphansHandle` | src/s3pool/cat/bucketmap.go:72-76 | starting from any catalog reachable by earlier `Put`s, after `Delete` the bucket is not found, while an earlier handle keeps the content last stored in it |
| `Cat.OtherBucketUntouched` | src/s3pool/cat/bucketmap.go:51-76 | starting from any catalog reachable by earlier `Put`s, `Put` (with any table and error) and `Delete` on one bucket leave another bucket's entry object and content as they were |
| `Op.MapToPath` | src/s3pool/op/common.go:49-52 | the relative path is laid out as `data/`, the bucket, one `/`, then the key, before it is made absolute |
| `Op.SplitDataPath` | src/s3pool/op/common.go:50 | inverse of the path layout: any split it returns rebuilds the path and has a bucket without '/' |
| `Op.MapToPathRoundTrip` | src/s3pool/op/common.go:50 | for a bucket name without '/', splitting the relative string `data/<bucket>/<key>` gives back the bucket and the key |
| `Op.MapToPathInjective` | src/s3pool/op/common.go:50 | two (bucket, key) pairs with '/'-free bucket names give the same relative string `data/<bucket>/<key>` only if they are equal |
| `Op.LastIndexByte` | src/s3pool/op/common.go:71 | the result is -1 when the character does not occur; otherwise it is an index holding the character with no occurrence after it |
| `Op.LastIndexByteConcat` | src/s3pool/op/common.go:71 | in a concatenation the last occurrence lies in the second part when that part has one, and in the first part otherwise |
| `Op.ParentDir` | src/s3pool/op/common.go:71-73 | the directory is `dst` up to its last '/'; that directory followed by the rest of `dst` rebuilds `dst`; the rest starts with '/' and holds no further '/' |
| `Op.ParentDirAbsent` | src/s3pool/op/common.go:71-72 | no directory iff `dst` has no '/' or its only '/' is at index 0 |
| `Op.CachePathParent` | src/s3pool/op/common.go:71-73 | the relative string `data/<bucket>/<key>` always has a parent directory: `data/<bucket>` for a key without '/', and otherwise `data/<bucket>/` plus the key up to its last '/' |
| `Op.MoveFile` | src/s3pool/op/common.go:66-84 | the first rename is always tried and its success ends the commit with no other call; otherwise mkdir of the parent directory (mode 0755) is tried only when there is one; a failed mkdir returns an error and makes no second rename; otherwise exactly one second rename decides the result; success iff one rename succeeded |

## Left out

- The reader/writer locks of `BucketMap` and `KeyMap` are left out. Each method is modelled by its sequential effect. The window in `Put` between its two phases appears only as the separate `GetOrCreate` and `Store` steps. Concurrent interleavings are not modelled.
- `Cat.KeyMap`: the etag table is stored by value. In the source the field is a pointer to a map. The caller could pass nil, or change the map through its own copy of the pointer after `Put`. Neither is modelled.
- `checkCatalog` is left out. It waits for another goroutine to fill the catalog: it takes a named lock, notifies the bucket monitor, and polls with `time.Sleep` without bound. The `strlock` and `conf` packages are not part of this model.
- `statTimes` and `fileMtimeSince` are left out because they read filesystem metadata and the wall clock.
- `mktmpfile` is left out because it is a wrapper over temporary-file creation.
- `filepath.Abs` is left out. Its result depends on the process's working directory, and it also cleans the path: it collapses `//`, `.` and `..` and drops a trailing `/`. `Op.MapToPath` models only the relative string. After cleaning, distinct pairs can reach the same file: `("b", "k")`, `("b", "k/")` and `("b", "x/../k")` all become `<cwd>/data/b/k`. The round-trip and injectivity lemmas do not hold of the cleaned absolute path.
- `os.Rename` and `os.MkdirAll` are not modelled as filesystem operations. Their outcomes are parameters of `Op.MoveFile`. Atomicity, file contents and the error text of the underlying calls are not modelled, beyond an opaque reason string.
- `Op.LastIndexByte`: paths are sequences of characters, while Go indexes bytes. Split positions agree for paths whose characters are single bytes.
- Logging (`log.Println`) is left out.
