# pyminio, modelled in Dafny

pyminio (`pyminio/main.py`) puts a file-system interface over a MinIO
object store. A path `/bucket/dir/sub/file` is split by `Match` into a
bucket, a directory prefix ending in `/` and a file name. Directories do not
exist in the store. They are the key prefixes of the objects that lie under
them, plus empty "marker" objects whose key ends in `/`. `Pyminio` builds
the operations of a file system on top of that: `mkdirs`, `listdir`,
`exists`, `isdir`, `get`, `put_data`, `rm`, `rmdir` (with `truncate`), `cp`,
`copy_recursively`, `mv` and `get_last_object`.

This project models that layer and proves what each operation does.

- `Outcomes` holds the result types and the error kinds. The four kinds
  pyminio raises as `ValueError` are kept apart from `DirectoryNotEmptyError`
  and from the errors of the MinIO client.
- `PathStrings` models the Python string and `os.path` helpers the source
  uses: the `/+` collapse, `join`, `basename`, `dirname`, `normpath` on the
  inputs it receives, `str.replace`, and `str.lower` on ASCII letters.
- `Paths` models `Match`: the path grammar, `is_root`, `is_bucket`,
  `is_dir`, `is_file`, `relative_path` and `infer_operation_destination`.
  It also models the check that `_validate_directory` performs.
- `Sorting` models the stable descending `sorted(..., reverse=True)`.
- `Metadata` models `_extract_metadata` and the metadata dictionary that
  `get` builds.
- `Objects`, `Listing` and `ObjectStore` model the MinIO client the facade
  drives. `ObjectStore` gives each client call as a transition of a store
  snapshot. Its `Store` class holds the buckets and a logical clock as
  fields, and its methods perform those transitions in place.
- `Views` models `_get_objects_at`, `_get_buckets` (with the epoch defaults
  for missing timestamps) and `listdir`.
- `Reads` models `get`, `exists`, `isdir` and `_get_destination`. It also
  models `get_last_object` and the destination rule of `put_file`.
- `Walks` models the breadth-first walk over a directory tree that `rmdir`
  and `copy_recursively` both perform.
- `Writes` models `mkdirs`, `put_data` and `rm`.
- `Removal` models `rmdir` and `truncate`.
- `Copying` models `copy_recursively`, `cp` and `mv`.
- `Client` holds the `Pyminio` class. It wraps one `Store`, and its
  methods run the source's loops against it. Each method is proved to
  leave the store exactly as the matching step function of the modules
  above says.

## Model

| member | source | states |
|---|---|---|
| Paths.MatchFails | pyminio/main.py:66-72 | a path fails to match exactly when, after `/+` collapse, it is not `/` and has no `/` after its leading `/`; the error is the invalid-path error |
| Paths.MatchRoot | pyminio/main.py:49-81 | a path is the root exactly when it collapses to `/`; the root has empty bucket, prefix and file name; the path of a match is the collapsed input |
| Paths.MatchRootParts | pyminio/main.py:66-67 | a root match has empty bucket, prefix and file name |
| Paths.MatchCollapsed | pyminio/main.py:48-50 | matching the collapsed path gives the same result as matching the raw path |
| Paths.MatchResolved | pyminio/main.py:40-94 | every successful match has a well-formed bucket, prefix and file name that recompose to its path |
| Paths.MatchFields | pyminio/main.py:74-94 | for a non-root match: relative path is prefix + file name, `is_dir` iff the file name is empty, `is_bucket` iff prefix and file name are both empty |
| Paths.MatchComposeAny | pyminio/main.py:41-42 | `/b/e/f` matches as bucket `b`, prefix `e`, and file name `f` only when `f` has at least two characters (otherwise the file name is empty) |
| Paths.OneCharacterSegmentIsDirectory | pyminio/main.py:41-42 | `/b/d/x` resolves to the directory `d/` with no file name, and `/b` does not match |
| Paths.MatchBucketOnly | pyminio/main.py:41-42 | a bucket name with no trailing slash (`/name`) is an invalid path |
| Paths.ValidateDirectory | pyminio/main.py:125-135 | accepts exactly the matches that are directories and passes the match through; a file path is refused as not-a-directory, a bad path with its match error |
| Paths.InferDestinationCases | pyminio/main.py:96-122 | a non-file source is refused; a file destination is kept; a root destination is an invalid path; a directory destination gets the source file name appended, with a one-character last segment turned into a directory |
| Paths.IntoSlashedDirectory | pyminio/main.py:121-122 | joining a file name onto a directory path that ends in `/` matches as that file in that directory |
| Paths.IntoSegmentDirectory | pyminio/main.py:121-122 | joining a file name onto a path whose last segment is one character matches as that file inside that segment as a directory |
| PathStrings.CollapseIdempotent | pyminio/main.py:48-50 | collapsing runs of `/` twice is the same as once |
| PathStrings.CollapseKeepsNonSlash | pyminio/main.py:48-50 | collapsing keeps every character other than `/`, in order |
| PathStrings.CollapseToRoot | pyminio/main.py:80-81 | a path collapses to `/` exactly when it is non-empty and made only of `/` |
| PathStrings.Join | pyminio/main.py:84-85 | `os.path.join` of two parts: an absolute second part replaces the first; otherwise the result extends the first |
| PathStrings.Basename | pyminio/main.py:558-559 | `basename` has no `/` and is a suffix of its input |
| PathStrings.RemoveAllAbsent | pyminio/main.py:247 | `str.replace(pat, '')` leaves a string without `pat` unchanged |
| PathStrings.LowerIdempotent | pyminio/main.py:222 | lower-casing the ASCII letters twice is the same as once |
| Metadata.CleanKey | pyminio/main.py:222 | a cleaned header key is no longer than the key and has no ASCII upper-case letter |
| Metadata.Clean | pyminio/main.py:221-223 | the cleaned dictionary's keys are exactly the cleaned header keys |
| Metadata.ExtractMetadata | pyminio/main.py:221-223 | no headers give the empty dictionary; otherwise the cleaned headers |
| Metadata.CleanLastWins | pyminio/main.py:222-223 | when two headers clean to the same key, the later value is kept |
| Metadata.CleanPlainKey | pyminio/main.py:222 | a lower-case key without `X-Amz-Meta-` is kept as is |
| Metadata.CleanHeaderKey | pyminio/main.py:222 | `X-Amz-Meta-` + key cleans to the key with every `X-Amz-Meta-` removed, lower-cased |
| Metadata.Merge | pyminio/main.py:510-518 | the merged metadata has keys `is_dir`, `last_modified`, `size` and the custom keys; a custom key overrides a built-in one of the same name |
| Sorting.SortDescending | pyminio/main.py:206-208 | the sort orders by key, largest first |
| Sorting.SortStable | pyminio/main.py:206-208 | for every key value, the items with that key keep their input order: a stable permutation |
| Objects.UpsertValid | pyminio/main.py:195-197 | storing an object keeps keys distinct and well-formed, makes the new object the one found under its key, and changes no other key |
| Objects.WithoutLookup | pyminio/main.py:331 | after removing a set of keys, a removed key is absent and the other keys are unchanged |
| Listing.ListFromSound | pyminio/main.py:206-207 | every listed file is a direct child of the prefix, and every listed directory is a distinct child directory of the prefix |
| Listing.ListFromComplete | pyminio/main.py:206-207 | every direct child file and every child directory of the prefix is listed |
| Listing.ListFacts | pyminio/main.py:206-207 | the listing's file names and directory names are exactly the prefix's child files and child directories, files carry their stored object, and no name repeats |
| ObjectStore.MakeBucketStep | pyminio/main.py:186-187 | `make_bucket` succeeds exactly for a new, well-formed name, and it creates an empty bucket; other buckets are unchanged; a failure changes nothing |
| ObjectStore.PutObjectStep | pyminio/main.py:195-197 | `put_object` refuses a bad bucket name, a bad key or a missing bucket without change; otherwise it stores the object under the key and changes nothing else |
| ObjectStore.GetObjectOf | pyminio/main.py:484-488 | `get_object`/`stat_object` find the stored object, or report no-such-bucket or no-such-key |
| ObjectStore.RemoveObjectStep | pyminio/main.py:361 | `remove_object` fails only on a missing bucket; it removes the key (an absent key is fine), and leaves other buckets and the bucket set unchanged |
| ObjectStore.RemoveObjectsState | pyminio/main.py:331 | `remove_objects` removes exactly the given keys from the bucket and nothing else |
| ObjectStore.RemoveBucketStep | pyminio/main.py:339-345 | `remove_bucket` succeeds exactly on an existing empty bucket and removes only it |
| ObjectStore.CopyObjectStep | pyminio/main.py:450-452 | `copy_object` copies the source object's bytes and headers to the destination key when both buckets and the source key exist; otherwise nothing changes |
| ObjectStore.ListObjectsOf | pyminio/main.py:206-207 | listing refuses a malformed bucket name (such as the root's empty one) with the invalid-bucket-name error and a missing bucket with no-such-bucket; otherwise it gives the bucket's listing under the prefix |
| ObjectStore.Store.BucketExists | pyminio/main.py:186 | reports whether the bucket is in the store |
| ObjectStore.Store.MakeBucket | pyminio/main.py:187 | performs the `make_bucket` transition in place |
| ObjectStore.Store.PutObject | pyminio/main.py:195-197 | performs the `put_object` transition in place |
| ObjectStore.Store.GetObject | pyminio/main.py:484-488 | succeeds iff the bucket exists and holds the key, returning the stored object; otherwise no-such-key in an existing bucket, else no-such-bucket |
| ObjectStore.Store.RemoveObject | pyminio/main.py:336-337 | performs the `remove_object` transition in place |
| ObjectStore.Store.RemoveObjects | pyminio/main.py:331 | removes exactly the listed keys in place |
| ObjectStore.Store.RemoveBucket | pyminio/main.py:341 | performs the `remove_bucket` transition in place |
| ObjectStore.Store.CopyObject | pyminio/main.py:450-452 | performs the `copy_object` transition in place |
| ObjectStore.Store.ListObjects | pyminio/main.py:206-207 | checks the bucket name, then returns the listing of the bucket under the prefix, as `ListObjectsOf` states |
| ObjectStore.Store.ListBuckets | pyminio/main.py:212 | returns every bucket's name and creation time, in store order |
| Views.ObjectsAtOrder | pyminio/main.py:199-208 | for an existing bucket, `_get_objects_at` gives the directory listing newest first, counting a missing time as the epoch; objects with equal times keep listing order |
| Views.BucketsOrder | pyminio/main.py:210-213 | `_get_buckets` gives the buckets newest first, counting a missing creation date as the epoch; ties keep store order |
| Views.ListDirRoot | pyminio/main.py:239-245 | `listdir('/')` with only-files is empty; otherwise it is one `name/` per bucket, newest bucket first |
| Views.ListDirContents | pyminio/main.py:247-249 | `listdir` of a directory gives exactly the child files (and child directories unless only-files), relative to the directory, without repeats, newest first |
| Views.ListDirAsWrittenDropsRepeatedPrefix | pyminio/main.py:247 | on a store whose directory `a/` holds `a/ba/`, the `replace` of the source lists `b`; the intended listing is `ba/` |
| Views.ListDirAsWrittenAgrees | pyminio/main.py:246-248 | `listdir` as written reports the same names as the intended one exactly when the directory's prefix does not occur again inside any reported name (a bucket's top level always agrees) |
| Reads.FindNamed | pyminio/main.py:500-502 | finds an item with the given name, or none when no listed item has it |
| Reads.GetFile | pyminio/main.py:477-521 | `get` of a file succeeds iff its key is stored, returning its bytes and merged metadata; otherwise it reports not-found or no-such-bucket |
| Reads.GetDirectory | pyminio/main.py:492-521 | `get` of a directory succeeds iff some key lies under it, and returns a folder named by its last segment with directory metadata; otherwise not-found |
| Reads.GetErrorsAreValueErrors | pyminio/main.py:480-507 | in an existing bucket, every error of `get` is one raised as `ValueError` |
| Reads.ExistsMeaning | pyminio/main.py:251-277 | a bad path does not exist; the root does; a bucket when the store has it; a file when its key is stored; a directory when a key lies under it |
| Reads.IsDirectoryMeaning | pyminio/main.py:279-285 | `isdir` fails only on a bad path, and is true exactly for the root, existing buckets and directories some key lies under |
| Reads.DirectoryNameIsLastComponent | pyminio/main.py:372-373 | the name a copied directory takes is its last segment (the bucket, for a bucket) |
| Reads.GetDestinationCases | pyminio/main.py:363-379 | a file source goes through `infer_operation_destination`; a directory to a file is refused; a directory other than the root into an existing directory lands in a sub-directory named after the source; the root into an existing directory goes to that directory's path with `/` appended; a directory into a new one, at the target |
| Reads.GetDestinationFromRoot | pyminio/main.py:370-373 | the root's copied name is empty, so the root copied into an existing directory goes to `join(to.path, '')`, which is the target itself when its path ends in `/` |
| Reads.GetLastObjectNewest | pyminio/main.py:564-580 | `get_last_object` is none iff the directory holds no file; otherwise, for a newest direct child file `n`: a name of two or more characters gives that file with its stored bytes and merged metadata; a one-character name at a bucket's top level gives the invalid-operand error, and deeper down the folder of the directory itself |
| Reads.GetLastObjectOneCharacterName | pyminio/main.py:575-580 | in a bucket `b` that holds only the file `x`, `get_last_object('/b/')` fails with the invalid-operand error |
| Reads.PutFileTargetCases | pyminio/main.py:555-559 | `put_file` into a directory stores under the local file's base name; to a file path, under that path |
| Writes.MkdirsRefuses | pyminio/main.py:171-183 | `mkdirs` of a file path or of the root fails and changes nothing |
| Writes.MkdirsMakes | pyminio/main.py:180-197 | `mkdirs` creates the bucket if missing and an empty marker for the prefix; afterwards the path is a directory, and no other object changes |
| Writes.MkdirsIdempotent | pyminio/main.py:185-197 | a second `mkdirs` of the same path succeeds and changes no object's content |
| Writes.PutDataThenGet | pyminio/main.py:523-542 | after `put_data`, `get` of the path returns the data with its metadata merged, and no other object changes |
| Writes.PutDataRefuses | pyminio/main.py:532-541 | `put_data` to a bad path, a bucket path or a missing bucket fails and changes nothing |
| Writes.PutKeepsOthers | pyminio/main.py:535-541 | a successful `put_object` changes no object under any other bucket and key |
| Writes.RmFile | pyminio/main.py:360-361 | `rm` of a file removes exactly its key, after which the file does not exist; a missing bucket fails without change |
| Writes.RmDirectory | pyminio/main.py:357-358 | `rm` of a directory is `rmdir` |
| Writes.RmMissing | pyminio/main.py:360-361 | `rm` of a path that does not exist, in an existing bucket, succeeds and changes nothing |
| Walks.WalkFrom | pyminio/main.py:394-416 | the walk from a directory collects exactly its files, listing each once, and exactly its leaf directories (the directories with no sub-directories) |
| Walks.WalkCovers | pyminio/main.py:397-416 | the walk from any worklist collects exactly the files and the leaf directories reachable from it, together with those already collected |
| Walks.WalkOnce | pyminio/main.py:397-416 | the walk terminates and collects each file once |
| Removal.RmdirLoopRemoves | pyminio/main.py:310-337 | recursive, the delete loop succeeds and removes exactly the keys under its worklist, except directory markers that have a sub-directory |
| Removal.RmdirLoopSingle | pyminio/main.py:310-337 | not recursive, the loop fails with directory-not-empty when a key lies under the directory, and otherwise removes only its marker |
| Removal.RmdirRefuses | pyminio/main.py:291-308 | `rmdir` of a file path, of the root without recursion, or in a missing bucket fails and changes nothing |
| Removal.RmdirRecursive | pyminio/main.py:302-337 | recursive `rmdir` of a directory below a bucket removes exactly the keys under it, except directory markers that have a sub-directory |
| Removal.RmdirBucket | pyminio/main.py:339-345 | recursive `rmdir` of a bucket succeeds iff emptying it leaves it empty, and then the bucket is gone and the others unchanged; otherwise directory-not-empty, with the removed files gone |
| Removal.RmdirNonRecursive | pyminio/main.py:318-345 | non-recursive `rmdir` refuses a directory with anything under it; otherwise it removes the marker, or the empty bucket |
| Removal.RmdirKeepsNestedMarker | pyminio/main.py:335-337 | recursive `rmdir` leaves behind a marker that has a sub-directory, since only leaf markers are removed |
| Removal.RmdirRoot | pyminio/main.py:304-306 | recursive `rmdir('/')` is `truncate` |
| Removal.Truncate | pyminio/main.py:287-289 | `truncate` succeeds iff every bucket can be emptied, and then no bucket is left; otherwise directory-not-empty |
| Removal.TruncateFromRemoves | pyminio/main.py:288-289 | removing a list of distinct buckets succeeds iff each can be emptied, and then exactly those buckets are gone |
| Removal.RootNamesDistinct | pyminio/main.py:245 | the root listing names each bucket once |
| Copying.CopyWalkIsWalk | pyminio/main.py:397-416 | the copy walk collects the walk's files as copy tasks and makes the walk's leaves at the target, leaving the source untouched |
| Copying.CopyAllCopies | pyminio/main.py:418-422 | the copy loop succeeds iff no source file has a one-character name; each copied file gets the source's content at its target key; nothing else in the target bucket changes |
| Copying.CopyRecursivelyRefuses | pyminio/main.py:381-399 | `copy_recursively` of a file path fails with the directory guard's error; of the root, with the invalid-bucket-name error, because the root's bucket name is empty; from a missing bucket, with no-such-bucket; each changes nothing |
| Copying.CopyRecursivelyOrder | pyminio/main.py:394-422 | `copy_recursively` first makes every leaf directory at the target, then copies the walk's files in order |
| Copying.CopyRecursivelyCopies | pyminio/main.py:402-422 | `copy_recursively` succeeds iff no source file has a one-character name; then every source file's content is at its place under the target; the source is unchanged; whatever the outcome, no bucket other than the target's changes, and in the target bucket only the copies of the source's files and the markers of its leaf directories may change |
| Copying.MkdirsAllFrame | pyminio/main.py:412-414 | the leaf `mkdirs` calls of `copy_recursively` write only the leaves' markers in the target bucket (creating that bucket if missing) and change no other bucket |
| Copying.CopyAllKeepsBuckets | pyminio/main.py:418-422 | the `cp` loop of `copy_recursively` changes no bucket other than the target's |
| Copying.CopyTreeFrame | pyminio/main.py:402-422 | the walk's `mkdirs` calls and the `cp` loop together change only the target bucket, and in it only the copies of the source's files and the markers of its leaves |
| Copying.CopyRecursivelyLeaves | pyminio/main.py:412-414 | every leaf directory of the source is a directory at its place under the target |
| Copying.CopyAsWrittenDropsRepeatedPath | pyminio/main.py:409-414 | copying `/b/` to `/c/` with the file `xy/b/fg` and the leaf `xy/b/`: as written, the leaf target is `/c/xy`, which resolves as a file, so its `mkdirs` is refused as not a directory, and the file's job would target `/c/xyfg`; as intended, the leaf target is the directory `/c/xy/b/` and the file lands at `/c/xy/b/fg` |
| Copying.FileTaskAsWrittenAgrees | pyminio/main.py:403-410 | for a file under the source directory, `replace` yields the intended relative path exactly when the source path does not occur again after its leading occurrence; the copy job as written then equals the intended one, whose target is the relative path joined onto the target |
| Copying.LeafTargetAsWrittenAgrees | pyminio/main.py:412-414 | the same for a leaf directory: `replace` yields the intended relative path exactly when the source path does not occur again, and the directory made is then the intended one |
| Copying.CpTarget | pyminio/main.py:438-439 | `cp` fails when the source does not match or has no destination, and otherwise works from the match and the destination |
| Copying.CpRefuses | pyminio/main.py:424-448 | `cp` with a bad source, no destination, a directory to a file, or a directory without recursion fails and changes nothing |
| Copying.CpRecursive | pyminio/main.py:441-444 | recursive `cp` of a directory is `copy_recursively` from its path to its destination |
| Copying.FileDestination | pyminio/main.py:363-368 | the destination of a file is a well-formed file path |
| Copying.CpFileCopies | pyminio/main.py:450-452 | `cp` of a file succeeds iff the source exists and the destination bucket does; then the destination holds the source's content and nothing else changes |
| Copying.MvRefuses | pyminio/main.py:463 | `mv` with no destination fails and changes nothing |
| Copying.MvGuard | pyminio/main.py:464-469 | `mv` is `cp` followed, when both the source and the destination still exist, by `rm` of the source, whose failure replaces `cp`'s status |
| Copying.MvFile | pyminio/main.py:454-469 | `mv` of an existing file to another key moves it: the source is gone, the destination holds its content, nothing else changes |
| Copying.MvOntoItself | pyminio/main.py:454-469 | `mv` of a file onto its own path succeeds and deletes the file |
| Client.Pyminio.constructor | pyminio/main.py:154-155 | the facade wraps the given client |
| Client.Pyminio.GetObjectsAt | pyminio/main.py:199-208 | lists the directory and sorts it newest first, as `Views.ObjectsAt` |
| Client.Pyminio.GetBuckets | pyminio/main.py:210-213 | lists the buckets and sorts them newest first, as `Views.BucketsSorted` |
| Client.Pyminio.Mkdirs | pyminio/main.py:171-197 | leaves the store as `Writes.MkdirsStep` and reports its status |
| Client.Pyminio.PutData | pyminio/main.py:523-542 | leaves the store as `Writes.PutDataStep` and reports its status |
| Client.Pyminio.RmdirLoopRun | pyminio/main.py:310-337 | the delete loop over the store's own listings leaves the store as `Removal.RmdirLoop` |
| Client.Pyminio.Rmdir | pyminio/main.py:291-345 | leaves the store as `Removal.RmdirStep`, reporting directory-not-empty where the bucket removal fails |
| Client.Pyminio.Truncate | pyminio/main.py:287-289 | removes each bucket of the root listing in turn, leaving the store as `Removal.TruncateStep` |
| Client.Pyminio.Rm | pyminio/main.py:347-361 | leaves the store as `Writes.RmStep` |
| Client.Pyminio.CopyWalkRun | pyminio/main.py:394-416 | the walk loop collects the copy jobs and makes the leaf directories as `Copying.CopyWalk` |
| Client.Pyminio.CopyRecursively | pyminio/main.py:381-422 | walks, then runs the copy loop, leaving the store as `Copying.CopyRecursivelyStep` |
| Client.Pyminio.Cp | pyminio/main.py:424-452 | leaves the store as `Copying.CpStep` |
| Client.Pyminio.Mv | pyminio/main.py:454-469 | leaves the store as `Copying.MvStep` |

## Left out

- The MinIO server, the network and `Minio` itself are replaced by the `Store` class. `from_credentials` only builds a client, so it is not modelled.
- Server time is replaced by the store's logical clock. Times are integers, so time zones and `datetime` are left out, and the epoch default is `0`.
- `BytesIO` buffers and `fput_object`'s reading of a local file are left out; data is a byte sequence. From `put_file`, only the rule that picks the destination is modelled (`Reads.PutFileTarget`).
- MinIO's full naming rules are replaced by a simpler check. A bucket name is non-empty and has no `/`. A key is non-empty, does not start with `/` and has no `//`. `make_bucket`, `put_object`, `copy_object` and `list_objects` refuse other names with the client's invalid-name errors; listing the root's empty bucket name, as `copy_recursively('/', …)` does, fails that way.
- ObjectStore.GetObjectOf, ObjectStore.RemoveObjectStep: `get_object`, `stat_object`, `remove_object` and `remove_bucket` check no names; they answer by whether the bucket and key exist. The one name the core can hand them that the client would refuse is the empty key of `rm` on a one-character name in a missing bucket (`rm('/nob/x')` reaches `remove_object('nob', '')`): the model reports no-such-bucket there, where the client refuses the empty object name. Both fail and change nothing.
- The listing the client returns is fixed. It goes through the keys in store order. A key directly inside the prefix is listed as a file. A deeper key is listed as its child directory, at that directory's first occurrence only. A key equal to the prefix, which is the directory's own marker, is never listed. Listed directories carry no time or size.
- Concurrent changes to the store by other clients are left out.
- `normpath` handles only the inputs that `get` gives it. These are directory prefixes, so `.` and `..` are not resolved.
- `Reads.Get`, `Reads.Exists`, `Reads.IsDirectory`, `Views.ListDir`, `Reads.GetDestination` and `Reads.GetLastObject` are functions of the store snapshot. They are not methods of `Client.Pyminio`, because they change nothing.
- Client.Pyminio.CopyRecursively: a source directory other than the root is covered only when it is written as its canonical path (the root source is covered, and fails). Such a source must lie apart from the target (neither inside the other, nor the same), and the target must be a canonical directory path other than the root `/`. When the trees overlap, the `mkdirs` calls during the walk change the listing being walked, and the model does not prove termination for that case.
- Copying.CopyRecursivelyStep, Copying.CpStep, Copying.MvStep: for a recursive directory copy they require the layout above; non-recursive copies and file copies are covered without restriction.
- Client.Pyminio.Cp: a recursive `cp` whose source resolves to a directory is covered only in the layout above (`CpFits`: after `_get_destination`, a source directory other than the root must be canonical and lie apart from a canonical directory target other than `/`); non-recursive copies and file copies are covered without restriction.
- Client.Pyminio.Mv: a recursive `mv` of a directory is covered only in the same layout (`CpFits`), because its copy half is `copy_recursively`; non-recursive moves and file moves are covered without restriction.
- Writes.MkdirsIdempotent: states only that object contents are unchanged. A second `mkdirs` re-stamps the marker's time, so the store is not identical.
- Metadata.CleanKey: lower-cases only the ASCII letters `A`–`Z`. Python's `str.lower` folds every cased character and can lengthen one (`'İ'` becomes two characters), so a cleaned key there can be longer than the key. Unicode case mapping is not modelled.
- PathStrings.Lower, PathStrings.LowerIdempotent: ASCII-only, for the same reason.
- Paths.Match: treats a newline as an ordinary character. In the source's regex `.` does not match a newline, and `re.match` then resolves only the part of the path before it. Paths holding a newline are not modelled.
- The per-key errors that `remove_objects` reports are discarded by the source, so the model's `remove_objects` has none.

## Findings

| source | as written | input that shows it | evidently intended | confidence | as-written member | corrected member |
|---|---|---|---|---|---|---|
| pyminio/main.py:247 | `listdir` strips the directory prefix with `str.replace`, which removes every occurrence of it | `listdir('/x/a/')` where bucket `x` holds the marker `a/ba/`: as written `b`, intended `ba/` | remove only the leading prefix | not executed | Views.ListDirAsWrittenDropsRepeatedPrefix | Views.ListDirContents |
| pyminio/main.py:409-414 | `copy_recursively` builds target paths with `str.replace(from_path, '')`, which removes every occurrence of the source path | copying `/b/` to `/c/` with the file `xy/b/fg` and the leaf directory `xy/b/`: as written, the leaf's `mkdirs('/c/xy')` is refused as a file path, so the copy fails before any file is copied (the file's job would target `/c/xyfg`); intended `/c/xy/b/` and `/c/xy/b/fg` | remove only the leading source path | not executed | Copying.CopyAsWrittenDropsRepeatedPath | Copying.CopyRecursivelyCopies |

The model uses the corrected prefix strip (`Views.Relative`, `Copying.FileTask`,
`Copying.LeafTarget`). `Views.ListDirAsWrittenAgrees`,
`Copying.FileTaskAsWrittenAgrees` and `Copying.LeafTargetAsWrittenAgrees`
show that `replace` yields the intended relative name exactly when the
directory's prefix, or the source path, does not occur again after its
leading occurrence.

Some other behaviours are kept in the model as the code has them.
`mv` of a file onto its own path deletes the file (`Copying.MvOntoItself`).
`_get_destination` sends the root, copied into an existing directory, to that
directory itself rather than to a sub-directory: the root's copied name is
empty (`Reads.GetDestinationFromRoot`).
A last path segment of one character is read as a directory, not a file name
(`Paths.OneCharacterSegmentIsDirectory`). Two operations are affected by this:
- `copy_recursively` fails on a source file with a one-character name
  (`Copying.CopyRecursivelyCopies`).
- `get_last_object` does not return a newest file whose name has one character
  (`Reads.GetLastObjectNewest`, `Reads.GetLastObjectOneCharacterName`). At a
  bucket's top level it fails with the invalid-operand error. Deeper down it
  returns the folder of the directory itself.

The listing never reports the directory's own marker. Under that listing,
a recursive `rmdir` removes only the markers of leaf directories, so the
marker of a directory that has a sub-directory survives it
(`Removal.RmdirKeepsNestedMarker`). A client that listed the marker as a
file would have the loop delete it too. A client that listed it as a
directory entry would make the loop queue the same directory again without
end, and would make a non-recursive `rmdir` of an empty directory always
raise. The same choice decides which buckets
`truncate` can empty, and so when it succeeds (`Removal.Truncate`).
