// The Pyminio client as an object: it holds the store client its operations
// call, and each operation changes the store one client call at a time. Each
// method is proved to leave the store exactly as the step function of the
// same name in the other modules says.

module Client {
  import opened Outcomes
  import opened PathStrings
  import opened Paths
  import opened Objects
  import opened Listing
  import opened ObjectStore
  import opened Views
  import opened Sorting
  import opened Walks
  import opened Reads
  import opened Removal
  import opened Writes
  import opened Copying

  class Pyminio {
    /** The object store client every operation goes through. */
    const minio: Store

    ghost predicate Valid()
      reads this, minio
    {
      minio.Valid()
    }

    constructor (client: Store)
      requires client.Valid()
      ensures minio == client && Valid()
    {
      minio := client;
    }

    /** `_get_objects_at(match)`: the listing of the directory, newest first. */
    method GetObjectsAt(m: PathRef) returns (r: Result<seq<Listed>>)
      ensures r == ObjectsAt(minio.Model(), m)
    {
      var listed := minio.ListObjects(m.bucket, m.prefix);
      if listed.Err? {
        return Err(listed.error);
      }
      r := Ok(SortDesc(listed.value, LastModifiedOrEpoch));
    }

    /** `_get_buckets()`: the buckets, newest first. */
    method GetBuckets() returns (r: seq<BucketInfo>)
      ensures r == BucketsSorted(minio.Model())
    {
      var listed := minio.ListBuckets();
      r := SortDesc(listed, CreationOrEpoch);
    }

    /** `mkdirs(path)`: the bucket is made when missing, then the directory's
        marker object is put. */
    method Mkdirs(path: string) returns (status: Status)
      requires Valid()
      modifies minio
      ensures Valid() && Step(status, minio.Model()) == MkdirsStep(old(minio.Model()), path)
    {
      match ValidateDirectory(path)
      case Err(e) =>
        return Failed(e);
      case Ok(m) =>
        if m.IsRoot() {
          return Failed(InvalidOperand);
        }
        var present := minio.BucketExists(m.bucket);
        if !present {
          var made := minio.MakeBucket(m.bucket);
          if made.Failed? {
            return made;
          }
        }
        if m.IsBucket() {
          return Done;
        }
        status := minio.PutObject(m.bucket, m.prefix, [], None);
    }

    /** `put_data(path, data, metadata)`: one object written under the
        path's bucket and relative path. */
    method PutData(path: string, data: seq<Byte>, headers: Option<seq<(string, string)>>)
      returns (status: Status)
      requires Valid()
      modifies minio
      ensures Valid() && Step(status, minio.Model()) == PutDataStep(old(minio.Model()), path, data, headers)
    {
      match Match(path)
      case Err(e) =>
        return Failed(e);
      case Ok(m) =>
        status := minio.PutObject(m.bucket, m.RelativePath(), data, headers);
    }

    /** `rmdir(path, recursive)`: the root goes to `truncate`; any other
        directory is emptied by the worklist loop, and a bucket is then
        removed itself. */
    method Rmdir(path: string, recursive: bool) returns (status: Status)
      requires Valid()
      modifies minio
      ensures Valid() && Step(status, minio.Model()) == RmdirStep(old(minio.Model()), path, recursive)
      decreases if RootDirectory(path) then 2 else 0
    {
      match ValidateDirectory(path)
      case Err(e) =>
        return Failed(e);
      case Ok(m) =>
        if m.IsRoot() {
          if recursive {
            status := Truncate();
          } else {
            status := Failed(DirectoryNotEmpty);
          }
          return;
        }
        MatchFields(path);
        status := RmdirLoopRun(m.bucket, m.prefix, recursive);
        if status.Failed? || !m.IsBucket() {
          return;
        }
        var removed := minio.RemoveBucket(m.bucket);
        status := if removed == Failed(BucketNotEmpty) then Failed(DirectoryNotEmpty) else removed;
    }

    /** The loop of `rmdir` from directory `p` of bucket `b`: the first
        directory of the worklist is listed; without `recursive` a non-empty
        one stops the loop; its files are removed, and its marker too when it
        has no sub-directory and is not the bucket; its sub-directories join
        the worklist. */
    method RmdirLoopRun(b: string, p: string, recursive: bool) returns (status: Status)
      requires Valid() && (p == "" || EndsWithSlash(p))
      modifies minio
      ensures Valid() && Step(status, minio.Model()) == RmdirLoop(old(minio.Model()), b, [p], recursive)
    {
      var pending := [p];
      ghost var target := RmdirLoop(minio.Model(), b, pending, recursive);
      while pending != []
        invariant Valid() && Ready(pending)
        invariant RmdirLoop(minio.Model(), b, pending, recursive) == target
        decreases Reach(Keys(EntriesOf(minio.Model(), b)), pending), |pending|
      {
        var d := pending[0];
        var listing := GetObjectsAt(DirRef(b, d));
        if listing.Err? {
          return Failed(listing.error);
        }
        var l := listing.value;
        if l != [] && !recursive {
          return Failed(DirectoryNotEmpty);
        }
        ChildrenFacts(minio.Model(), b, d, l);
        ghost var before := minio.Model();
        var files := FileItems(l);
        if files != [] {
          minio.RemoveObjects(b, files);
        }
        if DirItems(l) == [] && d != "" {
          var _ := minio.RemoveObject(b, d);
        }
        assert minio.Model() == RmdirPass(before, b, d, l);
        StepShrinks(Keys(EntriesOf(before, b)), Keys(EntriesOf(minio.Model(), b)), pending, DirItems(l));
        pending := pending[1..] + DirItems(l);
      }
      status := Done;
    }

    /** `truncate()`: a recursive `rmdir` of each bucket `listdir` reports
        for the root, stopping at the first that fails. */
    method Truncate() returns (status: Status)
      requires Valid()
      modifies minio
      ensures Valid() && Step(status, minio.Model()) == TruncateStep(old(minio.Model()))
      decreases 1
    {
      RootEntryNames(minio.Model());
      var buckets := GetBuckets();
      var names := BucketEntryNames(buckets);
      ghost var target := TruncateFrom(minio.Model(), names);
      var i := 0;
      while i < |names|
        invariant 0 <= i <= |names| && Valid()
        invariant TruncateFrom(minio.Model(), names[i..]) == target
      {
        assert names[i..][0] == names[i] && names[i..][1..] == names[i + 1..];
        BucketPath(names[i]);
        status := Rmdir(Join(Root, names[i]), true);
        if status.Failed? {
          return;
        }
        i := i + 1;
      }
      status := Done;
    }

    /** `rm(path, recursive)`: a directory goes to `rmdir`; anything else is
        one object removed. */
    method Rm(path: string, recursive: bool) returns (status: Status)
      requires Valid()
      modifies minio
      ensures Valid() && Step(status, minio.Model()) == RmStep(old(minio.Model()), path, recursive)
    {
      match IsDirectory(minio.Model(), path)
      case Err(e) =>
        return Failed(e);
      case Ok(isDir) =>
        if isDir {
          status := Rmdir(path, recursive);
        } else {
          var m := Match(path).value;
          status := minio.RemoveObject(m.bucket, m.RelativePath());
        }
    }

    /** `cp(from_path, to_path, recursive)`: a directory goes to
        `copy_recursively` when `recursive`; otherwise one object is copied. */
    method Cp(fromPath: string, toPath: string, recursive: bool) returns (status: Status)
      requires Valid() && (recursive ==> CpFits(minio.Model(), fromPath, toPath))
      modifies minio
      ensures Valid() && Step(status, minio.Model()) == CpStep(old(minio.Model()), fromPath, toPath, recursive)
      decreases if recursive then 2 else 0
    {
      match CpTarget(minio.Model(), fromPath, toPath)
      case Err(e) =>
        return Failed(e);
      case Ok((fm, tm)) =>
        if fm.IsDir() && recursive {
          status := CopyRecursively(fm.path, tm.path);
        } else {
          if fm.IsDir() {
            return Failed(InvalidOperand);
          }
          status := minio.CopyObject(tm.bucket, tm.RelativePath(), fm.bucket, fm.RelativePath());
        }
    }

    /** `copy_recursively(from_path, to_path)`: the worklist loop collects
        the files to copy and makes each leaf directory at the target; then
        each file is copied with `cp`. */
    method CopyRecursively(fromPath: string, toPath: string) returns (status: Status)
      requires Valid() && CopyFits(fromPath, toPath)
      modifies minio
      ensures Valid() && Step(status, minio.Model()) == CopyRecursivelyStep(old(minio.Model()), fromPath, toPath)
      decreases 1
    {
      match ValidateDirectory(fromPath)
      case Err(e) =>
        return Failed(e);
      case Ok(fm) =>
        var first := GetObjectsAt(fm);
        if first.Err? {
          return Failed(first.error);
        }
        if fm.IsRoot() {
          MatchRootParts(fromPath);
          assert false;
        }
        var b, p := fm.bucket, fm.prefix;
        assert p[..|p|] == p;
        var tasks;
        status, tasks := CopyWalkRun(fromPath, toPath, b, p);
        if status.Failed? {
          return;
        }
        ghost var s1 := minio.Model();
        var i := 0;
        while i < |tasks|
          invariant 0 <= i <= |tasks| && Valid()
          invariant CopyAll(minio.Model(), tasks[i..]) == CopyAll(s1, tasks)
        {
          assert tasks[i..][0] == tasks[i] && tasks[i..][1..] == tasks[i + 1..];
          ghost var before := minio.Model();
          status := Cp(tasks[i].fromPath, tasks[i].toPath, false);
          assert Step(status, minio.Model()) == CopyFileStep(before, tasks[i].fromPath, tasks[i].toPath);
          if status.Failed? {
            return;
          }
          i := i + 1;
        }
        status := Done;
    }

    /** The worklist loop of `copy_recursively` over directory `p` of bucket
        `b`, returning the copy tasks it collected. */
    method CopyWalkRun(fromPath: string, toPath: string, b: string, p: string)
      returns (status: Status, tasks: seq<Task>)
      requires Valid() && CopyLayout(fromPath, toPath, b, p) && BucketExistsIn(minio.Model(), b)
      requires Ready([p]) && Within([p], p)
      modifies minio
      ensures Valid()
      ensures var w := CopyWalk(old(minio.Model()), fromPath, toPath, b, p, [p], []);
        status == w.status && tasks == w.tasks && minio.Model() == w.state
    {
      var pending := [p];
      tasks := [];
      ghost var target := CopyWalk(minio.Model(), fromPath, toPath, b, p, pending, tasks);
      while pending != []
        invariant Valid() && BucketExistsIn(minio.Model(), b) && Ready(pending) && Within(pending, p)
        invariant CopyWalk(minio.Model(), fromPath, toPath, b, p, pending, tasks) == target
        decreases Reach(SourceKeys(minio.Model(), b, p), pending), |pending|
      {
        var d := pending[0];
        // The bucket is there throughout, so the listing succeeds.
        var listing := GetObjectsAt(DirRef(b, d));
        var l := listing.value;
        var dirs := DirItems(l);
        tasks := tasks + FileTasks(fromPath, toPath, b, FileItems(l));
        ghost var before := minio.Model();
        ChildrenInside(before, b, p, d, l);
        LeafTargetShape(fromPath, toPath, b, p, d);
        MkdirsKeeps(before, LeafTarget(fromPath, toPath, b, d), b, p);
        if dirs == [] {
          var made := Mkdirs(LeafTarget(fromPath, toPath, b, d));
          if made.Failed? {
            return made, tasks;
          }
        }
        ghost var K := SourceKeys(before, b, p);
        StepShrinks(K, K, pending, dirs);
        WithinNext(pending, dirs, p);
        pending := pending[1..] + dirs;
      }
      status := Done;
    }

    /** `mv(from_path, to_path, recursive)`: `cp`, then, whatever `cp` did,
        `rm` of the source when both it and the destination exist. */
    method Mv(fromPath: string, toPath: string, recursive: bool) returns (status: Status)
      requires Valid() && (recursive ==> CpFits(minio.Model(), fromPath, toPath))
      modifies minio
      ensures Valid() && Step(status, minio.Model()) == MvStep(old(minio.Model()), fromPath, toPath, recursive)
    {
      match GetDestination(minio.Model(), fromPath, toPath)
      case Err(e) =>
        return Failed(e);
      case Ok(tm) =>
        status := Cp(fromPath, toPath, recursive);
        if Exists(minio.Model(), fromPath) && Exists(minio.Model(), tm.path) {
          var removed := Rm(fromPath, recursive);
          if removed.Failed? {
            status := removed;
          }
        }
    }
  }
}
