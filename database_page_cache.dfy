/**
 * A per-database view over the shared page cache. The view remembers every
 * file it mapped in a registry shared with the handles it hands out; bulk
 * flush and close act on the registered files only, and a handle removes
 * itself from the registry when it is closed.
 */
module DatabasePages {
  import opened Wrappers
  import opened Sequences
  import opened PageCache

  /** The message of the IllegalStateException thrown by a repeated close. */
  const AlreadyClosedMessage := "Database page cache was already closed"

  /** The delegate closes, one per handle of `files`, in the order of `files`. */
  ghost function CloseEvents(files: seq<DatabasePageFile>): (events: seq<Event>)
  {
    seq(|files|, i requires 0 <= i < |files| => Closed(files[i].delegate))
  }

  /** Successful delegate flushes, one per handle of `files`, in the order of `files`. */
  ghost function FlushEvents(files: seq<DatabasePageFile>, limiter: Option<IOLimiter>): (events: seq<Event>)
  {
    seq(|files|, i requires 0 <= i < |files| => Flushed(files[i].delegate, limiter, true))
  }

  /** Index `i` holds the first handle of `files` whose file is `path`. */
  ghost predicate FirstWithFile(files: seq<DatabasePageFile>, path: Path, i: int)
  {
    0 <= i < |files| && files[i].File() == path &&
    forall j :: 0 <= j < i ==> files[j].File() != path
  }

  /** The registry: the copy-on-write list of handles, shared by the view and its handles. */
  class FileList {
    var items: seq<DatabasePageFile>

    constructor ()
      ensures items == []
    {
      items := [];
    }

    method Add(file: DatabasePageFile)
      modifies this
      ensures items == old(items) + [file]
    {
      items := items + [file];
    }

    /** Removes the first element identical to `file`, if there is one. */
    method Remove(file: DatabasePageFile) returns (removed: bool)
      modifies this
      ensures removed == (file in old(items))
      ensures items == RemoveFirst(old(items), file)
    {
      var i := 0;
      while i < |items| && items[i] != file
        invariant 0 <= i <= |items|
        invariant forall j :: 0 <= j < i ==> items[j] != file
      {
        i := i + 1;
      }
      removed := i < |items|;
      if removed {
        RemoveFirstAt(items, file, i);
        items := items[..i] + items[i + 1..];
      } else {
        RemoveFirstAbsent(items, file);
      }
    }

    method Clear()
      modifies this
      ensures items == []
    {
      items := [];
    }
  }

  /** The handle handed out by the view in place of the shared cache's own. */
  class DatabasePageFile {
    const delegate: PagedFile
    const databaseFiles: FileList

    constructor (delegate: PagedFile, databaseFiles: FileList)
      ensures this.delegate == delegate && this.databaseFiles == databaseFiles
    {
      this.delegate := delegate;
      this.databaseFiles := databaseFiles;
    }

    /** The mapped file, as the delegate reports it. */
    function File(): (path: Path)
    {
      delegate.file
    }

    /** Forwards the flush to the delegate and reports its outcome unchanged. */
    method FlushAndForce(limiter: Option<IOLimiter>) returns (o: Outcome<Error>)
      modifies delegate.cache
      ensures delegate.cache.events == old(delegate.cache.events) + [Flushed(delegate, limiter, o.Pass?)]
      ensures o.Fail? ==> o.error == IOFailure
    {
      o := delegate.FlushAndForce(limiter);
    }

    /**
     * Closes the delegate, on every call, and then removes this handle from
     * the registry by identity; removing an absent handle is no error. A
     * registry without repeats stays so, no longer holds this handle and
     * keeps every other one.
     */
    method Close()
      modifies delegate.cache, databaseFiles
      ensures delegate.cache.events == old(delegate.cache.events) + [Closed(delegate)]
      ensures databaseFiles.items == RemoveFirst(old(databaseFiles.items), this)
      ensures Distinct(old(databaseFiles.items)) ==>
        Distinct(databaseFiles.items) && this !in databaseFiles.items &&
        forall f :: f in databaseFiles.items <==> f in old(databaseFiles.items) && f != this
    {
      delegate.Close();
      ghost var before := databaseFiles.items;
      var removed := databaseFiles.Remove(this);
      if Distinct(before) {
        RemoveFirstDistinct(before, this);
      }
    }
  }

  /** The scoped page cache of one database. */
  class DatabasePageCache {
    const globalPageCache: GlobalPageCache
    const databasePagedFiles: FileList
    var closed: bool

    /** The handles currently registered, in registration order. */
    ghost function Registry(): (files: seq<DatabasePageFile>)
      reads databasePagedFiles
    {
      databasePagedFiles.items
    }

    /**
     * Each registered handle occurs once, belongs to this view's registry and
     * wraps a file of this view's shared cache.
     */
    ghost predicate Valid()
      reads databasePagedFiles
    {
      Distinct(Registry()) &&
      forall f :: f in Registry() ==> f.databaseFiles == databasePagedFiles && f.delegate.cache == globalPageCache
    }

    constructor (globalPageCache: GlobalPageCache)
      ensures Valid() && fresh(databasePagedFiles)
      ensures this.globalPageCache == globalPageCache && Registry() == [] && !closed
    {
      this.globalPageCache := globalPageCache;
      databasePagedFiles := new FileList();
      closed := false;
    }

    /**
     * Maps `file` in the shared cache and registers a new handle for it at
     * the end of the registry. A failure of the shared cache leaves the
     * registry as it was. The closed flag is not consulted.
     */
    method Map(file: Path, pageSize: int, openOptions: seq<OpenOption>) returns (r: Result<DatabasePageFile, Error>)
      requires Valid()
      modifies databasePagedFiles
      ensures Valid()
      ensures r.Success? ==>
        fresh(r.value) && fresh(r.value.delegate) &&
        Registry() == old(Registry()) + [r.value] &&
        r.value.File() == file && r.value.delegate.pageSize == pageSize
      ensures r.Failure? ==> r.error == IOFailure && Registry() == old(Registry())
    {
      var mapped := globalPageCache.Map(file, pageSize, openOptions);
      if mapped.Failure? {
        return Failure(mapped.error);
      }
      var databasePageFile := new DatabasePageFile(mapped.value, databasePagedFiles);
      databasePagedFiles.Add(databasePageFile);
      r := Success(databasePageFile);
    }

    /**
     * The first registered handle whose file is the canonical form of
     * `file`, or none; fails when canonicalisation fails.
     */
    method GetExistingMapping(fs: FileSystem, file: Path) returns (r: Result<Option<DatabasePageFile>, Error>)
      ensures r.Failure? <==> fs.canonicalFile(file).None?
      ensures r.Failure? ==> r.error == IOFailure
      ensures r.Success? && r.value.Some? ==>
        exists i :: FirstWithFile(Registry(), fs.canonicalFile(file).value, i) && Registry()[i] == r.value.value
      ensures r.Success? && r.value.None? ==>
        forall f :: f in Registry() ==> f.File() != fs.canonicalFile(file).value
    {
      var canonicalFile := fs.canonicalFile(file);
      if canonicalFile.None? {
        return Failure(IOFailure);
      }
      var files := databasePagedFiles.items;
      var i := 0;
      while i < |files|
        invariant 0 <= i <= |files|
        invariant forall j :: 0 <= j < i ==> files[j].File() != canonicalFile.value
      {
        if files[i].File() == canonicalFile.value {
          r := Success(Some(files[i]));
          assert FirstWithFile(Registry(), canonicalFile.value, i) && Registry()[i] == r.value.value;
          return;
        }
        i := i + 1;
      }
      r := Success(None);
    }

    /** A copy of the registry as it is now. */
    method ListExistingMappings() returns (r: seq<DatabasePageFile>)
      ensures r == Registry()
    {
      r := databasePagedFiles.items;
    }

    /**
     * Flushes every registered handle in registry order, throttled by
     * `limiter` when one is given. The first failure is returned at once and
     * the handles after it are not flushed.
     */
    method FlushAndForce(limiter: Option<IOLimiter>) returns (o: Outcome<Error>)
      requires Valid()
      modifies globalPageCache
      ensures o.Pass? ==> globalPageCache.events == old(globalPageCache.events) + FlushEvents(Registry(), limiter)
      ensures o.Fail? ==>
        o.error == IOFailure &&
        exists k :: 0 <= k < |Registry()| &&
          globalPageCache.events ==
            old(globalPageCache.events) + FlushEvents(Registry()[..k], limiter) + [Flushed(Registry()[k].delegate, limiter, false)]
    {
      var files := databasePagedFiles.items;
      for i := 0 to |files|
        invariant globalPageCache.events == old(globalPageCache.events) + FlushEvents(files[..i], limiter)
      {
        assert files[i] in Registry();
        var flushed := files[i].FlushAndForce(limiter);
        if flushed.Fail? {
          assert files == Registry();
          assert 0 <= i < |Registry()| &&
            globalPageCache.events ==
              old(globalPageCache.events) + FlushEvents(Registry()[..i], limiter) + [Flushed(Registry()[i].delegate, limiter, false)];
          return flushed;
        }
        assert FlushEvents(files[..i + 1], limiter) == FlushEvents(files[..i], limiter) + [Flushed(files[i].delegate, limiter, true)];
      }
      assert files[..|files|] == files;
      o := Pass;
    }

    /**
     * Fails with IllegalState when already closed, touching nothing.
     * Otherwise closes every handle registered at entry, in registry order
     * (each handle's close removes it from the live registry), clears the
     * registry and sets the closed flag.
     */
    method Close() returns (o: Outcome<Error>)
      requires Valid()
      modifies this, databasePagedFiles, globalPageCache
      ensures Valid() && closed
      ensures old(closed) ==>
        o == Fail(IllegalState(AlreadyClosedMessage)) &&
        Registry() == old(Registry()) && globalPageCache.events == old(globalPageCache.events)
      ensures !old(closed) ==>
        o == Pass && Registry() == [] &&
        globalPageCache.events == old(globalPageCache.events) + CloseEvents(old(Registry()))
    {
      if closed {
        return Fail(IllegalState(AlreadyClosedMessage));
      }
      var snapshot := databasePagedFiles.items;
      for i := 0 to |snapshot|
        invariant databasePagedFiles.items == snapshot[i..]
        invariant globalPageCache.events == old(globalPageCache.events) + CloseEvents(snapshot[..i])
      {
        assert snapshot[i] in old(Registry());
        snapshot[i].Close();
        assert snapshot[i..] == [snapshot[i]] + snapshot[i + 1..];
        assert CloseEvents(snapshot[..i + 1]) == CloseEvents(snapshot[..i]) + [Closed(snapshot[i].delegate)];
      }
      assert snapshot[..|snapshot|] == snapshot;
      databasePagedFiles.Clear();
      closed := true;
      o := Pass;
    }
  }
}
