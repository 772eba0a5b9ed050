/**
 * The shared, process-wide page cache and its native file handles, seen only
 * at their interface. Whether a mapping or a flush hits an I/O error is not
 * decided here: each such call may fail. Every call that reaches a native
 * handle is recorded, in order, in the shared cache's event log, so that the
 * scoped view's contracts can say which delegates were flushed or closed and
 * in which order.
 */
module PageCache {
  import opened Wrappers

  /** A file-system path (java.io.File). */
  type Path = string

  /** One of the options passed through to the shared cache's `map`. */
  datatype OpenOption = OpenOption(name: string)

  /** The caller's I/O throttling policy, passed through untouched. */
  datatype IOLimiter = IOLimiter(name: string)

  /** IOException, and IllegalStateException with its message. */
  datatype Error = IOFailure | IllegalState(message: string)

  /**
   * The host file system's canonicalisation rule (File.getCanonicalFile);
   * `None` stands for the IOException it may throw.
   */
  datatype FileSystem = FileSystem(canonicalFile: Path -> Option<Path>)

  /** A call that reached a native file handle. */
  datatype Event =
    | Closed(file: PagedFile)
    | Flushed(file: PagedFile, limiter: Option<IOLimiter>, ok: bool)

  /** The shared page cache that every database's scoped view delegates to. */
  class GlobalPageCache {
    /** Every close and flush that reached one of this cache's files, oldest first. */
    var events: seq<Event>

    constructor ()
      ensures events == []
    {
      events := [];
    }

    /**
     * Maps `file`; may fail with an I/O error, in which case nothing is
     * mapped. Assumed of the shared cache, whose code is outside this model:
     * the new native handle reports `file` as its file.
     */
    method Map(file: Path, pageSize: int, openOptions: seq<OpenOption>) returns (r: Result<PagedFile, Error>)
      ensures r.Success? ==> fresh(r.value) && r.value.file == file && r.value.pageSize == pageSize && r.value.cache == this
      ensures r.Failure? ==> r.error == IOFailure
    {
      var fails: bool :| true;
      if fails {
        r := Failure(IOFailure);
      } else {
        var pagedFile := new PagedFile(file, pageSize, this);
        r := Success(pagedFile);
      }
    }
  }

  /** A native handle of the shared cache for one mapped file. */
  class PagedFile {
    const file: Path
    const pageSize: int
    const cache: GlobalPageCache

    constructor (file: Path, pageSize: int, cache: GlobalPageCache)
      ensures this.file == file && this.pageSize == pageSize && this.cache == cache
    {
      this.file := file;
      this.pageSize := pageSize;
      this.cache := cache;
    }

    /** Flushes this file, throttled by `limiter` when one is given; may fail with an I/O error. */
    method FlushAndForce(limiter: Option<IOLimiter>) returns (o: Outcome<Error>)
      modifies cache
      ensures cache.events == old(cache.events) + [Flushed(this, limiter, o.Pass?)]
      ensures o.Fail? ==> o.error == IOFailure
    {
      var fails: bool :| true;
      o := if fails then Fail(IOFailure) else Pass;
      cache.events := cache.events + [Flushed(this, limiter, !fails)];
    }

    /** Unmaps this file from the shared cache. Nothing guards against a repeated call. */
    method Close()
      modifies cache
      ensures cache.events == old(cache.events) + [Closed(this)]
    {
      cache.events := cache.events + [Closed(this)];
    }
  }
}
