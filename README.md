# Scoped page cache of one database

This project models Neo4j's `DatabasePageCache`: the view that one database
has over the process-wide page cache. The view maps files through the
shared cache and wraps each native handle in a `DatabasePageFile`. It keeps
those handles in a registry, a copy-on-write list that the view and every
handle share. On top of that registry it offers lookup, listing, bulk flush
and bulk close. A handle closes its delegate and then removes itself from
the registry.

Modules:

- `Wrappers` (`wrappers.dfy`): `Option`, `Result` and `Outcome`, which stand for
  `Optional` and for the checked and unchecked exceptions of the Java code.
- `Sequences` (`sequences.dfy`): `RemoveFirst` is the reference definition of
  `List.remove(Object)`. Next to it are its lemmas: an absent element changes
  nothing, the first occurrence is cut out, one copy leaves the multiset, and
  distinctness is kept.
- `PageCache` (`page_cache.dfy`): the shared cache (`GlobalPageCache`) and its
  native handle (`PagedFile`), modelled only at their interface.
  - A mapping and a flush may each fail with an I/O error. The model leaves
    that choice open rather than deciding it.
  - Every close and flush that reaches a native handle is appended to the
    shared cache's `events` log. The view's contracts use this log to say
    which delegates were flushed or closed, and in what order.
- `DatabasePages` (`database_page_cache.dfy`): the registry (`FileList`), the
  handle (`DatabasePageFile`) and the view (`DatabasePageCache`).
  - `Valid()` says that no handle is registered twice, and that every
    registered handle points back to this registry and wraps a file of this
    view's shared cache.
  - `Map` keeps `Valid()`, and so does `Close`.
- `Scenarios` (`scenarios.dfy`): a client that takes two store files through
  their whole lifecycle, using only the contracts above.

Decisions about the model:

- The two `flushAndForce` overloads, with and without an `IOLimiter`, are one
  method whose limiter is an `Option`. `None` is the overload without one.
- `File.getCanonicalFile` belongs to the host file system. It is a parameter
  (`FileSystem.canonicalFile`), and its `IOException` is its `None` result.
- The model follows the Java code in two places a reader might expect
  otherwise:
  - `map` does not look at the `closed` flag
    (`DatabasePageCache.java:50-56`), so mapping after the view was closed
    still succeeds. `Scenarios.TwoStoreLifecycle` shows this.
  - A handle's `close` forwards to its delegate on every call
    (`DatabasePageCache.java:179`). Nothing stops a repeated close from
    closing the delegate again, and the same scenario shows the second close
    event.

## Model

| member | source | states |
|---|---|---|
| `Sequences.RemoveFirst` | community/kernel/src/main/java/org/neo4j/dbms/database/DatabasePageCache.java:180 | removing by identity shortens the registry by exactly one when the handle is present, and leaves its length alone otherwise |
| `Sequences.RemoveFirstAbsent` | community/kernel/src/main/java/org/neo4j/dbms/database/DatabasePageCache.java:180 | removing a handle that is not registered leaves the registry unchanged |
| `Sequences.RemoveFirstAt` | community/kernel/src/main/java/org/neo4j/dbms/database/DatabasePageCache.java:180 | removal cuts out exactly the first occurrence; everything before and after it keeps its relative order |
| `Sequences.RemoveFirstMultiset` | community/kernel/src/main/java/org/neo4j/dbms/database/DatabasePageCache.java:180 | removal takes one copy of the handle out of the registry's contents and keeps every other entry |
| `Sequences.RemoveFirstDistinct` | community/kernel/src/main/java/org/neo4j/dbms/database/DatabasePageCache.java:177-181 | on a registry without repeats, a handle's removal keeps it without repeats, leaves that handle out for good and keeps every other handle |
| `PageCache.GlobalPageCache.Map` | community/kernel/src/main/java/org/neo4j/dbms/database/DatabasePageCache.java:52 | the shared cache either fails with an I/O error or returns a fresh native handle for the requested file and page size |
| `PageCache.PagedFile.FlushAndForce` | community/kernel/src/main/java/org/neo4j/dbms/database/DatabasePageCache.java:161-167 | a native flush, throttled or not, is recorded in order together with its outcome; its only failure is an I/O error |
| `PageCache.PagedFile.Close` | community/kernel/src/main/java/org/neo4j/dbms/database/DatabasePageCache.java:179 | a native close is recorded on every call, with no guard against repetition |
| `DatabasePages.FileList.constructor` | community/kernel/src/main/java/org/neo4j/dbms/database/DatabasePageCache.java:40 | the registry starts empty |
| `DatabasePages.FileList.Add` | community/kernel/src/main/java/org/neo4j/dbms/database/DatabasePageCache.java:54 | adding appends the handle at the end and keeps the existing entries |
| `DatabasePages.FileList.Remove` | community/kernel/src/main/java/org/neo4j/dbms/database/DatabasePageCache.java:180 | the search loop removes the first entry identical to the handle, as `RemoveFirst` defines it, and reports whether one was there |
| `DatabasePages.FileList.Clear` | community/kernel/src/main/java/org/neo4j/dbms/database/DatabasePageCache.java:101 | clearing leaves the registry empty |
| `DatabasePages.DatabasePageFile.constructor` | community/kernel/src/main/java/org/neo4j/dbms/database/DatabasePageCache.java:128-132 | a handle holds its delegate and a reference to the shared registry |
| `DatabasePages.DatabasePageFile.File` | community/kernel/src/main/java/org/neo4j/dbms/database/DatabasePageCache.java:152-156 | the handle's file is its delegate's file |
| `DatabasePages.DatabasePageFile.FlushAndForce` | community/kernel/src/main/java/org/neo4j/dbms/database/DatabasePageCache.java:158-168 | the handle forwards the flush, with or without a limiter, to its own delegate only and returns the delegate's outcome unchanged |
| `DatabasePages.DatabasePageFile.Close` | community/kernel/src/main/java/org/neo4j/dbms/database/DatabasePageCache.java:176-181 | closing a handle first closes its own delegate, on every call and no other delegate, then removes the first occurrence of the handle from the registry; an absent handle is no error; a registry without repeats keeps none, no longer holds the handle and keeps every other one, so the view's invariant survives |
| `DatabasePages.DatabasePageCache.constructor` | community/kernel/src/main/java/org/neo4j/dbms/database/DatabasePageCache.java:39-47 | a new view wraps the given shared cache, with an empty registry of its own and not closed |
| `DatabasePages.DatabasePageCache.Map` | community/kernel/src/main/java/org/neo4j/dbms/database/DatabasePageCache.java:49-56 | on success, exactly one fresh handle for the file is appended and returned as the last entry, and the earlier entries are unchanged; when the shared cache fails, the error comes back and the registry is untouched; the closed flag is neither consulted nor changed |
| `DatabasePages.DatabasePageCache.GetExistingMapping` | community/kernel/src/main/java/org/neo4j/dbms/database/DatabasePageCache.java:58-64 | returns the first registered handle whose file equals the canonical form of the input, or nothing when no handle matches; a canonicalisation failure is an I/O error; the registry is not changed |
| `DatabasePages.DatabasePageCache.ListExistingMappings` | community/kernel/src/main/java/org/neo4j/dbms/database/DatabasePageCache.java:66-70 | returns a copy equal to the registry at call time, without changing it; being a value, later changes to the registry do not reach it |
| `DatabasePages.DatabasePageCache.FlushAndForce` | community/kernel/src/main/java/org/neo4j/dbms/database/DatabasePageCache.java:72-88 | on success every registered handle's delegate was flushed once, in registry order; on failure the handles before the failing one were flushed, the failing one was tried, the rest were not, and the I/O error propagates; the registry is unchanged |
| `DatabasePages.DatabasePageCache.Close` | community/kernel/src/main/java/org/neo4j/dbms/database/DatabasePageCache.java:90-103 | a second close fails with IllegalState carrying the message of the Java code's IllegalStateException and changes nothing; the first close closes the delegate of every handle registered at entry once, in registry order, empties the registry and sets `closed`, which stays true either way |
| `Scenarios.TwoStoreLifecycle` | community/kernel/src/main/java/org/neo4j/dbms/database/DatabasePageCache.java:49-103 | map two stores, find one under a non-canonical name, close the other's handle twice (still one entry left), close the view (empty registry), a second view close fails with IllegalState, and mapping after close still registers a file |

## Left out

- Concurrency. The `synchronized` on `map` and `close` and the thread safety
  of `CopyOnWriteArrayList` are not modelled, and everything runs on one
  thread. The list's snapshot iteration in `close` is modelled as iteration
  over a copy of the registry taken at entry. The other loops see no change
  to the registry while they run.
- The forwarding getters `pageSize`, `maxCachedPages` and `reportEvents` of
  the view. They only forward to the shared cache and hold no state of the
  view.
- The forwarding methods `io`, `pageSize`, `fileSize` and `getLastPageId` of
  the handle. They only forward to the delegate.
- The shared page-cache engine itself: eviction, cursors, disk I/O, and what
  an `IOLimiter` does. Only the interface is kept, and its failures are left
  open.
- The real `File.getCanonicalFile`. It is a parameter of the lookup, and
  `File.equals` is modelled as equality of path strings.
- An assumption about the shared cache, whose code is not part of this model:
  a native handle reports as its `file()` the path it was mapped with
  (`PageCache.GlobalPageCache.Map`). `DatabasePageCache.Map`'s promise about
  the returned handle's file and the scenario's lookup under a non-canonical
  name rest on it.
- `requireNonNull` in the constructor. Dafny's class types are non-null, so
  there is nothing to check.
- `DefaultWindowPoolFactory`. It is configuration and monitoring plumbing
  over library code that is not part of this model.
