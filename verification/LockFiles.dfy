/** PID lock files on disk: what one process does to them when nobody else moves.

    `files` is the directory content.  A file holds an owner PID, text that is not an integer,
    or cannot be read at all (`OSError`).  `processes` answers `os.kill(pid, 0)`: a key is a live
    process, reachable by this user or not, and anything else is dead.
*/
module LockFiles {
  type Pid = int

  datatype LockPath = PipelineLock | ItemLock(digest: string)

  datatype Content = Owner(pid: Pid) | NotAnInteger | Unreadable

  datatype Liveness = Reachable | OwnedByAnotherUser

  datatype Attempt = Acquired | Refused | ReadError

  type Directory = map<LockPath, Content>

  /** `path` names a live process: what the read-only probe answers. */
  predicate HeldLive(files: Directory, alive: set<Pid>, path: LockPath) {
    path in files && files[path].Owner? && files[path].pid in alive
  }

  /** One atomic attempt of `me` on `path`: the verdict and the directory it leaves. */
  function Claim(files: Directory, alive: set<Pid>, path: LockPath, me: Pid): (Attempt, Directory) {
    if path in files && files[path].Unreadable? then (ReadError, files)
    else if HeldLive(files, alive, path) then (Refused, files)
    else (Acquired, files[path := Owner(me)])
  }

  class LockDirectory {
    var files: Directory
    var processes: map<Pid, Liveness>

    constructor (files: Directory, processes: map<Pid, Liveness>)
      ensures this.files == files && this.processes == processes
    {
      this.files, this.processes := files, processes;
    }

    /** Takes `path` for `me`, removing a stale or corrupt file first. */
    method AcquireLock(path: LockPath, me: Pid) returns (attempt: Attempt)
      modifies this`files
      ensures (attempt, files) == Claim(old(files), processes.Keys, path, me)
    {
      if path in files {
        match files[path] {
          case NotAnInteger =>
            files := files - {path};
          case Unreadable =>
            return ReadError;
          case Owner(stored) =>
            if stored in processes {
              return Refused;
            }
            files := files - {path};
        }
      }
      files := files[path := Owner(me)];
      attempt := Acquired;
      assert files == old(files)[path := Owner(me)];
    }

    /** Read-only probe: an unreadable file counts as not held, unlike in `AcquireLock`. */
    method IsLockHeld(path: LockPath) returns (held: bool)
      ensures held <==> HeldLive(files, processes.Keys, path)
    {
      if path !in files {
        return false;
      }
      match files[path] {
        case NotAnInteger => held := false;
        case Unreadable => held := false;
        case Owner(stored) =>
          // PermissionError (another user's process) still means a live holder.
          held := stored in processes;
      }
    }

    method ReleaseLock(path: LockPath)
      modifies this`files
      ensures files == old(files) - {path}
    {
      files := files - {path};
    }

    /** Probes the item locks one after the other, in whatever order the listing yields them. */
    method AnyScrapeResolveActive() returns (active: bool)
      ensures active <==> exists d :: HeldLive(files, processes.Keys, ItemLock(d))
    {
      var listing := set path | path in files && path.ItemLock?;
      while listing != {}
        invariant forall path :: path in listing ==> path in files && path.ItemLock?
        invariant forall path :: path in files && path.ItemLock? && path !in listing ==>
                                   !HeldLive(files, processes.Keys, path)
        decreases |listing|
      {
        var itemLock :| itemLock in listing;
        var held := IsLockHeld(itemLock);
        if held {
          assert HeldLive(files, processes.Keys, ItemLock(itemLock.digest));
          return true;
        }
        listing := listing - {itemLock};
      }
      active := false;
    }

    /** Claim first, then probe the scrape directory, then back off or keep the claim.
        `probeRaises` is the scan failing with an exception instead of answering. */
    method AcquirePipelineLock(me: Pid, probeRaises: bool) returns (attempt: Attempt)
      modifies this`files
      ensures attempt == Acquired ==>
                && !HeldLive(old(files), processes.Keys, PipelineLock)
                && (forall d :: !HeldLive(files, processes.Keys, ItemLock(d)))
                && files == old(files)[PipelineLock := Owner(me)]
      ensures attempt != Acquired ==>
                && (files == old(files) || files == old(files) - {PipelineLock})
                && (me in processes && !HeldLive(old(files), processes.Keys, PipelineLock)
                    ==> !HeldLive(files, processes.Keys, PipelineLock))
      // A stale or corrupt pipeline.lock never blocks: only a live or unreadable one, a live
      // resolve or a failing probe does.
      ensures attempt == Acquired <==>
              && !probeRaises
              && !(PipelineLock in old(files) && old(files)[PipelineLock].Unreadable?)
              && !HeldLive(old(files), processes.Keys, PipelineLock)
              && (forall d :: !HeldLive(old(files), processes.Keys, ItemLock(d)))
    {
      attempt := AcquireLock(PipelineLock, me);
      if attempt != Acquired {
        return;
      }
      assert forall d :: HeldLive(files, processes.Keys, ItemLock(d))
                         <==> HeldLive(old(files), processes.Keys, ItemLock(d));
      if probeRaises {
        ReleaseLock(PipelineLock);
        return ReadError;
      }
      var active := AnyScrapeResolveActive();
      if active {
        ReleaseLock(PipelineLock);
        return Refused;
      }
    }

    /** The item lock first, then `pipeline.lock`; backs off when a global holder is live. */
    method AcquireScrapeResolveLock(item: string, me: Pid) returns (attempt: Attempt)
      modifies this`files
      ensures attempt == Acquired <==>
              && !(ItemLock(item) in old(files) && old(files)[ItemLock(item)].Unreadable?)
              && !HeldLive(old(files), processes.Keys, ItemLock(item))
              && !HeldLive(old(files), processes.Keys, PipelineLock)
      ensures attempt == Acquired ==> files == old(files)[ItemLock(item) := Owner(me)]
      ensures attempt != Acquired ==> files == old(files) || files == old(files) - {ItemLock(item)}
      ensures attempt != Acquired && me in processes && !HeldLive(old(files), processes.Keys, ItemLock(item))
              ==> !HeldLive(files, processes.Keys, ItemLock(item))
    {
      attempt := AcquireLock(ItemLock(item), me);
      if attempt != Acquired {
        return;
      }
      var held := IsLockHeld(PipelineLock);
      if held {
        ReleaseLock(ItemLock(item));
        return Refused;
      }
    }
  }
}
