/** Crash atomicity of the tmp-fsync-replace-fsync write.

    A disk is what stable storage holds of the directory, the directory changes still in flight, and
    the files.  Running programs see all changes applied; a machine crash keeps any part of those in
    flight, and may turn file content that was not flushed into anything.
*/
module AtomicWrite {
  import opened Options

  type Bytes = seq<bv8>

  type FileId = nat

  type Directory = map<string, FileId>

  /** `flushed` says that a crash keeps `content`. */
  datatype File = File(content: Bytes, flushed: bool)

  /** A directory change: a name created, or a file moved from one name over another. */
  datatype Change = Create(name: string, id: FileId) | Move(from: string, to: string, id: FileId)

  datatype Disk = Disk(files: map<FileId, File>, stable: Directory, pending: seq<Change>)

  function Changed(names: Directory, c: Change): Directory {
    match c
    case Create(name, id) => names[name := id]
    case Move(from, to, id) => (names - {from})[to := id]
  }

  function AllChanged(names: Directory, changes: seq<Change>): Directory {
    if changes == [] then names
    else Changed(AllChanged(names, changes[..|changes| - 1]), changes[|changes| - 1])
  }

  /** The directory as running programs see it. */
  function NamesOf(d: Disk): Directory {
    AllChanged(d.stable, d.pending)
  }

  /** What programs read at `path`, `None` when it is absent. */
  function Visible(d: Disk, path: string): Option<Bytes> {
    var names := NamesOf(d);
    if path in names && names[path] in d.files then Some(d.files[names[path]].content) else None
  }

  /** `stable` with some of `changes` made, in order, and the others lost: every such directory. */
  function PartlyChanged(stable: Directory, changes: seq<Change>): set<Directory> {
    if changes == [] then {stable}
    else
      var before := PartlyChanged(stable, changes[..|changes| - 1]);
      before + set names | names in before :: Changed(names, changes[|changes| - 1])
  }

  /** The directory images a crash of `d` may come back with. */
  function Images(d: Disk): set<Directory> {
    PartlyChanged(d.stable, d.pending)
  }

  /** `after` is a disk that a crash of `d` may come back with: one of the directory images, and for
      each file its content, or anything when data was not flushed. */
  ghost predicate RecoversTo(d: Disk, after: Disk) {
    && after.stable in Images(d) && after.pending == []
    && after.files.Keys == d.files.Keys
    && forall id :: id in d.files ==>
         after.files[id].flushed && (d.files[id].flushed ==> after.files[id] == d.files[id])
  }

  // ---------------------------------------------------------------- the system calls

  /** `open(tmp, O_WRONLY | O_CREAT | O_TRUNC)`; `newId` is the file id a creation gets. */
  function OpenTruncate(d: Disk, name: string, newId: FileId): Disk {
    if name in NamesOf(d) then d.(files := d.files[NamesOf(d)[name] := File([], false)])
    else Disk(d.files[newId := File([], false)], d.stable, d.pending + [Create(name, newId)])
  }

  /** `write(fd, payload)`, of which the call may accept only the first bytes. */
  function WriteBytes(d: Disk, id: FileId, accepted: Bytes): Disk
    requires id in d.files
  {
    d.(files := d.files[id := File(d.files[id].content + accepted, false)])
  }

  function FsyncFile(d: Disk, id: FileId): Disk
    requires id in d.files
  {
    d.(files := d.files[id := File(d.files[id].content, true)])
  }

  /** `replace(from, to)`: one atomic directory change. */
  function Replace(d: Disk, from: string, to: string, id: FileId): Disk {
    d.(pending := d.pending + [Move(from, to, id)])
  }

  function FsyncDirectory(d: Disk): Disk {
    Disk(d.files, NamesOf(d), [])
  }

  // ---------------------------------------------------------------- the write, stopped anywhere

  /** The last of the five effects that takes place: an exception, a crash or a failing directory
      fsync (which the code ignores) may stop the write anywhere. */
  datatype Stop = BeforeOpen | AfterOpen | AfterWrite | AfterFlush | AfterReplace | Completed

  datatype Write = Write(payload: Bytes, accepted: nat, newId: FileId, stop: Stop)

  predicate Possible(d: Disk, w: Write) {
    w.newId !in d.files && w.accepted <= |w.payload|
  }

  /** What the write call, whose result is not checked, took of the payload. */
  function Accepted(w: Write): Bytes {
    if w.accepted < |w.payload| then w.payload[..w.accepted] else w.payload
  }

  /** The file a write to `tmp` goes to. */
  function Target(d: Disk, tmp: string, newId: FileId): FileId {
    if tmp in NamesOf(d) then NamesOf(d)[tmp] else newId
  }

  /** The disk after `w` as far as it got. */
  function Effect(d: Disk, path: string, tmp: string, w: Write): Disk
    requires Possible(d, w)
  {
    if w.stop.BeforeOpen? then d
    else
      var fd := Target(d, tmp, w.newId);
      var created := OpenTruncate(d, tmp, w.newId);
      if w.stop.AfterOpen? then created
      else
        var written := WriteBytes(created, fd, Accepted(w));
        if w.stop.AfterWrite? then written
        else
          var flushed := FsyncFile(written, fd);
          if w.stop.AfterFlush? then flushed
          else
            var replaced := Replace(flushed, tmp, path, fd);
            if w.stop.AfterReplace? then replaced else FsyncDirectory(replaced)
  }

  class FileSystem {
    var disk: Disk

    constructor (disk: Disk)
      ensures this.disk == disk
    {
      this.disk := disk;
    }

    /** `_atomic_write_bytes`, as the sequence of its effects. */
    method AtomicWriteBytes(path: string, tmp: string, w: Write)
      requires Possible(disk, w)
      modifies this
      ensures disk == Effect(old(disk), path, tmp, w)
    {
      if w.stop.BeforeOpen? { return; }
      var fd := Target(disk, tmp, w.newId);
      disk := OpenTruncate(disk, tmp, w.newId);
      if w.stop.AfterOpen? { return; }
      disk := WriteBytes(disk, fd, Accepted(w));
      if w.stop.AfterWrite? { return; }
      disk := FsyncFile(disk, fd);
      if w.stop.AfterFlush? { return; }
      disk := Replace(disk, tmp, path, fd);
      if w.stop.AfterReplace? { return; }
      disk := FsyncDirectory(disk);
    }
  }

  // ---------------------------------------------------------------- what every step keeps

  /** In the directory image `names`, `path` holds one of `allowed`, flushed, and shares no file with
      the temporary name. */
  ghost predicate Holds(d: Disk, names: Directory, path: string, tmp: string, allowed: set<Option<Bytes>>) {
    && (tmp in names && path in names ==> names[tmp] != names[path])
    && (forall n :: n in names ==> names[n] in d.files)
    && (path !in names ==> None in allowed)
    && (path in names ==> d.files[names[path]].flushed && Some(d.files[names[path]].content) in allowed)
  }

  /** Every directory image holds one of `allowed` at `path`, in a file that a write to the temporary
      name does not touch. */
  ghost predicate Safe(d: Disk, path: string, tmp: string, allowed: set<Option<Bytes>>) {
    && path != tmp
    && (forall names :: names in Images(d) ==> Holds(d, names, path, tmp, allowed))
    && (forall names :: names in Images(d) && path in names && tmp in NamesOf(d) ==> names[path] != NamesOf(d)[tmp])
  }

  /** A disk at rest, `path` flushed or absent, is where it starts. */
  lemma RestIsSafe(d: Disk, path: string, tmp: string)
    requires path != tmp && d.pending == [] && forall n :: n in d.stable ==> d.stable[n] in d.files
    requires path in d.stable ==> d.files[d.stable[path]].flushed
    requires tmp in d.stable && path in d.stable ==> d.stable[tmp] != d.stable[path]
    ensures Safe(d, path, tmp, {Visible(d, path)})
  {
    forall names | names in Images(d)
      ensures names == d.stable
    {
    }
  }

  /** What programs see is one of the images. */
  lemma {:induction false} AllChangedIsPartly(stable: Directory, changes: seq<Change>)
    ensures AllChanged(stable, changes) in PartlyChanged(stable, changes)
  {
    if changes != [] {
      AllChangedIsPartly(stable, changes[..|changes| - 1]);
    }
  }

  lemma ImageAfter(d: Disk, c: Change, names: Directory) returns (before: Directory)
    requires names in PartlyChanged(d.stable, d.pending + [c])
    ensures before in Images(d) && (names == before || names == Changed(before, c))
  {
    assert (d.pending + [c])[..|d.pending|] == d.pending;
    before :| before in Images(d) && (names == before || names == Changed(before, c));
  }

  lemma NamesAfter(d: Disk, c: Change)
    ensures AllChanged(d.stable, d.pending + [c]) == Changed(NamesOf(d), c)
  {
    assert (d.pending + [c])[..|d.pending|] == d.pending;
  }

  lemma VisibleIsAllowed(d: Disk, path: string, tmp: string, allowed: set<Option<Bytes>>)
    requires Safe(d, path, tmp, allowed)
    ensures Visible(d, path) in allowed
  {
    AllChangedIsPartly(d.stable, d.pending);
    assert NamesOf(d) in Images(d);
  }

  lemma OpenKeeps(d: Disk, path: string, tmp: string, allowed: set<Option<Bytes>>, newId: FileId)
    requires Safe(d, path, tmp, allowed) && newId !in d.files
    ensures var e, fd := OpenTruncate(d, tmp, newId), Target(d, tmp, newId);
            && Safe(e, path, tmp, allowed) && tmp in NamesOf(e) && NamesOf(e)[tmp] == fd
            && fd in e.files && e.files[fd] == File([], false)
  {
    AllChangedIsPartly(d.stable, d.pending);
    assert NamesOf(d) in Images(d);
    var e := OpenTruncate(d, tmp, newId);
    if tmp !in NamesOf(d) {
      NamesAfter(d, Create(tmp, newId));
    }
    forall names | names in Images(e)
      ensures Holds(e, names, path, tmp, allowed) && (path in names ==> names[path] != NamesOf(e)[tmp])
    {
      if tmp in NamesOf(d) {
        assert names in Images(d);
      } else {
        var before := ImageAfter(d, Create(tmp, newId), names);
        assert Holds(d, before, path, tmp, allowed);
      }
    }
  }

  /** Writing or flushing the file under the temporary name. */
  lemma TouchKeeps(d: Disk, path: string, tmp: string, allowed: set<Option<Bytes>>, file: File)
    requires Safe(d, path, tmp, allowed) && tmp in NamesOf(d)
    ensures Safe(d.(files := d.files[NamesOf(d)[tmp] := file]), path, tmp, allowed)
  {
    var e := d.(files := d.files[NamesOf(d)[tmp] := file]);
    forall names | names in Images(e)
      ensures Holds(e, names, path, tmp, allowed) && (path in names ==> names[path] != NamesOf(e)[tmp])
    {
      assert names in Images(d);
    }
  }

  lemma ReplaceKeeps(d: Disk, path: string, tmp: string, allowed: set<Option<Bytes>>, fd: FileId)
    requires Safe(d, path, tmp, allowed) && tmp in NamesOf(d) && NamesOf(d)[tmp] == fd
    requires fd in d.files && d.files[fd].flushed
    ensures Safe(Replace(d, tmp, path, fd), path, tmp, allowed + {Some(d.files[fd].content)})
    ensures path in NamesOf(Replace(d, tmp, path, fd)) && NamesOf(Replace(d, tmp, path, fd))[path] == fd
  {
    var e := Replace(d, tmp, path, fd);
    NamesAfter(d, Move(tmp, path, fd));
    forall names | names in Images(e)
      ensures Holds(e, names, path, tmp, allowed + {Some(d.files[fd].content)})
    {
      var before := ImageAfter(d, Move(tmp, path, fd), names);
      assert Holds(d, before, path, tmp, allowed);
    }
  }

  /** With nothing in flight there is one image, so what it holds is known. */
  lemma SettledHolds(d: Disk, path: string, tmp: string, allowed: set<Option<Bytes>>)
    requires Safe(d, path, tmp, allowed) && d.pending == []
    ensures Visible(d, path) in allowed && Safe(d, path, tmp, {Visible(d, path)})
  {
    assert d.stable in Images(d);
    forall names | names in Images(d)
      ensures names == d.stable
    {
    }
  }

  lemma FsyncDirectoryKeeps(d: Disk, path: string, tmp: string, allowed: set<Option<Bytes>>)
    requires Safe(d, path, tmp, allowed)
    ensures Safe(FsyncDirectory(d), path, tmp, allowed)
  {
    AllChangedIsPartly(d.stable, d.pending);
    assert NamesOf(d) in Images(d);
    forall names | names in Images(FsyncDirectory(d))
      ensures names == NamesOf(d)
    {
    }
  }

  lemma RecoveryKeeps(d: Disk, path: string, tmp: string, allowed: set<Option<Bytes>>, after: Disk)
    requires Safe(d, path, tmp, allowed) && RecoversTo(d, after)
    ensures Safe(after, path, tmp, allowed)
  {
    assert Holds(d, after.stable, path, tmp, allowed);
    forall names | names in Images(after)
      ensures names == after.stable
    {
    }
  }

  predicate Replaces(w: Write) {
    w.stop.AfterReplace? || w.stop.Completed?
  }

  /** Wherever a write stops, every directory image holds what was allowed before or, once the replace
      took place, exactly the bytes the write call accepted. */
  lemma WriteKeeps(d: Disk, path: string, tmp: string, allowed: set<Option<Bytes>>, w: Write)
    requires Safe(d, path, tmp, allowed) && Possible(d, w)
    ensures Safe(Effect(d, path, tmp, w), path, tmp, if Replaces(w) then allowed + {Some(Accepted(w))} else allowed)
    ensures Replaces(w) ==> Visible(Effect(d, path, tmp, w), path) == Some(Accepted(w))
  {
    if !w.stop.BeforeOpen? {
      var fd := Target(d, tmp, w.newId);
      var created := OpenTruncate(d, tmp, w.newId);
      OpenKeeps(d, path, tmp, allowed, w.newId);
      var written := WriteBytes(created, fd, Accepted(w));
      assert [] + Accepted(w) == Accepted(w);
      TouchKeeps(created, path, tmp, allowed, File(Accepted(w), false));
      var flushed := FsyncFile(written, fd);
      TouchKeeps(written, path, tmp, allowed, File(Accepted(w), true));
      ReplaceKeeps(flushed, path, tmp, allowed, fd);
      FsyncDirectoryKeeps(Replace(flushed, tmp, path, fd), path, tmp, allowed + {Some(Accepted(w))});
    }
  }

  // ---------------------------------------------------------------- crash atomicity

  /** Whatever point the write stopped at and whatever the crash kept, `path` comes back with one
      content, the same in every later image: one it may have had before, or exactly the bytes the
      write call accepted, and those only if the replace took place. */
  lemma CrashIsAtomic(d: Disk, path: string, tmp: string, allowed: set<Option<Bytes>>, w: Write, after: Disk)
    requires Safe(d, path, tmp, allowed) && Possible(d, w)
    requires RecoversTo(Effect(d, path, tmp, w), after)
    ensures Safe(after, path, tmp, {Visible(after, path)})
    ensures Visible(after, path) in allowed || (Replaces(w) && Visible(after, path) == Some(Accepted(w)))
  {
    var wider := if Replaces(w) then allowed + {Some(Accepted(w))} else allowed;
    WriteKeeps(d, path, tmp, allowed, w);
    RecoveryKeeps(Effect(d, path, tmp, w), path, tmp, wider, after);
    SettledHolds(after, path, tmp, wider);
  }

  /** After a return whose directory flush succeeded no crash brings anything else back. */
  lemma CompletedIsDurable(d: Disk, path: string, tmp: string, allowed: set<Option<Bytes>>, w: Write)
    requires Safe(d, path, tmp, allowed) && Possible(d, w) && w.stop.Completed?
    ensures Safe(Effect(d, path, tmp, w), path, tmp, {Some(Accepted(w))})
    ensures forall after :: RecoversTo(Effect(d, path, tmp, w), after) ==> Visible(after, path) == Some(Accepted(w))
  {
    var e := Effect(d, path, tmp, w);
    WriteKeeps(d, path, tmp, allowed, w);
    SettledHolds(e, path, tmp, allowed + {Some(Accepted(w))});
    forall after | RecoversTo(e, after)
      ensures Visible(after, path) == Some(Accepted(w))
    {
      RecoveryKeeps(e, path, tmp, {Some(Accepted(w))}, after);
      VisibleIsAllowed(after, path, tmp, {Some(Accepted(w))});
    }
  }

  /** A call that returns, its directory flush failing or not, leaves the payload whole iff the write call,
      whose result is not checked, accepted all of it. */
  lemma WholeIffAccepted(d: Disk, path: string, tmp: string, allowed: set<Option<Bytes>>, w: Write)
    requires Safe(d, path, tmp, allowed) && Possible(d, w) && Replaces(w)
    ensures Visible(Effect(d, path, tmp, w), path) == Some(w.payload) <==> w.accepted == |w.payload|
  {
    WriteKeeps(d, path, tmp, allowed, w);
    assert Accepted(w) == w.payload <==> w.accepted == |w.payload|;
  }

  lemma UnflushedMayBecome(d: Disk, path: string, junk: Bytes)
    requires path in NamesOf(d) && NamesOf(d)[path] in d.files && !d.files[NamesOf(d)[path]].flushed
    ensures exists after :: RecoversTo(d, after) && Visible(after, path) == Some(junk)
  {
    AllChangedIsPartly(d.stable, d.pending);
    var files := map id | id in d.files :: if d.files[id].flushed then d.files[id] else File(junk, true);
    var after := Disk(files, NamesOf(d), []);
    assert RecoversTo(d, after) && Visible(after, path) == Some(junk);
  }

  /** The flush before the rename is what makes it atomic: renaming an unflushed file lets a crash
      leave any content at all. */
  lemma RenameWithoutFlushIsNotAtomic(
      d: Disk, path: string, tmp: string, allowed: set<Option<Bytes>>, w: Write, junk: Bytes)
    requires Safe(d, path, tmp, allowed) && Possible(d, w)
    ensures var fd := Target(d, tmp, w.newId);
            var created := OpenTruncate(d, tmp, w.newId);
            && fd in created.files
            && var renamed := Replace(WriteBytes(created, fd, Accepted(w)), tmp, path, fd);
               exists after :: RecoversTo(renamed, after) && Visible(after, path) == Some(junk)
  {
    var fd := Target(d, tmp, w.newId);
    OpenKeeps(d, path, tmp, allowed, w.newId);
    var written := WriteBytes(OpenTruncate(d, tmp, w.newId), fd, Accepted(w));
    NamesAfter(written, Move(tmp, path, fd));
    UnflushedMayBecome(Replace(written, tmp, path, fd), path, junk);
  }

  /** A crash may keep the creation of the temporary file and lose the rename over `path`. */
  lemma RenameMayBeLost(d: Disk, path: string, tmp: string, w: Write)
    requires Possible(d, w) && w.stop.AfterReplace? && d.pending == [] && tmp !in d.stable
    ensures d.stable[tmp := w.newId] in Images(Effect(d, path, tmp, w))
  {
    var create := Create(tmp, w.newId);
    var e := Effect(d, path, tmp, w);
    assert e.pending == [create, Move(tmp, path, w.newId)] && e.pending[..1] == [create] && [create][..0] == [];
    assert d.stable in PartlyChanged(d.stable, []);
    assert Changed(d.stable, create) in PartlyChanged(d.stable, [create]);
  }

  // ---------------------------------------------------------------- a whole life

  /** One write in a longer life; `next` is the disk the following write finds: what this one left,
      wherever it stopped, or what a crash made of that. */
  datatype Episode = Episode(w: Write, next: Disk)

  ghost predicate Life(d: Disk, path: string, tmp: string, episodes: seq<Episode>)
    decreases |episodes|
  {
    episodes == [] ||
    ( && Possible(d, episodes[0].w)
      && ( episodes[0].next == Effect(d, path, tmp, episodes[0].w)
           || RecoversTo(Effect(d, path, tmp, episodes[0].w), episodes[0].next))
      && Life(episodes[0].next, path, tmp, episodes[1..]))
  }

  function LastDisk(d: Disk, episodes: seq<Episode>): Disk {
    if episodes == [] then d else episodes[|episodes| - 1].next
  }

  /** What the writes that came to their replace wrote. */
  function Written(episodes: seq<Episode>): set<Option<Bytes>> {
    set i | 0 <= i < |episodes| && Replaces(episodes[i].w) :: Some(Accepted(episodes[i].w))
  }

  lemma SafeWidens(d: Disk, path: string, tmp: string, allowed: set<Option<Bytes>>, wider: set<Option<Bytes>>)
    requires Safe(d, path, tmp, allowed) && allowed <= wider
    ensures Safe(d, path, tmp, wider)
  {
    forall names | names in Images(d)
      ensures Holds(d, names, path, tmp, wider)
    {
      assert Holds(d, names, path, tmp, allowed);
    }
  }

  lemma {:induction false} LifeKeeps(
      d: Disk, path: string, tmp: string, allowed: set<Option<Bytes>>, episodes: seq<Episode>)
    requires Safe(d, path, tmp, allowed) && Life(d, path, tmp, episodes)
    ensures Safe(LastDisk(d, episodes), path, tmp, allowed + Written(episodes))
    decreases |episodes|
  {
    if episodes == [] {
      SafeWidens(d, path, tmp, allowed, allowed + Written(episodes));
    } else {
      var first, rest := episodes[0], episodes[1..];
      var wider := if Replaces(first.w) then allowed + {Some(Accepted(first.w))} else allowed;
      assert forall i :: 0 <= i < |rest| ==> rest[i] == episodes[i + 1];
      WriteKeeps(d, path, tmp, allowed, first.w);
      if first.next != Effect(d, path, tmp, first.w) {
        RecoveryKeeps(Effect(d, path, tmp, first.w), path, tmp, wider, first.next);
      }
      LifeKeeps(first.next, path, tmp, wider, rest);
      forall c | c in wider + Written(rest)
        ensures c in allowed + Written(episodes)
      {
        if c in Written(rest) {
          var i :| 0 <= i < |rest| && Replaces(rest[i].w) && c == Some(Accepted(rest[i].w));
          assert episodes[i + 1] == rest[i];
        }
      }
      assert LastDisk(first.next, rest) == LastDisk(d, episodes);
      SafeWidens(LastDisk(d, episodes), path, tmp, wider + Written(rest), allowed + Written(episodes));
    }
  }

  /** Over any number of writes, each stopped anywhere, with or without a crash after it: `path` holds
      its initial content or exactly what the write call of one write accepted, and so it does after
      a crash in the state reached.  That is the whole payload unless the call was cut short. */
  lemma NeverAMix(d: Disk, path: string, tmp: string, content: Option<Bytes>, episodes: seq<Episode>, later: Disk)
    requires Safe(d, path, tmp, {content}) && Life(d, path, tmp, episodes)
    requires later == LastDisk(d, episodes) || RecoversTo(LastDisk(d, episodes), later)
    ensures Visible(later, path) == content
            || exists i :: 0 <= i < |episodes| && Replaces(episodes[i].w)
                 && Visible(later, path) == Some(Accepted(episodes[i].w))
  {
    LifeKeeps(d, path, tmp, {content}, episodes);
    var last, allowed := LastDisk(d, episodes), {content} + Written(episodes);
    if later != last {
      RecoveryKeeps(last, path, tmp, allowed, later);
    }
    VisibleIsAllowed(later, path, tmp, allowed);
    if Visible(later, path) != content {
      var i :| 0 <= i < |episodes| && Replaces(episodes[i].w) && Visible(later, path) == Some(Accepted(episodes[i].w));
    }
  }
}
