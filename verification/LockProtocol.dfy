/** The two-tier lock protocol as an interleaving of processes.

    Every step of one process is atomic, steps of different processes interleave freely, and a
    process may crash between any two of them.  The probes of the other tier are split in two
    (read the PID, then ask whether that PID is alive), and the directory scan of a global
    claimant is a walk over a listing that other processes keep changing.
*/
module LockProtocol {
  import opened Options
  import opened LockFiles

  /** Where a process stands.  `pending` holds the digests that were listed when the scan
      started, have been on disk ever since and are not probed yet. */
  datatype Pc =
    | Idle
    | GlobalClaimed
    | Scanning(pending: set<string>)
    | ProbingItem(pending: set<string>, probed: string, seen: Option<Pid>)
    | GlobalBackingOff
    | GlobalHolding
    | ItemClaimed(item: string)
    | ProbingGlobal(item: string, seen: Option<Pid>)
    | ItemBackingOff(item: string)
    | ItemHolding(item: string)
    | Dead

  /** `pcs` are the processes running this protocol, `others` any other live process of the host. */
  datatype State = State(files: Directory, pcs: map<Pid, Pc>, others: set<Pid>)

  datatype Action =
    | Spawn(p: Pid)
    | ClaimGlobal(p: Pid)
    | ListItems(p: Pid)
    | ReadItem(p: Pid, item: string)
    | DecideItem(p: Pid)
    | SkipVanished(p: Pid, item: string)
    | FinishScan(p: Pid)
    | ScanRaises(p: Pid)
    | ClaimItem(p: Pid, item: string)
    | ReadGlobal(p: Pid)
    | DecideGlobal(p: Pid)
    | Unlink(p: Pid)
    | ReadFault(p: Pid, item: string)
    | Crash(p: Pid)
    | OtherExits(p: Pid)

  function Alive(s: State): set<Pid> {
    s.others + (set p | p in s.pcs && s.pcs[p] != Dead)
  }

  /** The lock file a process at `pc` has on disk. */
  function ClaimOf(pc: Pc): Option<LockPath> {
    match pc
    case GlobalClaimed | Scanning(_) | ProbingItem(_, _, _) | GlobalBackingOff | GlobalHolding => Some(PipelineLock)
    case ItemClaimed(i) => Some(ItemLock(i))
    case ProbingGlobal(i, _) => Some(ItemLock(i))
    case ItemBackingOff(i) => Some(ItemLock(i))
    case ItemHolding(i) => Some(ItemLock(i))
    case Idle | Dead => None
  }

  /** The PID a probe reads; a missing, corrupt or unreadable file yields none. */
  function ReadPid(files: Directory, path: LockPath): Option<Pid> {
    if path in files && files[path].Owner? then Some(files[path].pid) else None
  }

  predicate SeenAlive(s: State, seen: Option<Pid>) {
    seen.Some? && seen.value in Alive(s)
  }

  predicate At(s: State, p: Pid, pc: Pc) {
    p in s.pcs && s.pcs[p] == pc
  }

  function Move(s: State, p: Pid, pc: Pc): State {
    s.(pcs := s.pcs[p := pc])
  }

  function ClaimStep(s: State, p: Pid, path: LockPath, next: Pc): State {
    var (attempt, files) := Claim(s.files, Alive(s), path, p);
    if attempt == Acquired then Move(s, p, next).(files := files) else s
  }

  function ListedItems(files: Directory): set<string> {
    set path | path in files && path.ItemLock? :: path.digest
  }

  /** One step; an action that is not enabled leaves the state as it is. */
  function Apply(s: State, a: Action): State {
    match a
    case Spawn(p) =>
      // PIDs are not reused while a lock file still names them.
      if p !in s.pcs && p !in s.others && (forall path :: path in s.files ==> s.files[path] != Owner(p))
      then Move(s, p, Idle) else s
    case ClaimGlobal(p) =>
      if At(s, p, Idle) then ClaimStep(s, p, PipelineLock, GlobalClaimed) else s
    case ListItems(p) =>
      if At(s, p, GlobalClaimed)
      then Move(s, p, Scanning(ListedItems(s.files))) else s
    case ReadItem(p, item) =>
      if p in s.pcs && s.pcs[p].Scanning?
      then Move(s, p, ProbingItem(s.pcs[p].pending, item, ReadPid(s.files, ItemLock(item)))) else s
    case DecideItem(p) =>
      if p in s.pcs && s.pcs[p].ProbingItem? then
        if SeenAlive(s, s.pcs[p].seen) then Move(s, p, GlobalBackingOff)
        else Move(s, p, Scanning(s.pcs[p].pending - {s.pcs[p].probed}))
      else s
    case SkipVanished(p, item) =>
      if p in s.pcs && s.pcs[p].Scanning? && ItemLock(item) !in s.files
      then Move(s, p, Scanning(s.pcs[p].pending - {item})) else s
    case FinishScan(p) =>
      if At(s, p, Scanning({})) then Move(s, p, GlobalHolding) else s
    case ScanRaises(p) =>
      if p in s.pcs && (s.pcs[p].Scanning? || s.pcs[p].ProbingItem? || s.pcs[p].GlobalClaimed?)
      then Move(s, p, GlobalBackingOff) else s
    case ClaimItem(p, item) =>
      if At(s, p, Idle) then ClaimStep(s, p, ItemLock(item), ItemClaimed(item)) else s
    case ReadGlobal(p) =>
      if p in s.pcs && s.pcs[p].ItemClaimed?
      then Move(s, p, ProbingGlobal(s.pcs[p].item, ReadPid(s.files, PipelineLock))) else s
    case DecideGlobal(p) =>
      if p in s.pcs && s.pcs[p].ProbingGlobal? then
        if SeenAlive(s, s.pcs[p].seen) then Move(s, p, ItemBackingOff(s.pcs[p].item))
        else Move(s, p, ItemHolding(s.pcs[p].item))
      else s
    case Unlink(p) =>
      // Backing off and releasing are the same unlink.
      if p in s.pcs && (s.pcs[p].GlobalBackingOff? || s.pcs[p].GlobalHolding?)
      then Move(s, p, Idle).(files := s.files - {PipelineLock})
      else if p in s.pcs && (s.pcs[p].ItemBackingOff? || s.pcs[p].ItemHolding?)
      then Move(s, p, Idle).(files := s.files - {ItemLock(s.pcs[p].item)})
      else s
    case ReadFault(p, item) =>
      // OSError while reading the other tier's file: the probe answers "not held".
      if p in s.pcs && s.pcs[p].Scanning? then Move(s, p, ProbingItem(s.pcs[p].pending, item, None))
      else if p in s.pcs && s.pcs[p].ItemClaimed? then Move(s, p, ProbingGlobal(s.pcs[p].item, None))
      else s
    case Crash(p) =>
      if p in s.pcs then Move(s, p, Dead) else s
    case OtherExits(p) =>
      s.(others := s.others - {p})
  }

  function Run(s: State, actions: seq<Action>): State
    decreases |actions|
  {
    if actions == [] then s else Run(Apply(s, actions[0]), actions[1..])
  }

  /** Whatever earlier, now dead, processes left on disk; nobody runs the protocol yet. */
  predicate Init(s: State) {
    s.pcs == map[]
  }

  /** No read of a lock file that a live process owns fails. */
  predicate FaultFree(s: State, a: Action) {
    a.ReadFault? && a.p in s.pcs ==>
      !HeldLive(s.files, Alive(s), if s.pcs[a.p].Scanning? then ItemLock(a.item) else PipelineLock)
  }

  predicate FaultFreeRun(s: State, actions: seq<Action>)
    decreases |actions|
  {
    actions == [] || (FaultFree(s, actions[0]) && FaultFreeRun(Apply(s, actions[0]), actions[1..]))
  }

  // ---------------------------------------------------------------- what must never happen

  /** Each lock has at most one live holder. */
  ghost predicate OneHolderEach(s: State) {
    && (forall g, h :: g in s.pcs && h in s.pcs && s.pcs[g].GlobalHolding? && s.pcs[h].GlobalHolding? ==> g == h)
    && (forall q, r :: q in s.pcs && r in s.pcs && s.pcs[q].ItemHolding? && s.pcs[r].ItemHolding? ==>
                       s.pcs[q].item != s.pcs[r].item || q == r)
  }

  /** No live global holder beside a live resolve holder. */
  ghost predicate TiersApart(s: State) {
    forall g, r :: g in s.pcs && r in s.pcs && s.pcs[g].GlobalHolding? ==> !s.pcs[r].ItemHolding?
  }

  ghost predicate Exclusive(s: State) {
    OneHolderEach(s) && TiersApart(s)
  }

  // ---------------------------------------------------------------- inductive invariant

  /** A live claimant's file is on disk with its PID in it. */
  predicate ClaimOnDisk(s: State, p: Pid) {
    p in s.pcs && ClaimOf(s.pcs[p]).Some? ==>
      ClaimOf(s.pcs[p]).value in s.files && s.files[ClaimOf(s.pcs[p]).value] == Owner(p)
  }

  ghost predicate Owned(s: State) {
    forall p :: p in s.pcs ==> ClaimOnDisk(s, p)
  }

  /** A file naming a live protocol process is that process's current claim: nothing leaks. */
  predicate NotLeaked(s: State, path: LockPath) {
    path in s.files && s.files[path].Owner? && s.files[path].pid in s.pcs && s.pcs[s.files[path].pid] != Dead ==>
      ClaimOf(s.pcs[s.files[path].pid]) == Some(path)
  }

  ghost predicate NoLeak(s: State) {
    forall path :: path in s.files ==> NotLeaked(s, path)
  }

  /** No probe has read the PID of the process that makes it. */
  predicate NotSelfSeen(p: Pid, pc: Pc) {
    (pc.ProbingItem? || pc.ProbingGlobal?) ==> pc.seen != Some(p)
  }

  /** What every step keeps, failing reads included. */
  ghost predicate Sound(s: State) {
    && Owned(s) && NoLeak(s) && s.pcs.Keys !! s.others
    && forall p :: p in s.pcs ==> NotSelfSeen(p, s.pcs[p])
  }

  /** `r` got past reading `pipeline.lock` without seeing `g` there. */
  predicate PassedUnseen(r: Pc, g: Pid) {
    r.ItemHolding? || (r.ProbingGlobal? && r.seen != Some(g))
  }

  /** `global` can no longer meet the claim of `r` on `item`: it holds, or the item is behind its scan
      and it has not seen `r`. */
  predicate TooLate(global: Pc, r: Pid, item: string) {
    || global.GlobalHolding?
    || (global.Scanning? && item !in global.pending)
    || (global.ProbingItem? && global.seen != Some(r) && (item !in global.pending || global.probed == item))
  }

  /** Dekker, with scan progress: a resolve that did not see `g` is still ahead of `g`'s scan, or
      already seen by it. */
  predicate Meets(g: Pid, global: Pc, r: Pid, resolve: Pc) {
    PassedUnseen(resolve, g) ==> !TooLate(global, r, resolve.item)
  }

  ghost predicate ScanMeets(s: State) {
    forall g, r :: g in s.pcs && r in s.pcs ==> Meets(g, s.pcs[g], r, s.pcs[r])
  }

  ghost predicate Inv(s: State) {
    Sound(s) && ScanMeets(s)
  }

  lemma OwnClaimKept(s: State, a: Action)
    requires Sound(s)
    ensures ClaimOnDisk(Apply(s, a), a.p)
  {
    if a.p in s.pcs {
      assert ClaimOnDisk(s, a.p);
    }
  }

  lemma OthersClaimKept(s: State, a: Action, p: Pid)
    requires Sound(s) && p != a.p
    ensures ClaimOnDisk(Apply(s, a), p)
  {
    if p in s.pcs {
      assert ClaimOnDisk(s, p);
      assert s.pcs[p] != Dead ==> p in Alive(s);
      if a.p in s.pcs {
        assert ClaimOnDisk(s, a.p);
      }
    }
  }

  lemma OwnedKept(s: State, a: Action)
    requires Sound(s)
    ensures Owned(Apply(s, a))
  {
    forall p | p in Apply(s, a).pcs
      ensures ClaimOnDisk(Apply(s, a), p)
    {
      if p == a.p {
        OwnClaimKept(s, a);
      } else {
        OthersClaimKept(s, a, p);
      }
    }
  }

  lemma NotLeakedKept(s: State, a: Action, path: LockPath)
    requires Sound(s)
    ensures NotLeaked(Apply(s, a), path)
  {
    if path in s.files {
      assert NotLeaked(s, path);
    }
    if a.p in s.pcs {
      assert ClaimOnDisk(s, a.p);
    }
  }

  lemma NoLeakKept(s: State, a: Action)
    requires Sound(s)
    ensures NoLeak(Apply(s, a))
  {
    forall path | path in Apply(s, a).files
      ensures NotLeaked(Apply(s, a), path)
    {
      NotLeakedKept(s, a, path);
    }
  }

  lemma NotSelfSeenKept(s: State, a: Action, p: Pid)
    requires Sound(s) && p in Apply(s, a).pcs
    ensures NotSelfSeen(p, Apply(s, a).pcs[p])
  {
    if p in s.pcs {
      assert NotSelfSeen(p, s.pcs[p]);
      if a.ReadItem? && ItemLock(a.item) in s.files {
        assert NotLeaked(s, ItemLock(a.item));
      }
      if a.ReadGlobal? && PipelineLock in s.files {
        assert NotLeaked(s, PipelineLock);
      }
    }
  }

  lemma SoundKept(s: State, a: Action)
    requires Sound(s)
    ensures Sound(Apply(s, a))
  {
    OwnedKept(s, a);
    NoLeakKept(s, a);
    forall p | p in Apply(s, a).pcs
      ensures NotSelfSeen(p, Apply(s, a).pcs[p])
    {
      NotSelfSeenKept(s, a, p);
    }
  }

  lemma PairKept(s: State, a: Action, g: Pid, r: Pid)
    requires Inv(s) && FaultFree(s, a)
    requires g in Apply(s, a).pcs && r in Apply(s, a).pcs
    ensures Meets(g, Apply(s, a).pcs[g], r, Apply(s, a).pcs[r])
  {
    if g in s.pcs && r in s.pcs {
      assert Meets(g, s.pcs[g], r, s.pcs[r]);
      assert s.pcs[g] != Dead ==> g in Alive(s);
      assert s.pcs[r] != Dead ==> r in Alive(s);
      if s.pcs[r].ItemHolding? || s.pcs[r].ProbingGlobal? {
        assert ClaimOnDisk(s, r);
      }
    }
  }

  lemma ScanMeetsKept(s: State, a: Action)
    requires Inv(s) && FaultFree(s, a)
    ensures ScanMeets(Apply(s, a))
  {
    forall g, r | g in Apply(s, a).pcs && r in Apply(s, a).pcs
      ensures Meets(g, Apply(s, a).pcs[g], r, Apply(s, a).pcs[r])
    {
      PairKept(s, a, g, r);
    }
  }

  lemma InvKept(s: State, a: Action)
    requires Inv(s) && FaultFree(s, a)
    ensures Inv(Apply(s, a))
  {
    SoundKept(s, a);
    ScanMeetsKept(s, a);
  }

  lemma {:induction false} SoundAlways(s: State, actions: seq<Action>)
    requires Sound(s)
    ensures Sound(Run(s, actions))
    decreases |actions|
  {
    if actions != [] {
      SoundKept(s, actions[0]);
      SoundAlways(Apply(s, actions[0]), actions[1..]);
    }
  }

  lemma {:induction false} InvAlways(s: State, actions: seq<Action>)
    requires Inv(s) && FaultFreeRun(s, actions)
    ensures Inv(Run(s, actions))
    decreases |actions|
  {
    if actions != [] {
      InvKept(s, actions[0]);
      InvAlways(Apply(s, actions[0]), actions[1..]);
    }
  }

  // ---------------------------------------------------------------- main results

  lemma SoundMeansOneHolder(s: State)
    requires Sound(s)
    ensures OneHolderEach(s)
  {
    forall p | p in s.pcs
      ensures ClaimOnDisk(s, p)
    {
    }
  }

  /** Any number of processes, items, crashes and failing reads, any interleaving: each lock has at
      most one live holder. */
  lemma OneHolderAlways(s: State, actions: seq<Action>)
    requires Init(s)
    ensures OneHolderEach(Run(s, actions))
  {
    SoundAlways(s, actions);
    SoundMeansOneHolder(Run(s, actions));
  }

  /** And the tiers exclude each other, as long as no read of a live process's lock file fails. */
  lemma MutualExclusion(s: State, actions: seq<Action>)
    requires Init(s) && FaultFreeRun(s, actions)
    ensures Exclusive(Run(s, actions))
  {
    InvAlways(s, actions);
    SoundMeansOneHolder(Run(s, actions));
  }

  /** A refused, backed-off or released process owns no file; a dead one's file stays claimable:
      after any run an idle process gets a lock exactly when no live process is between its claim and
      its release of that lock, no outside process is named by it, and it can be read. */
  lemma ClaimSucceedsIffFree(s: State, actions: seq<Action>, path: LockPath, me: Pid)
    requires Init(s) && At(Run(s, actions), me, Idle)
    ensures var t := Run(s, actions);
            && (forall q :: q in t.files ==> t.files[q] != Owner(me))
            && (Claim(t.files, Alive(t), path, me).0 == Acquired <==>
                && (forall p :: p in t.pcs ==> ClaimOf(t.pcs[p]) != Some(path))
                && !(path in t.files && t.files[path].Unreadable?)
                && !(path in t.files && t.files[path].Owner? && t.files[path].pid in t.others))
  {
    SoundAlways(s, actions);
    var t := Run(s, actions);
    forall p | p in t.pcs && ClaimOf(t.pcs[p]) == Some(path)
      ensures HeldLive(t.files, Alive(t), path)
    {
      assert p in Alive(t);
    }
  }

  // ---------------------------------------------------------------- when the tiers can still meet

  /** Some further run, no read of a live process's file failing in it, breaks the exclusion. */
  ghost predicate CanBreak(s: State) {
    exists actions :: FaultFreeRun(s, actions) && !Exclusive(Run(s, actions))
  }

  lemma CanBreakStep(s: State, a: Action)
    requires FaultFree(s, a) && CanBreak(Apply(s, a))
    ensures CanBreak(s)
  {
    var actions :| FaultFreeRun(Apply(s, a), actions) && !Exclusive(Run(Apply(s, a), actions));
    assert ([a] + actions)[1..] == actions;
    assert FaultFreeRun(s, [a] + actions) && Run(s, [a] + actions) == Run(Apply(s, a), actions);
  }

  lemma BothHold(s: State, g: Pid, r: Pid)
    requires g in s.pcs && r in s.pcs && s.pcs[g].GlobalHolding? && s.pcs[r].ItemHolding?
    ensures CanBreak(s)
  {
    assert !TiersApart(s);
    assert FaultFreeRun(s, []) && Run(s, []) == s;
  }

  /** The end of process `q`, whoever it is. */
  function Ends(s: State, q: Pid): Action {
    if q in s.pcs then Crash(q) else OtherExits(q)
  }

  lemma EndsKills(s: State, q: Pid)
    requires Sound(s)
    ensures var t := Apply(s, Ends(s, q));
            && q !in Alive(t) && t.files == s.files
            && t.pcs.Keys == s.pcs.Keys && forall p :: p in s.pcs && p != q ==> t.pcs[p] == s.pcs[p]
    ensures FaultFree(s, Ends(s, q)) && Sound(Apply(s, Ends(s, q)))
  {
    SoundKept(s, Ends(s, q));
  }

  /** Whoever a probe saw may die before it decides. */
  lemma SeenMayDie(s: State, seen: Option<Pid>) returns (t: State)
    requires Sound(s)
    ensures Sound(t) && !SeenAlive(t, seen) && t.files == s.files
    ensures t.pcs.Keys == s.pcs.Keys && forall p :: p in s.pcs && seen != Some(p) ==> t.pcs[p] == s.pcs[p]
    ensures CanBreak(t) ==> CanBreak(s)
  {
    t := s;
    if SeenAlive(s, seen) {
      EndsKills(s, seen.value);
      t := Apply(s, Ends(s, seen.value));
      if CanBreak(t) {
        CanBreakStep(s, Ends(s, seen.value));
      }
    }
  }

  /** A probe that did not see `r` ends with its item behind the scan. */
  lemma ProbeEnds(s: State, g: Pid, r: Pid) returns (t: State)
    requires Sound(s) && g in s.pcs && s.pcs[g].ProbingItem? && s.pcs[g].seen != Some(r)
    requires r in s.pcs && s.pcs[r].ItemHolding?
    ensures Sound(t) && At(t, g, Scanning(s.pcs[g].pending - {s.pcs[g].probed})) && At(t, r, s.pcs[r])
    ensures CanBreak(t) ==> CanBreak(s)
  {
    assert NotSelfSeen(g, s.pcs[g]);
    var s1 := SeenMayDie(s, s.pcs[g].seen);
    SoundKept(s1, DecideItem(g));
    t := Move(s1, g, Scanning(s.pcs[g].pending - {s.pcs[g].probed}));
    assert t == Apply(s1, DecideItem(g));
    if CanBreak(t) {
      CanBreakStep(s1, DecideItem(g));
    }
  }

  /** A resolve that did not see `g` goes on to hold. */
  lemma ResolveEnds(s: State, g: Pid, r: Pid) returns (t: State)
    requires Sound(s) && r in s.pcs && s.pcs[r].ProbingGlobal? && s.pcs[r].seen != Some(g)
    requires g in s.pcs && g != r
    ensures Sound(t) && At(t, r, ItemHolding(s.pcs[r].item)) && At(t, g, s.pcs[g])
    ensures CanBreak(t) ==> CanBreak(s)
  {
    assert NotSelfSeen(r, s.pcs[r]);
    var s1 := SeenMayDie(s, s.pcs[r].seen);
    SoundKept(s1, DecideGlobal(r));
    t := Move(s1, r, ItemHolding(s.pcs[r].item));
    assert t == Apply(s1, DecideGlobal(r));
    if CanBreak(t) {
      CanBreakStep(s1, DecideGlobal(r));
    }
  }

  /** The next probe of a scan, made at another item than the one `r` holds, does not see `r`. */
  lemma ReadAnother(s: State, g: Pid, r: Pid, x: string) returns (t: State)
    requires Sound(s) && g in s.pcs && s.pcs[g].Scanning? && r in s.pcs && s.pcs[r].ItemHolding?
    requires x != s.pcs[r].item
    ensures Sound(t) && At(t, r, s.pcs[r]) && g in t.pcs && t.pcs[g].ProbingItem?
    ensures t.pcs[g].pending == s.pcs[g].pending && t.pcs[g].probed == x && t.pcs[g].seen != Some(r)
    ensures CanBreak(t) ==> CanBreak(s)
  {
    if ItemLock(x) in s.files {
      assert NotLeaked(s, ItemLock(x));
    }
    SoundKept(s, ReadItem(g, x));
    t := Apply(s, ReadItem(g, x));
    if CanBreak(t) {
      CanBreakStep(s, ReadItem(g, x));
    }
  }

  /** A scan with `r`'s item behind it goes on to hold beside `r`. */
  lemma {:induction false} ScanGoesOn(s: State, g: Pid, r: Pid)
    requires Sound(s) && g in s.pcs && s.pcs[g].Scanning? && r in s.pcs && s.pcs[r].ItemHolding?
    requires s.pcs[r].item !in s.pcs[g].pending
    ensures CanBreak(s)
    decreases |s.pcs[g].pending|
  {
    var pending := s.pcs[g].pending;
    if pending == {} {
      BothHold(Apply(s, FinishScan(g)), g, r);
      CanBreakStep(s, FinishScan(g));
    } else {
      var x :| x in pending;
      var t := ReadAnother(s, g, r, x);
      var u := ProbeEnds(t, g, r);
      ScanGoesOn(u, g, r);
    }
  }

  lemma TooLateBreaks(s: State, g: Pid, r: Pid)
    requires Sound(s) && g in s.pcs && r in s.pcs && !Meets(g, s.pcs[g], r, s.pcs[r])
    ensures CanBreak(s)
  {
    var t := s;
    if s.pcs[r].ProbingGlobal? {
      t := ResolveEnds(s, g, r);
    }
    if t.pcs[g].GlobalHolding? {
      BothHold(t, g, r);
    } else {
      if t.pcs[g].ProbingItem? {
        var u := ProbeEnds(t, g, r);
        ScanGoesOn(u, g, r);
      } else {
        ScanGoesOn(t, g, r);
      }
    }
  }

  /** After any run, failing reads included: the exclusion can still be broken without a further
      failing read exactly when some global claimant can no longer meet a resolve that did not see
      it. */
  lemma BreakableIff(s: State)
    requires Sound(s)
    ensures CanBreak(s) <==> !ScanMeets(s)
  {
    if CanBreak(s) && ScanMeets(s) {
      var actions :| FaultFreeRun(s, actions) && !Exclusive(Run(s, actions));
      InvAlways(s, actions);
      SoundMeansOneHolder(Run(s, actions));
    }
    if !ScanMeets(s) {
      var g, r :| g in s.pcs && r in s.pcs && !Meets(g, s.pcs[g], r, s.pcs[r]);
      TooLateBreaks(s, g, r);
    }
  }

  /** The same of every state a run can reach. */
  lemma BreakableAfterRunIff(s: State, actions: seq<Action>)
    requires Init(s)
    ensures CanBreak(Run(s, actions)) <==> !ScanMeets(Run(s, actions))
  {
    SoundAlways(s, actions);
    BreakableIff(Run(s, actions));
  }

  /** The process named by a lock file. */
  predicate NamedBy(s: State, path: LockPath, p: Pid) {
    path in s.files && s.files[path] == Owner(p) && p in s.pcs
  }

  /** One failing read of `pipeline.lock` by a resolve makes the exclusion breakable exactly when the
      process named in it already holds, or has the resolve's item behind its scan without having seen
      the resolve. */
  lemma ReadFaultBreaksIff(s: State, r: Pid, x: string)
    requires Inv(s) && r in s.pcs && s.pcs[r].ItemClaimed?
    ensures CanBreak(Apply(s, ReadFault(r, x))) <==>
            exists g :: NamedBy(s, PipelineLock, g) && TooLate(s.pcs[g], r, s.pcs[r].item)
  {
    var item := s.pcs[r].item;
    var t := Apply(s, ReadFault(r, x));
    SoundKept(s, ReadFault(r, x));
    BreakableIff(t);
    if g :| NamedBy(s, PipelineLock, g) && TooLate(s.pcs[g], r, item) {
      assert !Meets(g, t.pcs[g], r, t.pcs[r]);
    }
    if !ScanMeets(t) {
      var g, q :| g in t.pcs && q in t.pcs && !Meets(g, t.pcs[g], q, t.pcs[q]);
      assert g != r && t.pcs[g] == s.pcs[g];
      assert q == r;
      assert ClaimOnDisk(s, g);
      assert NamedBy(s, PipelineLock, g) && TooLate(s.pcs[g], r, item);
    }
  }

  /** One failing read of an item lock by a scan makes the exclusion breakable exactly when the process
      named in it got past reading `pipeline.lock` without seeing the scanning process. */
  lemma ScanFaultBreaksIff(s: State, g: Pid, x: string)
    requires Inv(s) && g in s.pcs && s.pcs[g].Scanning?
    ensures CanBreak(Apply(s, ReadFault(g, x))) <==>
            exists r :: NamedBy(s, ItemLock(x), r) && PassedUnseen(s.pcs[r], g)
  {
    var t := Apply(s, ReadFault(g, x));
    SoundKept(s, ReadFault(g, x));
    BreakableIff(t);
    if r :| NamedBy(s, ItemLock(x), r) && PassedUnseen(s.pcs[r], g) {
      assert NotLeaked(s, ItemLock(x));
      assert t.pcs[r] == s.pcs[r];
      assert !Meets(g, t.pcs[g], r, t.pcs[r]);
    }
    if !ScanMeets(t) {
      var h, r :| h in t.pcs && r in t.pcs && !Meets(h, t.pcs[h], r, t.pcs[r]);
      assert r != g && t.pcs[r] == s.pcs[r];
      assert Meets(h, s.pcs[h], r, s.pcs[r]);
      assert h == g && s.pcs[r].item == x;
      assert ClaimOnDisk(s, r);
      assert NamedBy(s, ItemLock(x), r) && PassedUnseen(s.pcs[r], g);
    }
  }

  /** `t` is the end of some fault-free run from `s`. */
  ghost predicate Reaches(s: State, t: State) {
    exists actions :: FaultFreeRun(s, actions) && Run(s, actions) == t
  }

  lemma {:induction false} RunSnoc(s: State, actions: seq<Action>, a: Action)
    ensures Run(s, actions + [a]) == Apply(Run(s, actions), a)
    ensures FaultFreeRun(s, actions + [a]) <==> FaultFreeRun(s, actions) && FaultFree(Run(s, actions), a)
    decreases |actions|
  {
    if actions == [] {
      assert [a][1..] == [] && [] + [a] == [a];
      assert Run(s, [a]) == Run(Apply(s, a), []);
    } else {
      assert (actions + [a])[1..] == actions[1..] + [a];
      RunSnoc(Apply(s, actions[0]), actions[1..], a);
    }
  }

  lemma ReachStep(s: State, t: State, a: Action, u: State)
    requires Reaches(s, t) && FaultFree(t, a) && Apply(t, a) == u
    ensures Reaches(s, u)
  {
    var actions :| FaultFreeRun(s, actions) && Run(s, actions) == t;
    RunSnoc(s, actions, a);
  }

  /** `p` registers and keeps item `x` when nobody else is at either lock. */
  lemma ResolveAlone(s: State, t: State, p: Pid, x: string)
    requires Reaches(s, t) && At(t, p, Idle) && PipelineLock !in t.files && ItemLock(x) !in t.files
    ensures Reaches(s, State(t.files[ItemLock(x) := Owner(p)], t.pcs[p := ItemHolding(x)], t.others))
  {
    var f := t.files[ItemLock(x) := Owner(p)];
    var t1 := State(f, t.pcs[p := ItemClaimed(x)], t.others);
    var t2 := State(f, t.pcs[p := ProbingGlobal(x, None)], t.others);
    ReachStep(s, t, ClaimItem(p, x), t1);
    assert Move(t1, p, ProbingGlobal(x, None)) == t2;
    ReachStep(s, t1, ReadGlobal(p), t2);
    assert Move(t2, p, ItemHolding(x)) == State(f, t.pcs[p := ItemHolding(x)], t.others);
    ReachStep(s, t2, DecideGlobal(p), State(f, t.pcs[p := ItemHolding(x)], t.others));
  }

  /** Resolves of distinct items hold together. */
  lemma DistinctItemsInParallel(s: State, p: Pid, q: Pid, x: string, y: string)
    requires Init(s) && s.files == map[] && p != q && x != y && p !in s.others && q !in s.others
    ensures exists t :: Reaches(s, t) && At(t, p, ItemHolding(x)) && At(t, q, ItemHolding(y))
  {
    assert Run(s, []) == s && FaultFreeRun(s, []);
    var t1 := Move(s, p, Idle);
    var t2 := Move(t1, q, Idle);
    ReachStep(s, s, Spawn(p), t1);
    ReachStep(s, t1, Spawn(q), t2);
    ResolveAlone(s, t2, p, x);
    var t3 := State(t2.files[ItemLock(x) := Owner(p)], t2.pcs[p := ItemHolding(x)], t2.others);
    ResolveAlone(s, t3, q, y);
  }

  /** `r` meets a live claim of `g` on `pipeline.lock` and backs off. */
  lemma ResolveMeetsClaim(s: State, t: State, g: Pid, r: Pid, x: string)
    requires Reaches(s, t) && At(t, g, GlobalClaimed) && At(t, r, Idle) && ReadPid(t.files, PipelineLock) == Some(g)
    requires ItemLock(x) !in t.files
    ensures Reaches(s, State(t.files[ItemLock(x) := Owner(r)], t.pcs[r := ItemBackingOff(x)], t.others))
  {
    var f := t.files[ItemLock(x) := Owner(r)];
    var t1 := State(f, t.pcs[r := ItemClaimed(x)], t.others);
    var t2 := State(f, t.pcs[r := ProbingGlobal(x, Some(g))], t.others);
    ReachStep(s, t, ClaimItem(r, x), t1);
    assert Move(t1, r, ProbingGlobal(x, Some(g))) == t2;
    ReachStep(s, t1, ReadGlobal(r), t2);
    assert t2.pcs[g] == GlobalClaimed && g in Alive(t2);
    assert Move(t2, r, ItemBackingOff(x)) == State(f, t.pcs[r := ItemBackingOff(x)], t.others);
    ReachStep(s, t2, DecideGlobal(r), State(f, t.pcs[r := ItemBackingOff(x)], t.others));
  }

  /** `g` lists the items, meets the live claim of `r` on `x` and backs off. */
  lemma GlobalMeetsClaim(s: State, t: State, g: Pid, r: Pid, x: string)
    requires Reaches(s, t) && At(t, g, GlobalClaimed) && ReadPid(t.files, ItemLock(x)) == Some(r)
    requires g != r && r in t.pcs && t.pcs[r] != Dead
    ensures Reaches(s, State(t.files, t.pcs[g := GlobalBackingOff], t.others))
  {
    var t1 := Apply(t, ListItems(g));
    ReachStep(s, t, ListItems(g), t1);
    var pc := ProbingItem(t1.pcs[g].pending, x, Some(r));
    var t2 := State(t.files, t.pcs[g := pc], t.others);
    assert Move(t1, g, pc) == t2;
    ReachStep(s, t1, ReadItem(g, x), t2);
    assert t2.pcs[r] == t.pcs[r] && r in Alive(t2);
    assert Move(t2, g, GlobalBackingOff) == State(t.files, t.pcs[g := GlobalBackingOff], t.others);
    ReachStep(s, t2, DecideItem(g), State(t.files, t.pcs[g := GlobalBackingOff], t.others));
  }

  /** Racing claims: both sides can see each other and both back off. */
  lemma BothMayBackOff(s: State, g: Pid, r: Pid, x: string)
    requires Init(s) && s.files == map[] && g != r && g !in s.others && r !in s.others
    ensures exists t :: Reaches(s, t) && At(t, g, GlobalBackingOff) && At(t, r, ItemBackingOff(x))
  {
    assert Run(s, []) == s && FaultFreeRun(s, []);
    var t1 := Move(s, g, Idle);
    var t2 := Move(t1, r, Idle);
    ReachStep(s, s, Spawn(g), t1);
    ReachStep(s, t1, Spawn(r), t2);
    var t3 := State(t2.files[PipelineLock := Owner(g)], t2.pcs[g := GlobalClaimed], t2.others);
    ReachStep(s, t2, ClaimGlobal(g), t3);
    ResolveMeetsClaim(s, t3, g, r, x);
    var t4 := State(t3.files[ItemLock(x) := Owner(r)], t3.pcs[r := ItemBackingOff(x)], t3.others);
    GlobalMeetsClaim(s, t4, g, r, x);
  }

  /** `g` claims, finds no item lock and holds. */
  lemma GlobalAlone(s: State, t: State, g: Pid)
    requires Reaches(s, t) && At(t, g, Idle) && t.files == map[]
    ensures Reaches(s, State(map[PipelineLock := Owner(g)], t.pcs[g := GlobalHolding], t.others))
  {
    var f := map[PipelineLock := Owner(g)];
    var t1 := State(f, t.pcs[g := GlobalClaimed], t.others);
    var t2 := State(f, t.pcs[g := Scanning({})], t.others);
    ReachStep(s, t, ClaimGlobal(g), t1);
    assert ListedItems(t1.files) == {};
    assert Move(t1, g, Scanning({})) == t2;
    ReachStep(s, t1, ListItems(g), t2);
    assert Move(t2, g, GlobalHolding) == State(f, t.pcs[g := GlobalHolding], t.others);
    ReachStep(s, t2, FinishScan(g), State(f, t.pcs[g := GlobalHolding], t.others));
  }

  /** The shortest case of `ReadFaultBreaksIff`: while `g` holds, one failing read of its file counts as
      "not held", and the resolve that read it holds beside `g` two steps after its claim. */
  lemma OneReadFaultBreaksExclusion(s: State, g: Pid, r: Pid, x: string)
    requires Sound(s) && At(s, g, GlobalHolding) && At(s, r, Idle) && ItemLock(x) !in s.files
    ensures var s1 := Apply(s, ClaimItem(r, x));
            && !FaultFree(s1, ReadFault(r, x))
            && NamedBy(s1, PipelineLock, g) && TooLate(s1.pcs[g], r, x)
            && !Exclusive(Apply(Apply(s1, ReadFault(r, x)), DecideGlobal(r)))
  {
    var s1 := Apply(s, ClaimItem(r, x));
    assert s1 == State(s.files[ItemLock(x) := Owner(r)], s.pcs[r := ItemClaimed(x)], s.others);
    assert ClaimOnDisk(s, g) && s1.pcs[g] == GlobalHolding && g in Alive(s1);
    var s3 := Apply(Apply(s1, ReadFault(r, x)), DecideGlobal(r));
    assert s3.pcs[g].GlobalHolding? && s3.pcs[r].ItemHolding?;
  }

  /** The shortest case of `ScanFaultBreaksIff`: while `r` holds item `x`, a scan whose last read, of its
      file, fails ends with `g` holding beside `r`. */
  lemma OneScanFaultBreaksExclusion(s: State, g: Pid, r: Pid, x: string)
    requires Sound(s) && At(s, r, ItemHolding(x)) && At(s, g, Scanning({x}))
    ensures var s1 := Apply(Apply(s, ReadFault(g, x)), DecideItem(g));
            && !FaultFree(s, ReadFault(g, x))
            && NamedBy(s, ItemLock(x), r) && PassedUnseen(s.pcs[r], g)
            && !Exclusive(Apply(s1, FinishScan(g)))
  {
    assert ClaimOnDisk(s, r) && r in Alive(s);
    var s1 := Apply(s, ReadFault(g, x));
    assert s1 == Move(s, g, ProbingItem({x}, x, None));
    var s2 := Apply(s1, DecideItem(g));
    assert {x} - {x} == {};
    assert s2 == Move(s1, g, Scanning({}));
    var s3 := Apply(s2, FinishScan(g));
    assert s3.pcs[g].GlobalHolding? && s3.pcs[r].ItemHolding?;
  }

  /** Some fault-free run from `s` ends where the one failing read `fault` is enabled, and where that
      read and `rest` break the exclusion. */
  ghost predicate BreaksAfter(s: State, fault: Action, rest: seq<Action>) {
    exists t :: Reaches(s, t) && !FaultFree(t, fault) && !Exclusive(Run(t, [fault] + rest))
  }

  /** Both happen: on a fresh host, a single failing read on either side lets both tiers hold. */
  lemma OneFaultIsEnough(s: State, g: Pid, r: Pid, x: string)
    requires Init(s) && s.files == map[] && g != r && g !in s.others && r !in s.others
    ensures BreaksAfter(s, ReadFault(r, x), [DecideGlobal(r)])
    ensures BreaksAfter(s, ReadFault(g, x), [DecideItem(g), FinishScan(g)])
  {
    assert Run(s, []) == s && FaultFreeRun(s, []);
    var t1 := Move(s, g, Idle);
    var t2 := Move(t1, r, Idle);
    ReachStep(s, s, Spawn(g), t1);
    ReachStep(s, t1, Spawn(r), t2);
    GlobalFaultReached(s, t2, g, r, x);
    ScanFaultReached(s, t2, g, r, x);
  }

  lemma ReachedInv(s: State, t: State)
    requires Init(s) && Reaches(s, t)
    ensures Inv(t)
  {
    var actions :| FaultFreeRun(s, actions) && Run(s, actions) == t;
    InvAlways(s, actions);
  }

  lemma GlobalFaultReached(s: State, t: State, g: Pid, r: Pid, x: string)
    requires Init(s) && Reaches(s, t) && t.files == map[] && g != r && At(t, g, Idle) && At(t, r, Idle)
    ensures BreaksAfter(s, ReadFault(r, x), [DecideGlobal(r)])
  {
    GlobalAlone(s, t, g);
    var t1 := State(map[PipelineLock := Owner(g)], t.pcs[g := GlobalHolding], t.others);
    ReachedInv(s, t1);
    OneReadFaultBreaksExclusion(t1, g, r, x);
    var t2 := Apply(t1, ClaimItem(r, x));
    ReachStep(s, t1, ClaimItem(r, x), t2);
    RunOfTwo(t2, ReadFault(r, x), DecideGlobal(r));
  }

  lemma ScanFaultReached(s: State, t: State, g: Pid, r: Pid, x: string)
    requires Init(s) && Reaches(s, t) && t.files == map[] && g != r && At(t, g, Idle) && At(t, r, Idle)
    ensures BreaksAfter(s, ReadFault(g, x), [DecideItem(g), FinishScan(g)])
  {
    ResolveAlone(s, t, r, x);
    var f := map[ItemLock(x) := Owner(r)];
    var t1 := State(f, t.pcs[r := ItemHolding(x)], t.others);
    var t2 := State(f[PipelineLock := Owner(g)], t1.pcs[g := GlobalClaimed], t.others);
    ReachStep(s, t1, ClaimGlobal(g), t2);
    var t3 := Move(t2, g, Scanning({x}));
    assert ListedItems(t2.files) == {x};
    ReachStep(s, t2, ListItems(g), t3);
    ReachedInv(s, t3);
    OneScanFaultBreaksExclusion(t3, g, r, x);
    RunOfThree(t3, ReadFault(g, x), DecideItem(g), FinishScan(g));
  }

  lemma RunOfTwo(s: State, a: Action, b: Action)
    ensures Run(s, [a] + [b]) == Apply(Apply(s, a), b)
  {
    assert ([a] + [b])[1..] == [b] && [b][1..] == [];
    assert Run(Apply(s, a), [b]) == Apply(Apply(s, a), b);
  }

  lemma RunOfThree(s: State, a: Action, b: Action, c: Action)
    ensures Run(s, [a] + [b, c]) == Apply(Apply(Apply(s, a), b), c)
  {
    assert ([a] + [b, c])[1..] == [b] + [c];
    RunOfTwo(Apply(s, a), b, c);
  }

  // ---------------------------------------------------------------- releasing, and a scan that ends

  /** Backing off and releasing give the lock back: the file is gone, the process idle, nobody else
      touched, and the next process alive and idle gets the lock. */
  lemma ReleaseFrees(s: State, p: Pid, path: LockPath, q: Pid)
    requires Sound(s) && p in s.pcs
    requires || ((s.pcs[p].GlobalHolding? || s.pcs[p].GlobalBackingOff?) && path == PipelineLock)
             || ((s.pcs[p].ItemHolding? || s.pcs[p].ItemBackingOff?) && path == ItemLock(s.pcs[p].item))
    ensures var t := Apply(s, Unlink(p));
            && At(t, p, Idle) && t.files == s.files - {path} && t.others == s.others
            && (forall r :: r in s.pcs && r != p ==> r in t.pcs && t.pcs[r] == s.pcs[r])
            && Claim(t.files, Alive(t), path, q) == (Acquired, t.files[path := Owner(q)])
  {
  }

  /** Process `g` alone comes to hold from `s`. */
  ghost predicate HoldsAlone(s: State, g: Pid) {
    exists actions: seq<Action> ::
      (forall a :: a in actions ==> a.p == g && !a.ReadFault?) && At(Run(s, actions), g, GlobalHolding)
  }

  lemma HoldsAloneStep(s: State, g: Pid, a: Action)
    requires a.p == g && !a.ReadFault? && HoldsAlone(Apply(s, a), g)
    ensures HoldsAlone(s, g)
  {
    var actions: seq<Action> :| (forall b :: b in actions ==> b.p == g && !b.ReadFault?)
                   && At(Run(Apply(s, a), actions), g, GlobalHolding);
    assert ([a] + actions)[1..] == actions;
    assert Run(s, [a] + actions) == Run(Apply(s, a), actions);
  }

  lemma ItemPassed(s: State, g: Pid, x: string)
    requires g in s.pcs && s.pcs[g].Scanning? && !HeldLive(s.files, Alive(s), ItemLock(x))
    requires HoldsAlone(Move(s, g, Scanning(s.pcs[g].pending - {x})), g)
    ensures HoldsAlone(s, g)
  {
    var t := Move(s, g, Scanning(s.pcs[g].pending - {x}));
    if ItemLock(x) !in s.files {
      assert Apply(s, SkipVanished(g, x)) == t;
      HoldsAloneStep(s, g, SkipVanished(g, x));
    } else {
      var u := Move(s, g, ProbingItem(s.pcs[g].pending, x, ReadPid(s.files, ItemLock(x))));
      assert Apply(s, ReadItem(g, x)) == u && Alive(u) == Alive(s);
      assert Apply(u, DecideItem(g)) == t;
      HoldsAloneStep(u, g, DecideItem(g));
      HoldsAloneStep(s, g, ReadItem(g, x));
    }
  }

  /** A scan that meets no live item ends in holding by its own steps: it reads the files still there and
      passes over those that vanished. */
  lemma {:induction false} FreeScanHolds(s: State, g: Pid)
    requires g in s.pcs && s.pcs[g].Scanning?
    requires forall x :: x in s.pcs[g].pending ==> !HeldLive(s.files, Alive(s), ItemLock(x))
    ensures HoldsAlone(s, g)
    decreases |s.pcs[g].pending|
  {
    var pending := s.pcs[g].pending;
    if pending == {} {
      var t := Apply(s, FinishScan(g));
      assert Run(t, []) == t && HoldsAlone(t, g);
      HoldsAloneStep(s, g, FinishScan(g));
    } else {
      var x :| x in pending;
      var t := Move(s, g, Scanning(pending - {x}));
      assert Alive(t) == Alive(s);
      FreeScanHolds(t, g);
      ItemPassed(s, g, x);
    }
  }

  /** A scan that meets one backs off. */
  lemma LiveItemStopsScan(s: State, g: Pid, x: string)
    requires g in s.pcs && s.pcs[g].Scanning? && HeldLive(s.files, Alive(s), ItemLock(x))
    ensures At(Apply(Apply(s, ReadItem(g, x)), DecideItem(g)), g, GlobalBackingOff)
  {
    var u := Apply(s, ReadItem(g, x));
    assert Alive(u) == Alive(s);
  }
}
