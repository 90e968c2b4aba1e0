/**
 * The single-worker lock files: the queue runner's, which its owner may acquire
 * again (p97_run_volume_queue.py), and the discovery worker's, which it may not
 * (p97_discover_comicvine_universe.py).
 */
module RunnerLock {
  /** The lock file: absent, naming a process id, or not readable as a number. */
  datatype Content = Absent | Names(pid: int) | Unreadable

  datatype Variant = Runner | Discovery

  predicate PidAlive(live: set<int>, pid: int) {
    pid > 0 && pid in live
  }

  /** Whether the lock would be refused to the caller. */
  predicate Refused(variant: Variant, file: Content, me: int, live: set<int>) {
    match variant
    case Runner => file.Names? && file.pid != me && PidAlive(live, file.pid)
    case Discovery => file.Names? && file.pid != 0 && PidAlive(live, file.pid)
  }

  /** Whether a release by the caller removes the file. */
  predicate Removes(variant: Variant, file: Content, me: int) {
    match variant
    case Runner => !file.Names? || file.pid == me
    case Discovery => file.Names? && file.pid == me
  }

  class LockFile {
    var content: Content

    constructor (content: Content)
      ensures this.content == content
    {
      this.content := content;
    }

    /** `acquire_runner_lock` */
    method AcquireRunner(me: int, live: set<int>) returns (ok: bool)
      modifies this
      ensures ok == !Refused(Runner, old(content), me, live)
      ensures ok <==> forall pid :: old(content) == Names(pid) ==> pid == me || pid <= 0 || pid !in live
      ensures content == if ok then Names(me) else old(content)
    {
      // `read_lock_pid`: None for an absent or unreadable file.
      if content.Names? && content.pid != me && PidAlive(live, content.pid) {
        return false;
      }
      content := Names(me);
      return true;
    }

    /** `acquire_lock` */
    method AcquireDiscovery(me: int, live: set<int>) returns (ok: bool)
      modifies this
      ensures ok == !Refused(Discovery, old(content), me, live)
      ensures ok <==> forall pid :: old(content) == Names(pid) ==> pid <= 0 || pid !in live
      ensures content == if ok then Names(me) else old(content)
    {
      if !content.Absent? {
        var existing := if content.Names? then content.pid else 0;
        if existing != 0 && PidAlive(live, existing) {
          return false;
        }
      }
      content := Names(me);
      return true;
    }

    /** `release_runner_lock` */
    method ReleaseRunner(me: int)
      modifies this
      ensures content == if Removes(Runner, old(content), me) then Absent else old(content)
      ensures forall pid :: old(content) == Names(pid) ==> content == if pid == me then Absent else old(content)
      ensures old(content) == Absent || old(content) == Unreadable ==> content == Absent
    {
      if !content.Names? || content.pid == me {
        content := Absent;
      }
    }

    /** `release_lock` */
    method ReleaseDiscovery(me: int)
      modifies this
      ensures content == if Removes(Discovery, old(content), me) then Absent else old(content)
      ensures forall pid :: old(content) == Names(pid) ==> content == if pid == me then Absent else old(content)
      ensures old(content) == Absent || old(content) == Unreadable ==> content == old(content)
    {
      if content.Names? && content.pid == me {
        content := Absent;
      }
    }
  }

  // ----- Runs -----

  /**
   * The machine: running processes with their process ids, the lock file, and the
   * processes whose last acquire succeeded and that have not released since.
   * Processes are told apart by a number of their own: a pid may be used again.
   */
  datatype World = World(running: map<nat, int>, file: Content, holders: set<nat>)

  datatype Action =
    | Spawn(process: nat, pid: int)
    | Die(process: nat)
    | Acquire(process: nat)
    | Release(process: nat)

  predicate Enabled(w: World, a: Action) {
    match a
    case Spawn(p, pid) => p !in w.running && pid > 0 && pid !in w.running.Values
    case Die(p) => p in w.running
    case Acquire(p) => p in w.running
    case Release(p) => p in w.running
  }

  /** Acquire and release are one step each; any running process may release, a dead one does not. */
  function Next(variant: Variant, w: World, a: Action): World
    requires Enabled(w, a)
  {
    match a
    case Spawn(p, pid) => w.(running := w.running[p := pid])
    case Die(p) => w.(running := w.running - {p}, holders := w.holders - {p})
    case Acquire(p) =>
      if Refused(variant, w.file, w.running[p], w.running.Values) then w
      else w.(file := Names(w.running[p]), holders := w.holders + {p})
    case Release(p) =>
      w.(file := if Removes(variant, w.file, w.running[p]) then Absent else w.file, holders := w.holders - {p})
  }

  predicate Possible(variant: Variant, w: World, run: seq<Action>)
    decreases |run|
  {
    run == [] || (Enabled(w, run[0]) && Possible(variant, Next(variant, w, run[0]), run[1..]))
  }

  function After(variant: Variant, w: World, run: seq<Action>): World
    requires Possible(variant, w, run)
    decreases |run|
  {
    if run == [] then w else After(variant, Next(variant, w, run[0]), run[1..])
  }

  ghost predicate DistinctPids(w: World) {
    && (forall p :: p in w.running ==> w.running[p] > 0)
    && (forall p, q :: p in w.running && q in w.running && w.running[p] == w.running[q] ==> p == q)
  }

  /** At most one holder, it runs, and the file names it. */
  ghost predicate Exclusive(w: World) {
    && (forall p :: p in w.holders ==> p in w.running && w.file == Names(w.running[p]))
    && (forall p, q :: p in w.holders && q in w.holders ==> p == q)
  }

  lemma NextKeepsExclusion(variant: Variant, w: World, a: Action)
    requires DistinctPids(w) && Exclusive(w) && Enabled(w, a)
    ensures DistinctPids(Next(variant, w, a)) && Exclusive(Next(variant, w, a))
  {
    match a
    case Acquire(p) =>
      forall q | q in w.holders && q != p
        ensures Refused(variant, w.file, w.running[p], w.running.Values)
      {
        assert w.running[q] in w.running.Values;
      }
    case _ =>
  }

  /**
   * From any lock file -- left by a dead process, unreadable, or naming a pid now
   * used by someone else -- and whatever processes start, die, acquire and release,
   * at most one process holds the lock at the end, it runs, and the file names it.
   */
  lemma {:induction false} MutualExclusion(variant: Variant, w: World, run: seq<Action>)
    requires DistinctPids(w) && Exclusive(w) && Possible(variant, w, run)
    ensures Exclusive(After(variant, w, run)) && DistinctPids(After(variant, w, run))
    decreases |run|
  {
    if run != [] {
      NextKeepsExclusion(variant, w, run[0]);
      MutualExclusion(variant, Next(variant, w, run[0]), run[1..]);
    }
  }

  /** Who is kept out, exactly: only someone facing a running process's pid. */
  lemma RefusedMeaning(variant: Variant, w: World, p: nat)
    requires DistinctPids(w) && p in w.running
    ensures Refused(variant, w.file, w.running[p], w.running.Values)
            <==> exists q :: q in w.running && w.file == Names(w.running[q]) && (q != p || variant == Discovery)
  {
    if Refused(variant, w.file, w.running[p], w.running.Values) {
      var q :| q in w.running && w.running[q] == w.file.pid;
      assert q in w.running && w.file == Names(w.running[q]);
    }
    if q :| q in w.running && w.file == Names(w.running[q]) && (q != p || variant == Discovery) {
      assert w.running[q] in w.running.Values;
    }
  }

  /**
   * The two variants treat a caller alike except when the file already names the
   * caller's own pid: then the runner takes the lock and the discovery worker is
   * turned away, even if the file is a leftover of an earlier process with that pid.
   */
  lemma VariantsDifferOnOwnPid(w: World, p: nat)
    requires DistinctPids(w) && p in w.running
    ensures Refused(Runner, w.file, w.running[p], w.running.Values)
              != Refused(Discovery, w.file, w.running[p], w.running.Values)
            <==> w.file == Names(w.running[p])
  {
    assert w.running[p] in w.running.Values;
  }

  /** A holder that acquires and then releases leaves no file, and anyone may acquire next. */
  lemma ReleaseFreesTheLock(variant: Variant, w: World, p: nat, q: nat)
    requires DistinctPids(w) && Exclusive(w) && p in w.holders && q in w.running
    ensures var w' := Next(variant, w, Release(p));
            && w'.file == Absent && w'.holders == {}
            && !Refused(variant, w'.file, w'.running[q], w'.running.Values)
  {
    forall x | x in w.holders
      ensures x == p
    {
    }
    assert w.holders == {p};
  }

  /** A process that does not hold the lock cannot take it from the one that does. */
  lemma StrangersReleaseNothing(variant: Variant, w: World, p: nat, q: nat)
    requires DistinctPids(w) && Exclusive(w) && q in w.holders && p in w.running && p != q
    ensures Next(variant, w, Release(p)) == w
  {
    assert w.holders - {p} == w.holders;
  }

  // ----- The check and the write as two steps -----

  /** The write that follows a successful check, whatever happened in between. */
  function WriteOnly(w: World, p: nat): World
    requires p in w.running
  {
    w.(file := Names(w.running[p]), holders := w.holders + {p})
  }

  /** The check and the write, taken together, are the atomic acquire. */
  lemma CheckThenWriteIsAcquire(variant: Variant, w: World, p: nat)
    requires p in w.running && !Refused(variant, w.file, w.running[p], w.running.Values)
    ensures WriteOnly(w, p) == Next(variant, w, Acquire(p))
  {
  }

  /**
   * Two processes that both check before either writes both hold the lock: the
   * exclusion above rests on nothing happening between check and write.
   */
  lemma SplitAcquireIsNotExclusive(variant: Variant)
    ensures var w := World(map[0 := 10, 1 := 11], Absent, {});
            && DistinctPids(w) && Exclusive(w)
            && !Refused(variant, w.file, 10, w.running.Values)
            && !Refused(variant, w.file, 11, w.running.Values)
            && !Exclusive(WriteOnly(WriteOnly(w, 0), 1))
  {
    var w := WriteOnly(WriteOnly(World(map[0 := 10, 1 := 11], Absent, {}), 0), 1);
    assert 0 in w.holders && 1 in w.holders;
  }

  /**
   * Writing after a check is safe exactly as long as nobody else has come to hold
   * the lock in the meantime.
   */
  lemma LateWriteIsSafeIff(w: World, p: nat)
    requires DistinctPids(w) && Exclusive(w) && p in w.running
    ensures Exclusive(WriteOnly(w, p)) <==> forall q :: q in w.holders ==> q == p
  {
    var w' := WriteOnly(w, p);
    if Exclusive(w') {
      forall q | q in w.holders
        ensures q == p
      {
        assert q in w'.holders && p in w'.holders;
      }
    }
  }

  /** Writing now leaves the lock exclusive, whoever -- as far as one can tell from outside -- holds it. */
  ghost predicate SafeToWrite(running: map<nat, int>, file: Content, p: nat)
    requires p in running
  {
    forall holders :: Exclusive(World(running, file, holders)) ==> Exclusive(WriteOnly(World(running, file, holders), p))
  }

  /**
   * In terms of what the process itself can see, the file and the running pids: a
   * late write is safe exactly when the runner's check, made again at that moment,
   * would let it pass.
   */
  lemma LateWriteIsSafeIffRechecked(running: map<nat, int>, file: Content, p: nat)
    requires DistinctPids(World(running, file, {})) && p in running
    ensures SafeToWrite(running, file, p) <==> !Refused(Runner, file, running[p], running.Values)
  {
    if Refused(Runner, file, running[p], running.Values) {
      var q :| q in running && running[q] == file.pid;
      var w := World(running, file, {q});
      assert q in WriteOnly(w, p).holders && p in WriteOnly(w, p).holders;
      assert Exclusive(w) && !Exclusive(WriteOnly(w, p));
    } else {
      forall holders | Exclusive(World(running, file, holders))
        ensures Exclusive(WriteOnly(World(running, file, holders), p))
      {
        var w := World(running, file, holders);
        forall q | q in holders
          ensures q == p
        {
          assert running[q] in running.Values;
        }
        LateWriteIsSafeIff(w, p);
      }
    }
  }
}
