/*
 * The filesystem-event debouncer of mist_watchdog.py.
 *
 * The polling emitter keeps a countdown map dest -> src -> counter. Each poll
 * arms counters for the files the directory diff reports, then decrements
 * every counter once and removes the ones that reach zero, emitting the
 * delayed events for them. The event handler drops events under the chunk
 * folder and for the index file, and routes the rest to the catalog.
 *
 * The directory snapshot and its diff come from the watchdog library; here
 * the diff is a parameter. The iteration order of Python's dictionaries is
 * not specified: the countdown visits the entries in an order it chooses and
 * reports that order as a ghost out-parameter.
 */
module MistWatchdog {
  import opened Common
  import Mist

  /** Polls a file waits for before its delayed events are emitted. */
  const MODIFYING_DELAY_COUNT: int := 5

  /** A path, or None for "no such side" (a deletion has no destination). */
  type Path = Option<string>

  /** Countdown map: destination path -> source path -> remaining polls. */
  type Counters = map<Path, map<Path, int>>

  datatype Event =
    | FileDeleted(src: string)
    | FileModified(src: string)
    | FileCreated(src: string)
    | FileMoved(src: string, dest: string)
    | DirDeleted(src: string)
    | DirModified(src: string)
    | DirCreated(src: string)
    | DirMoved(src: string, dest: string)

  /** What the directory snapshot diff reports for one poll. */
  datatype SnapshotDiff = SnapshotDiff(
    filesDeleted: seq<string>, filesModified: seq<string>, filesCreated: seq<string>,
    filesMoved: seq<(string, string)>,
    dirsDeleted: seq<string>, dirsModified: seq<string>, dirsCreated: seq<string>,
    dirsMoved: seq<(string, string)>)

  /** The three kinds of file change that arm a single counter. */
  datatype Change = Deleted | Modified | Created

  // ---------------------------------------------------------------------------
  // Specification of the countdown map
  // ---------------------------------------------------------------------------

  /** The counters under `d`; a missing key reads as empty (a defaultdict). */
  function Inner(m: Counters, d: Path): (r: map<Path, int>)
    ensures d in m ==> r == m[d]
    ensures d !in m ==> r == map[]
  {
    if d in m then m[d] else map[]
  }

  /** The counter a change of `p` arms: [None][p], [p][p] or [p][None]. */
  function KeyOf(kind: Change, p: string): (k: (Path, Path))
    ensures kind == Deleted ==> k == (None, Some(p))
    ensures kind == Modified ==> k == (Some(p), Some(p))
    ensures kind == Created ==> k == (Some(p), None)
  {
    match kind
    case Deleted => (None, Some(p))
    case Modified => (Some(p), Some(p))
    case Created => (Some(p), None)
  }

  /** Sets counter [d][s] to the full delay. */
  function Arm(m: Counters, d: Path, s: Path): (r: Counters)
    ensures r.Keys == m.Keys + {d}
    ensures s in r[d] && r[d][s] == MODIFYING_DELAY_COUNT
    ensures forall d', s' :: d' in m && s' in m[d'] && (d' != d || s' != s) ==>
      s' in r[d'] && r[d'][s'] == m[d'][s']
    ensures forall d', s' :: d' in r && s' in r[d'] && (d' != d || s' != s) ==>
      d' in m && s' in m[d']
  {
    m[d := Inner(m, d)[s := MODIFYING_DELAY_COUNT]]
  }

  /** Arms the counter of every path in `paths`, in order. */
  function ArmPaths(m: Counters, paths: seq<string>, kind: Change): Counters
    decreases |paths|
  {
    if paths == [] then m
    else
      var k := KeyOf(kind, paths[|paths| - 1]);
      Arm(ArmPaths(m, paths[..|paths| - 1], kind), k.0, k.1)
  }

  /** The event a change announces immediately: none for a modification. */
  function Announce(kind: Change, p: string): (r: seq<Event>)
    ensures kind == Modified <==> r == []
  {
    match kind
    case Deleted => [FileDeleted(p)]
    case Modified => []
    case Created => [FileCreated(p)]
  }

  function Announced(paths: seq<string>, kind: Change): seq<Event>
    decreases |paths|
  {
    if paths == [] then []
    else Announced(paths[..|paths| - 1], kind) + Announce(kind, paths[|paths| - 1])
  }

  /** Every counter of `inner` set to the full delay. */
  function Reset(inner: map<Path, int>): (r: map<Path, int>)
    ensures r.Keys == inner.Keys
    ensures forall s :: s in r ==> r[s] == MODIFYING_DELAY_COUNT
  {
    map s | s in inner :: MODIFYING_DELAY_COUNT
  }

  /**
   * A move re-keys the counters of `src` under `dest` (replacing what `dest`
   * had), drops `src` and resets the moved counters. A move onto itself
   * leaves `dest` empty, because the re-keyed map is deleted with `src`.
   */
  function Move(m: Counters, src: string, dest: string): (r: Counters)
    ensures r.Keys == m.Keys - {Some(src)} + {Some(dest)}
    ensures src != dest ==> r[Some(dest)] == Reset(Inner(m, Some(src)))
    ensures src == dest ==> r[Some(dest)] == map[]
    ensures forall d :: d in m && d != Some(src) && d != Some(dest) ==> r[d] == m[d]
  {
    (m - {Some(src)})[Some(dest) := if src == dest then map[] else Reset(Inner(m, Some(src)))]
  }

  function MoveEach(m: Counters, moves: seq<(string, string)>): Counters
    decreases |moves|
  {
    if moves == [] then m
    else
      var mv := moves[|moves| - 1];
      Move(MoveEach(m, moves[..|moves| - 1]), mv.0, mv.1)
  }

  function MovedEvents(moves: seq<(string, string)>): seq<Event>
    decreases |moves|
  {
    if moves == [] then []
    else MovedEvents(moves[..|moves| - 1]) + [FileMoved(moves[|moves| - 1].0, moves[|moves| - 1].1)]
  }

  /** The counters once a poll's file changes are armed, before the countdown. */
  function Armed(m: Counters, diff: SnapshotDiff): Counters
  {
    var afterDeleted := ArmPaths(m, diff.filesDeleted, Deleted);
    var afterModified := ArmPaths(afterDeleted, diff.filesModified, Modified);
    var afterCreated := ArmPaths(afterModified, diff.filesCreated, Created);
    MoveEach(afterCreated, diff.filesMoved)
  }

  /** The events queued at once for a poll's file changes, in queueing order. */
  function Immediate(diff: SnapshotDiff): seq<Event>
  {
    Announced(diff.filesDeleted, Deleted) + Announced(diff.filesCreated, Created)
      + MovedEvents(diff.filesMoved)
  }

  /**
   * The delayed events of an expired counter [d][s]: a deletion of the
   * source then a creation of the destination, whichever of the two is set.
   */
  function Fired(d: Path, s: Path): (r: seq<Event>)
    ensures d.Some? && s.Some? ==> r == [FileDeleted(s.value), FileCreated(d.value)]
    ensures d.Some? && s.None? ==> r == [FileCreated(d.value)]
    ensures d.None? && s.Some? ==> r == [FileDeleted(s.value)]
    ensures d.None? && s.None? ==> r == []
  {
    match (d, s)
    case (Some(dest), Some(src)) => [FileDeleted(src), FileCreated(dest)]
    case (Some(dest), None) => [FileCreated(dest)]
    case (None, Some(src)) => [FileDeleted(src)]
    case (None, None) => []
  }

  predicate IsEntry(m: Counters, e: (Path, Path))
  {
    e.0 in m && e.1 in m[e.0]
  }

  /** Counters of `m` visited in `visited`, and whether each one expires. */
  function Expiring(m: Counters, visited: seq<(Path, Path)>): seq<Event>
    decreases |visited|
  {
    if visited == [] then []
    else
      var e := visited[|visited| - 1];
      Expiring(m, visited[..|visited| - 1])
        + (if IsEntry(m, e) && m[e.0][e.1] == 1 then Fired(e.0, e.1) else [])
  }

  /** `visited` lists every counter of `m` exactly once. */
  predicate Enumerates(visited: seq<(Path, Path)>, m: Counters)
  {
    (forall i, j :: 0 <= i < j < |visited| ==> visited[i] != visited[j])
    && (forall i :: 0 <= i < |visited| ==> IsEntry(m, visited[i]))
    && (forall d, s :: d in m && s in m[d] ==> (d, s) in visited)
  }

  /**
   * One countdown: every counter goes down by one and exactly those that
   * reach zero disappear; no key of the outer map is removed.
   */
  ghost predicate Ticked(before: Counters, after: Counters)
  {
    after.Keys == before.Keys
    && (forall d, s :: d in before && s in before[d] ==>
          (s in after[d] <==> before[d][s] != 1)
          && (s in after[d] ==> after[d][s] == before[d][s] - 1))
    && (forall d, s :: d in after && s in after[d] ==> s in before[d])
  }

  /** All counters lie in lo..hi. */
  ghost predicate Between(m: Counters, lo: int, hi: int)
  {
    forall d, s :: d in m && s in m[d] ==> lo <= m[d][s] <= hi
  }

  function Entries(m: Counters): (r: set<(Path, Path)>)
    ensures forall e :: e in r <==> IsEntry(m, e)
  {
    set d, s | d in m.Keys && s in m[d].Keys :: (d, s)
  }

  // ---------------------------------------------------------------------------
  // Properties of the countdown map
  // ---------------------------------------------------------------------------

  /** Arming leaves every counter of a path in the list at the full delay. */
  lemma {:induction false} ArmPathsSets(m: Counters, paths: seq<string>, kind: Change)
    ensures forall i :: 0 <= i < |paths| ==>
      var k := KeyOf(kind, paths[i]);
      IsEntry(ArmPaths(m, paths, kind), k)
      && ArmPaths(m, paths, kind)[k.0][k.1] == MODIFYING_DELAY_COUNT
    ensures forall d, s :: d in m && s in m[d] ==> IsEntry(ArmPaths(m, paths, kind), (d, s))
    decreases |paths|
  {
    if paths != [] {
      var init := paths[..|paths| - 1];
      ArmPathsSets(m, init, kind);
      forall i | 0 <= i < |paths|
        ensures var k := KeyOf(kind, paths[i]);
          IsEntry(ArmPaths(m, paths, kind), k)
          && ArmPaths(m, paths, kind)[k.0][k.1] == MODIFYING_DELAY_COUNT
      {
        if i < |paths| - 1 {
          assert paths[i] == init[i];
        }
      }
    }
  }

  /** Arming only raises counters to the full delay. */
  lemma {:induction false} ArmPathsBetween(m: Counters, paths: seq<string>, kind: Change, lo: int)
    requires lo <= MODIFYING_DELAY_COUNT && Between(m, lo, MODIFYING_DELAY_COUNT)
    ensures Between(ArmPaths(m, paths, kind), lo, MODIFYING_DELAY_COUNT)
    decreases |paths|
  {
    if paths != [] {
      ArmPathsBetween(m, paths[..|paths| - 1], kind, lo);
    }
  }

  /** Moves only carry counters over or reset them to the full delay. */
  lemma {:induction false} MoveEachBetween(m: Counters, moves: seq<(string, string)>, lo: int)
    requires lo <= MODIFYING_DELAY_COUNT && Between(m, lo, MODIFYING_DELAY_COUNT)
    ensures Between(MoveEach(m, moves), lo, MODIFYING_DELAY_COUNT)
    decreases |moves|
  {
    if moves != [] {
      MoveEachBetween(m, moves[..|moves| - 1], lo);
    }
  }

  /** Armed counters lie in 1..MODIFYING_DELAY_COUNT when the old ones did. */
  lemma ArmedBetween(m: Counters, diff: SnapshotDiff)
    requires Between(m, 1, MODIFYING_DELAY_COUNT)
    ensures Between(Armed(m, diff), 1, MODIFYING_DELAY_COUNT)
  {
    var afterDeleted := ArmPaths(m, diff.filesDeleted, Deleted);
    var afterModified := ArmPaths(afterDeleted, diff.filesModified, Modified);
    var afterCreated := ArmPaths(afterModified, diff.filesCreated, Created);
    ArmPathsBetween(m, diff.filesDeleted, Deleted, 1);
    ArmPathsBetween(afterDeleted, diff.filesModified, Modified, 1);
    ArmPathsBetween(afterModified, diff.filesCreated, Created, 1);
    MoveEachBetween(afterCreated, diff.filesMoved, 1);
  }

  /** After a countdown from 1..DELAY, every counter left lies in 1..DELAY-1. */
  lemma TickedBetween(before: Counters, after: Counters)
    requires Between(before, 1, MODIFYING_DELAY_COUNT) && Ticked(before, after)
    ensures Between(after, 1, MODIFYING_DELAY_COUNT - 1)
  {
    forall d, s | d in after && s in after[d]
      ensures 1 <= after[d][s] <= MODIFYING_DELAY_COUNT - 1
    {
      assert s in before[d];
    }
  }

  /** A modified file announces nothing until its counter expires. */
  lemma {:induction false} ModificationsAreSilent(paths: seq<string>)
    ensures Announced(paths, Modified) == []
    decreases |paths|
  {
    if paths != [] {
      ModificationsAreSilent(paths[..|paths| - 1]);
    }
  }

  // ---------------------------------------------------------------------------
  // The polling emitter
  // ---------------------------------------------------------------------------

  class PollingEmitter {
    /** _modifying_files */
    var modifying: Counters
    /** The events queued for the observer, oldest first. */
    var queue: seq<Event>

    constructor ()
      ensures modifying == map[] && queue == []
    {
      modifying := map[];
      queue := [];
    }

    /**
     * One poll (queue_events). `stopped` stands for the two early returns:
     * the stop event fired during the wait, or the emitter should not keep
     * running. `diff` is the snapshot diff of this poll.
     */
    method QueueEvents(diff: SnapshotDiff, stopped: bool) returns (ghost visited: seq<(Path, Path)>)
      modifies this
      ensures stopped ==> modifying == old(modifying) && queue == old(queue)
      ensures !stopped ==>
        Ticked(Armed(old(modifying), diff), modifying)
        && Enumerates(visited, Armed(old(modifying), diff))
        && queue == old(queue) + Immediate(diff) + Expiring(Armed(old(modifying), diff), visited)
             + DirEvents(diff)
      ensures Between(old(modifying), 1, MODIFYING_DELAY_COUNT - 1) ==>
        Between(modifying, 1, MODIFYING_DELAY_COUNT - 1)
    {
      visited := [];
      if stopped {
        return;
      }
      ghost var m0 := modifying;
      ArmFileChanges(diff);
      visited := Countdown();
      QueueDirEvents(diff);
      if Between(m0, 1, MODIFYING_DELAY_COUNT - 1) {
        ArmedBetween(m0, diff);
        TickedBetween(Armed(m0, diff), modifying);
      }
    }

    /** The loops over deleted, modified, created and moved files. */
    method ArmFileChanges(diff: SnapshotDiff)
      modifies this
      ensures modifying == Armed(old(modifying), diff)
      ensures queue == old(queue) + Immediate(diff)
    {
      ghost var q0 := queue;
      var deleted := Announced(diff.filesDeleted, Deleted);
      var created := Announced(diff.filesCreated, Created);
      MarkFiles(diff.filesDeleted, Deleted);
      MarkFiles(diff.filesModified, Modified);
      ModificationsAreSilent(diff.filesModified);
      assert queue == q0 + deleted;
      MarkFiles(diff.filesCreated, Created);
      MarkMoves(diff.filesMoved);
      AppendAssoc(q0, deleted, created);
      AppendAssoc(q0, deleted + created, MovedEvents(diff.filesMoved));
    }

    /** One of the loops over deleted, modified or created files. */
    method MarkFiles(paths: seq<string>, kind: Change)
      modifies this
      ensures modifying == ArmPaths(old(modifying), paths, kind)
      ensures queue == old(queue) + Announced(paths, kind)
    {
      ghost var m0 := modifying;
      ghost var q0 := queue;
      var i := 0;
      while i < |paths|
        invariant 0 <= i <= |paths|
        invariant modifying == ArmPaths(m0, paths[..i], kind)
        invariant queue == q0 + Announced(paths[..i], kind)
      {
        var k := KeyOf(kind, paths[i]);
        PathsStep(m0, paths, i, kind);
        AppendAssoc(q0, Announced(paths[..i], kind), Announce(kind, paths[i]));
        modifying := Arm(modifying, k.0, k.1);
        queue := queue + Announce(kind, paths[i]);
        i := i + 1;
      }
      assert paths[..i] == paths;
    }

    /** The loop over moved files. */
    method MarkMoves(moves: seq<(string, string)>)
      modifies this
      ensures modifying == MoveEach(old(modifying), moves)
      ensures queue == old(queue) + MovedEvents(moves)
    {
      ghost var m0 := modifying;
      ghost var q0 := queue;
      var i := 0;
      while i < |moves|
        invariant 0 <= i <= |moves|
        invariant modifying == MoveEach(m0, moves[..i])
        invariant queue == q0 + MovedEvents(moves[..i])
      {
        assert moves[..i + 1][..i] == moves[..i];
        AppendAssoc(q0, MovedEvents(moves[..i]), [FileMoved(moves[i].0, moves[i].1)]);
        MoveOne(moves[i].0, moves[i].1);
        i := i + 1;
      }
      assert moves[..i] == moves;
    }

    /** The body of the loop over moved files. */
    method MoveOne(src: string, dest: string)
      modifies this
      ensures modifying == Move(old(modifying), src, dest)
      ensures queue == old(queue) + [FileMoved(src, dest)]
    {
      ghost var m0 := modifying;
      var moved := Inner(modifying, Some(src));
      modifying := modifying[Some(dest) := moved];
      modifying := modifying - {Some(src)};
      var inner := Inner(modifying, Some(dest));
      var reset := ResetAll(inner);
      modifying := modifying[Some(dest) := reset];
      queue := queue + [FileMoved(src, dest)];
      if src == dest {
        assert reset == map[];
        assert modifying == (m0 - {Some(src)})[Some(dest) := map[]];
      } else {
        assert inner == moved;
        RemoveOtherThenPut(m0, Some(src), Some(dest), moved, reset);
      }
    }

    /** Decrements every counter, queues the expired ones' events and drops them. */
    method Countdown() returns (ghost visited: seq<(Path, Path)>)
      modifies this
      ensures Ticked(old(modifying), modifying)
      ensures Enumerates(visited, old(modifying))
      ensures queue == old(queue) + Expiring(old(modifying), visited)
    {
      ghost var m0 := modifying;
      var deletion;
      visited, deletion := Decrement();
      ghost var m1 := modifying;
      forall e | e in deletion
        ensures IsEntry(m1, e)
      {
        assert IsEntry(m0, e);
      }
      RemoveExpired(deletion);
      CountdownTicks(m0, m1, modifying, visited, deletion);
    }

    /** The decrementing loop; returns the deletion list. */
    method Decrement() returns (ghost visited: seq<(Path, Path)>, deletion: seq<(Path, Path)>)
      modifies this
      ensures DecrementedExcept(old(modifying), modifying, {})
      ensures Enumerates(visited, old(modifying))
      ensures ExpiredIn(old(modifying), deletion, visited)
      ensures queue == old(queue) + Expiring(old(modifying), visited)
    {
      ghost var m0 := modifying;
      ghost var q0 := queue;
      var todo := Entries(modifying);
      visited := [];
      deletion := [];
      while todo != {}
        invariant DecrementedExcept(m0, modifying, todo)
        invariant Splits(m0, todo, visited)
        invariant ExpiredIn(m0, deletion, visited)
        invariant queue == q0 + Expiring(m0, visited)
        decreases |todo|
      {
        var e :| e in todo;
        DecrementStep(m0, modifying, todo, e);
        SplitsStep(m0, todo, visited, e);
        ExpiringStep(m0, visited, e);
        AppendAssoc(q0, Expiring(m0, visited), if m0[e.0][e.1] == 1 then Fired(e.0, e.1) else []);
        ghost var before := deletion;
        var expired := DecrementEntry(e);
        if expired {
          deletion := deletion + [e];
        }
        todo := todo - {e};
        ExpiredStep(m0, before, deletion, visited, e);
        visited := visited + [e];
      }
      SplitsDone(m0, visited);
    }

    /** One step of the decrementing loop: the counter [e.0][e.1] goes down and,
     *  if it reaches zero, its delayed events are queued. */
    method DecrementEntry(e: (Path, Path)) returns (expired: bool)
      requires IsEntry(modifying, e)
      modifies this
      ensures modifying == old(modifying)[e.0 := old(modifying)[e.0][e.1 := old(modifying)[e.0][e.1] - 1]]
      ensures expired <==> old(modifying)[e.0][e.1] == 1
      ensures queue == old(queue) + if expired then Fired(e.0, e.1) else []
    {
      var d, s := e.0, e.1;
      modifying := modifying[d := modifying[d][s := modifying[d][s] - 1]];
      expired := modifying[d][s] == 0;
      if expired {
        queue := queue + Fired(d, s);
      } else {
        assert queue + [] == queue;
      }
    }

    /** The loop over the deletion list. */
    method RemoveExpired(deletion: seq<(Path, Path)>)
      requires forall e :: e in deletion ==> IsEntry(modifying, e)
      modifies this
      ensures modifying.Keys == old(modifying).Keys
      ensures forall d, s :: d in modifying ==>
        (s in modifying[d] <==> s in old(modifying)[d] && (d, s) !in deletion)
      ensures forall d, s :: d in modifying && s in modifying[d] ==>
        modifying[d][s] == old(modifying)[d][s]
      ensures queue == old(queue)
    {
      ghost var m1 := modifying;
      var k := 0;
      while k < |deletion|
        invariant 0 <= k <= |deletion|
        invariant modifying.Keys == m1.Keys
        invariant forall d, s :: d in modifying ==>
          (s in modifying[d] <==> s in m1[d] && (d, s) !in deletion[..k])
        invariant forall d, s :: d in modifying && s in modifying[d] ==> modifying[d][s] == m1[d][s]
        invariant queue == old(queue)
      {
        assert deletion[k] in deletion;
        var (d, s) := deletion[k];
        modifying := modifying[d := modifying[d] - {s}];
        assert deletion[..k + 1] == deletion[..k] + [(d, s)];
        k := k + 1;
      }
      assert deletion[..k] == deletion;
    }

    /** The four loops over directory changes. */
    method QueueDirEvents(diff: SnapshotDiff)
      modifies this
      ensures modifying == old(modifying)
      ensures queue == old(queue) + DirEvents(diff)
    {
      QueueAll(seq(|diff.dirsDeleted|, i requires 0 <= i < |diff.dirsDeleted| => DirDeleted(diff.dirsDeleted[i])));
      QueueAll(seq(|diff.dirsModified|, i requires 0 <= i < |diff.dirsModified| => DirModified(diff.dirsModified[i])));
      QueueAll(seq(|diff.dirsCreated|, i requires 0 <= i < |diff.dirsCreated| => DirCreated(diff.dirsCreated[i])));
      QueueAll(seq(|diff.dirsMoved|, i requires 0 <= i < |diff.dirsMoved| =>
        DirMoved(diff.dirsMoved[i].0, diff.dirsMoved[i].1)));
    }

    method QueueAll(events: seq<Event>)
      modifies this
      ensures modifying == old(modifying)
      ensures queue == old(queue) + events
    {
      var i := 0;
      while i < |events|
        invariant 0 <= i <= |events|
        invariant modifying == old(modifying)
        invariant queue == old(queue) + events[..i]
      {
        assert events[..i + 1] == events[..i] + [events[i]];
        AppendAssoc(old(queue), events[..i], [events[i]]);
        queue := queue + [events[i]];
        i := i + 1;
      }
      assert events[..i] == events;
    }
  }

  /** The loop resetting every counter of a moved map to the full delay. */
  method ResetAll(inner: map<Path, int>) returns (r: map<Path, int>)
    ensures r == Reset(inner)
  {
    r := inner;
    var todo := inner.Keys;
    while todo != {}
      invariant todo <= inner.Keys
      invariant r.Keys == inner.Keys
      invariant forall s :: s in r ==> r[s] == if s in todo then inner[s] else MODIFYING_DELAY_COUNT
      decreases |todo|
    {
      var s :| s in todo;
      r := r[s := MODIFYING_DELAY_COUNT];
      todo := todo - {s};
    }
  }

  /** Every counter of `m0` outside `todo` is decremented in `m`; no key changes. */
  ghost predicate DecrementedExcept(m0: Counters, m: Counters, todo: set<(Path, Path)>)
  {
    m.Keys == m0.Keys
    && (forall d :: d in m ==> m[d].Keys == m0[d].Keys)
    && (forall d, s :: d in m && s in m[d] ==>
          m[d][s] == if (d, s) in todo then m0[d][s] else m0[d][s] - 1)
  }

  lemma DecrementStep(m0: Counters, m: Counters, todo: set<(Path, Path)>, e: (Path, Path))
    requires DecrementedExcept(m0, m, todo) && IsEntry(m0, e) && e in todo
    ensures IsEntry(m, e) && m[e.0][e.1] == m0[e.0][e.1]
    ensures DecrementedExcept(m0, m[e.0 := m[e.0][e.1 := m[e.0][e.1] - 1]], todo - {e})
  {
    var m' := m[e.0 := m[e.0][e.1 := m[e.0][e.1] - 1]];
    forall d, s | d in m' && s in m'[d]
      ensures m'[d][s] == if (d, s) in todo - {e} then m0[d][s] else m0[d][s] - 1
    {
      if (d, s) != e {
        assert s in m[d];
      }
    }
  }

  /** `todo` and `visited` split the counters of `m0`; `visited` repeats nothing. */
  ghost predicate Splits(m0: Counters, todo: set<(Path, Path)>, visited: seq<(Path, Path)>)
  {
    (forall e :: IsEntry(m0, e) <==> e in todo || e in visited)
    && (forall e :: e in todo ==> e !in visited)
    && (forall i, j :: 0 <= i < j < |visited| ==> visited[i] != visited[j])
  }

  lemma SplitsStep(m0: Counters, todo: set<(Path, Path)>, visited: seq<(Path, Path)>, e: (Path, Path))
    requires Splits(m0, todo, visited) && e in todo
    ensures IsEntry(m0, e) && e !in visited
    ensures Splits(m0, todo - {e}, visited + [e])
  {
    var v := visited + [e];
    forall i, j | 0 <= i < j < |v| ensures v[i] != v[j]
    {
      if j == |visited| {
        assert v[i] in visited;
      }
    }
  }

  lemma SplitsDone(m0: Counters, visited: seq<(Path, Path)>)
    requires Splits(m0, {}, visited)
    ensures Enumerates(visited, m0)
  {
  }

  /** `deletion` holds the counters of `visited` that started at 1. */
  ghost predicate ExpiredIn(m0: Counters, deletion: seq<(Path, Path)>, visited: seq<(Path, Path)>)
  {
    forall e :: e in deletion <==> e in visited && IsEntry(m0, e) && m0[e.0][e.1] == 1
  }

  lemma ExpiredStep(m0: Counters, before: seq<(Path, Path)>, after: seq<(Path, Path)>,
                    visited: seq<(Path, Path)>, e: (Path, Path))
    requires IsEntry(m0, e) && ExpiredIn(m0, before, visited)
    requires after == if m0[e.0][e.1] == 1 then before + [e] else before
    ensures ExpiredIn(m0, after, visited + [e])
  {
  }

  /** Decrementing then removing the expired counters is one countdown. */
  lemma CountdownTicks(m0: Counters, m1: Counters, m2: Counters,
                       visited: seq<(Path, Path)>, deletion: seq<(Path, Path)>)
    requires DecrementedExcept(m0, m1, {}) && Enumerates(visited, m0)
    requires ExpiredIn(m0, deletion, visited)
    requires m2.Keys == m1.Keys
    requires forall d, s :: d in m2 ==> (s in m2[d] <==> s in m1[d] && (d, s) !in deletion)
    requires forall d, s :: d in m2 && s in m2[d] ==> m2[d][s] == m1[d][s]
    ensures Ticked(m0, m2)
  {
    forall d, s | d in m0 && s in m0[d]
      ensures (s in m2[d] <==> m0[d][s] != 1) && (s in m2[d] ==> m2[d][s] == m0[d][s] - 1)
    {
      assert (d, s) in visited;
      assert s in m1[d];
    }
  }

  lemma ExpiringStep(m0: Counters, visited: seq<(Path, Path)>, e: (Path, Path))
    requires IsEntry(m0, e)
    ensures Expiring(m0, visited + [e])
      == Expiring(m0, visited) + if m0[e.0][e.1] == 1 then Fired(e.0, e.1) else []
  {
    assert (visited + [e])[..|visited|] == visited;
  }

  lemma PathsStep(m0: Counters, paths: seq<string>, i: nat, kind: Change)
    requires i < |paths|
    ensures var k := KeyOf(kind, paths[i]);
      ArmPaths(m0, paths[..i + 1], kind) == Arm(ArmPaths(m0, paths[..i], kind), k.0, k.1)
    ensures Announced(paths[..i + 1], kind) == Announced(paths[..i], kind) + Announce(kind, paths[i])
  {
    assert paths[..i + 1][..i] == paths[..i];
  }

  lemma AppendAssoc<T>(a: seq<T>, b: seq<T>, c: seq<T>)
    ensures a + b + c == a + (b + c)
  {
  }

  /** Writing `k`, removing another key and writing `k` again is removing then writing. */
  lemma RemoveOtherThenPut(m: Counters, gone: Path, k: Path, v: map<Path, int>, w: map<Path, int>)
    requires gone != k
    ensures (m[k := v] - {gone})[k := w] == (m - {gone})[k := w]
  {
  }

  /** Directory events, queued at once in the order of the diff. */
  function DirEvents(diff: SnapshotDiff): (r: seq<Event>)
    ensures |r| == |diff.dirsDeleted| + |diff.dirsModified| + |diff.dirsCreated| + |diff.dirsMoved|
    ensures forall i :: 0 <= i < |r| ==> r[i].DirDeleted? || r[i].DirModified? || r[i].DirCreated? || r[i].DirMoved?
  {
    seq(|diff.dirsDeleted|, i requires 0 <= i < |diff.dirsDeleted| => DirDeleted(diff.dirsDeleted[i]))
      + seq(|diff.dirsModified|, i requires 0 <= i < |diff.dirsModified| => DirModified(diff.dirsModified[i]))
      + seq(|diff.dirsCreated|, i requires 0 <= i < |diff.dirsCreated| => DirCreated(diff.dirsCreated[i]))
      + seq(|diff.dirsMoved|, i requires 0 <= i < |diff.dirsMoved| =>
          DirMoved(diff.dirsMoved[i].0, diff.dirsMoved[i].1))
  }

  // ---------------------------------------------------------------------------
  // The event handler: path filter and routing
  // ---------------------------------------------------------------------------

  datatype PathType = Folder | File

  const IGNORED_MIST_ROOT_PATHS: seq<(string, PathType)> :=
    [(Mist.STORAGE_FOLDER_PATH, Folder), (Mist.DEFAULT_INDEX_FILENAME, File)]

  /** os.path.join(a, b) on POSIX for a relative `b`. */
  function PathJoin(a: string, b: string): (r: string)
    ensures a == [] ==> r == b
    ensures a != [] && a[|a| - 1] == '/' ==> r == a + b
    ensures a != [] && a[|a| - 1] != '/' ==> r == a + "/" + b
  {
    if a == [] || a[|a| - 1] == '/' then a + b else a + "/" + b
  }

  /** os.path.commonprefix of two strings: their longest common prefix. */
  function CommonPrefix(a: string, b: string): (r: string)
    ensures r <= a && r <= b
    ensures |r| < |a| && |r| < |b| ==> a[|r|] != b[|r|]
  {
    if a == [] || b == [] || a[0] != b[0] then []
    else [a[0]] + CommonPrefix(a[1..], b[1..])
  }

  /** The common prefix of `a` and `b` is `b` exactly when `b` is a prefix of `a`. */
  lemma {:induction false} CommonPrefixIsPrefix(a: string, b: string)
    ensures CommonPrefix(a, b) == b <==> b <= a
  {
    if a != [] && b != [] && a[0] == b[0] {
      CommonPrefixIsPrefix(a[1..], b[1..]);
      assert b == [b[0]] + b[1..];
      assert b <= a <==> b[1..] <= a[1..];
    }
  }

  /** Whether one of `rules` makes the handler drop an event on `src`. */
  function IgnoredBy(root: string, src: string, rules: seq<(string, PathType)>): bool
  {
    if rules == [] then false
    else
      var fullPath := PathJoin(root, rules[0].0);
      (match rules[0].1
       case Folder => CommonPrefix(src, fullPath) == fullPath
       case File => src == fullPath)
      || IgnoredBy(root, src, rules[1..])
  }

  /** dispatch drops an event whose source lies under the chunk folder, read
   *  character-wise (so a sibling such as `chunks2` is dropped too), or is
   *  the index file. */
  lemma IgnoredPaths(root: string, src: string)
    ensures IgnoredBy(root, src, IGNORED_MIST_ROOT_PATHS) <==>
      PathJoin(root, "chunks") <= src || src == PathJoin(root, "index")
  {
    var rules := IGNORED_MIST_ROOT_PATHS;
    CommonPrefixIsPrefix(src, PathJoin(root, "chunks"));
    assert rules[0] == ("chunks", Folder) && rules[1..][0] == ("index", File);
    assert rules[1..][1..] == [];
    assert IgnoredBy(root, src, rules[1..]) == (src == PathJoin(root, "index"));
  }

  /** A call the handler makes on the catalog (the Mist class). */
  datatype CatalogCall =
    | AddFile(path: string, overwrite: bool)
    | ModifyFile(path: string)
    | DeleteFile(path: string)

  /** The on_moved/on_created/on_deleted/on_modified handlers. */
  function Route(e: Event): seq<CatalogCall>
  {
    match e
    case FileMoved(src, dest) => [DeleteFile(src), AddFile(dest, true)]
    case FileCreated(src) => [AddFile(src, false)]
    case FileDeleted(src) => [DeleteFile(src)]
    case FileModified(src) => [ModifyFile(src)]
    case _ => []
  }

  /** dispatch: the catalog calls an event leads to under the root `root`. */
  function Dispatch(root: string, e: Event): (calls: seq<CatalogCall>)
    ensures IgnoredBy(root, e.src, IGNORED_MIST_ROOT_PATHS) ==> calls == []
  {
    if IgnoredBy(root, e.src, IGNORED_MIST_ROOT_PATHS) then [] else Route(e)
  }

  /**
   * Directory events reach no catalog method; a file event on an ignored path
   * neither; otherwise a move deletes the source then adds the destination
   * with overwrite, a creation adds without overwrite, a deletion deletes
   * and a modification modifies, each for the event's own path.
   */
  lemma DispatchCalls(root: string, e: Event)
    ensures (e.DirDeleted? || e.DirModified? || e.DirCreated? || e.DirMoved?) ==> Dispatch(root, e) == []
    ensures !IgnoredBy(root, e.src, IGNORED_MIST_ROOT_PATHS) ==>
      (e.FileMoved? ==> Dispatch(root, e) == [DeleteFile(e.src), AddFile(e.dest, true)])
      && (e.FileCreated? ==> Dispatch(root, e) == [AddFile(e.src, false)])
      && (e.FileDeleted? ==> Dispatch(root, e) == [DeleteFile(e.src)])
      && (e.FileModified? ==> Dispatch(root, e) == [ModifyFile(e.src)])
    ensures forall c :: c in Dispatch(root, e) ==>
      c.path == e.src || (e.FileMoved? && c.path == e.dest)
  {
  }
}
