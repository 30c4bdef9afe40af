/** The scan lock, store/sqlite-store.ts, as a protocol of processes that start, scan, crash and share one row. */
module ScanLock {
  import opened Text

  const SCAN_LOCK_MAX_AGE_MS := 2 * 60 * 60 * 1000

  datatype Holder = Holder(pid: int, startedAt: int)

  datatype Attempt = Taken(row: Holder) | InProgress(holder: Holder)

  /** `acquireScanLock`: refused while the row's process is this one or alive, and the row is not too old. */
  function TryAcquire(row: Option<Holder>, pid: int, now: int, alive: int -> bool): Attempt {
    if row.Some? && (row.value.pid == pid || alive(row.value.pid)) && now - row.value.startedAt < SCAN_LOCK_MAX_AGE_MS
    then InProgress(row.value)
    else Taken(Holder(pid, now))
  }

  // ---- The system ----

  /** A scan in flight, started by a process that took the lock. */
  datatype Scan = Scan(pid: int, since: int)

  datatype Sys = Sys(now: int, row: Option<Holder>, live: set<int>, used: set<int>, scans: map<nat, Scan>, next: nat)

  datatype Event =
    | Tick(ms: nat)
    | Start(pid: int)
    | Crash(pid: int)
    | Acquire(pid: int)
    | Release(scan: nat)

  predicate Enabled(s: Sys, e: Event) {
    match e
    case Tick(_) => true
    case Start(pid) => pid !in s.live
    case Crash(pid) => pid in s.live
    case Acquire(pid) => pid in s.live
    case Release(scan) => scan in s.scans
  }

  /** A crash drops the process with its scans and leaves the row; a finished scan deletes whatever row there is. */
  function Step(s: Sys, e: Event): Sys
    requires Enabled(s, e)
  {
    match e
    case Tick(ms) => s.(now := s.now + ms)
    case Start(pid) => s.(live := s.live + {pid}, used := s.used + {pid})
    case Crash(pid) => s.(live := s.live - {pid}, scans := map id | id in s.scans && s.scans[id].pid != pid :: s.scans[id])
    case Acquire(pid) =>
      var attempt := TryAcquire(s.row, pid, s.now, p => p in s.live);
      if attempt.InProgress? then s
      else s.(row := Some(attempt.row), scans := s.scans[s.next := Scan(pid, s.now)], next := s.next + 1)
    case Release(scan) => s.(row := None, scans := s.scans - {scan})
  }

  const INIT := Sys(0, None, {}, {}, map[], 0)

  /** Events that are not enabled do not happen. */
  function Run(events: seq<Event>): Sys {
    if events == [] then INIT
    else
      var s, e := Run(events[..|events| - 1]), events[|events| - 1];
      if Enabled(s, e) then Step(s, e) else s
  }

  // ---- What is assumed of a run ----

  predicate InTime(s: Sys) {
    forall id :: id in s.scans ==> s.now - s.scans[id].since < SCAN_LOCK_MAX_AGE_MS
  }

  /** No scan ever lasts as long as the maximum age. */
  predicate NeverOverran(events: seq<Event>) {
    InTime(Run(events)) && (events != [] ==> NeverOverran(events[..|events| - 1]))
  }

  /** No pid is given out twice. */
  predicate PidsNotReused(events: seq<Event>) {
    events != [] ==>
      var front, e := events[..|events| - 1], events[|events| - 1];
      PidsNotReused(front) && (e.Start? ==> e.pid !in Run(front).used)
  }

  // ---- Safety ----

  /** Scans belong to live processes, the row names every one of them, and there is at most one. */
  ghost predicate Guarded(s: Sys) {
    && (forall id :: id in s.scans ==> s.scans[id].pid in s.live && id < s.next && s.scans[id].since <= s.now)
    && (forall id :: id in s.scans ==> s.row == Some(Holder(s.scans[id].pid, s.scans[id].since)))
    && AtMostOneScan(s)
  }

  ghost predicate AtMostOneScan(s: Sys) {
    forall i, j :: i in s.scans && j in s.scans ==> i == j
  }

  lemma StepStaysGuarded(s: Sys, e: Event)
    requires Guarded(s) && InTime(s) && Enabled(s, e)
    ensures Guarded(Step(s, e))
  {
  }

  /** At every point of every run without an overrun, at most one scan is in flight and the row names its process. */
  lemma {:induction false} OneScanAtATime(events: seq<Event>)
    requires NeverOverran(events)
    ensures Guarded(Run(events))
  {
    hide Step, Enabled, InTime, Guarded;
    if events == [] {
      InitGuarded();
    } else {
      var front, e := events[..|events| - 1], events[|events| - 1];
      OneScanAtATime(front);
      assert InTime(Run(front));
      if Enabled(Run(front), e) { StepStaysGuarded(Run(front), e); }
    }
  }

  lemma InitGuarded()
    ensures Guarded(INIT)
  {
  }

  /** Taking the lock breaks exclusion exactly when the scan in flight has reached the maximum age. */
  lemma AcquireBreaksExactly(s: Sys, pid: int)
    requires Guarded(s) && pid in s.live
    ensures AtMostOneScan(Step(s, Acquire(pid))) <==> InTime(s)
  {
    if !InTime(s) {
      var id :| id in s.scans && s.now - s.scans[id].since >= SCAN_LOCK_MAX_AGE_MS;
      var after := Step(s, Acquire(pid));
      assert id in after.scans && s.next in after.scans;
    }
  }

  // ---- Recovery ----

  /** A row whose process is alive is the row of a scan in flight. */
  ghost predicate RowIsCurrent(s: Sys) {
    && (s.row.Some? ==> s.row.value.pid in s.used)
    && s.live <= s.used
    && (s.row.Some? && s.row.value.pid in s.live ==> s.scans != map[])
  }

  lemma StepRowIsCurrent(s: Sys, e: Event)
    requires Guarded(s) && RowIsCurrent(s) && Enabled(s, e) && (e.Start? ==> e.pid !in s.used)
    ensures RowIsCurrent(Step(s, e))
  {
    var after := Step(s, e);
    match e
    case Crash(pid) =>
      if s.row.Some? && s.row.value.pid in s.live && s.row.value.pid != pid {
        var id :| id in s.scans;
        assert id in after.scans;
      }
    case Acquire(pid) =>
      if after != s { assert s.next in after.scans; }
    case _ =>
  }

  lemma {:induction false} RowsAreCurrent(events: seq<Event>)
    requires NeverOverran(events) && PidsNotReused(events)
    ensures RowIsCurrent(Run(events))
  {
    hide Step, Enabled, InTime, Guarded, RowIsCurrent;
    if events == [] {
      InitCurrent();
    } else {
      var front, e := events[..|events| - 1], events[|events| - 1];
      RowsAreCurrent(front);
      OneScanAtATime(front);
      if Enabled(Run(front), e) { StepRowIsCurrent(Run(front), e); }
    }
  }

  lemma InitCurrent()
    ensures RowIsCurrent(INIT)
  {
  }

  /** An attempt is refused exactly while a scan is in flight: neither a crash nor a finished scan leaves the lock stuck. */
  lemma RefusedExactlyWhileScanning(events: seq<Event>, pid: int)
    requires NeverOverran(events) && PidsNotReused(events) && pid in Run(events).live
    ensures var s := Run(events);
            TryAcquire(s.row, pid, s.now, p => p in s.live).InProgress? <==> s.scans != map[]
  {
    var s := Run(events);
    OneScanAtATime(events);
    RowsAreCurrent(events);
    if s.scans != map[] {
      var id :| id in s.scans;
      assert InTime(s) && s.now - s.scans[id].since < SCAN_LOCK_MAX_AGE_MS;
    }
  }

  /** Whatever happened before, a row whose process is dead, or that has reached the maximum age, does not block. */
  lemma StaleRowIsReclaimed(events: seq<Event>, pid: int)
    ensures var s := Run(events);
            pid in s.live && s.row.Some?
            && (s.row.value.pid !in s.live || s.now - s.row.value.startedAt >= SCAN_LOCK_MAX_AGE_MS)
            ==> var after := Step(s, Acquire(pid));
                after.row == Some(Holder(pid, s.now)) && s.next in after.scans && after.scans[s.next] == Scan(pid, s.now)
  {
    assert pid in Run(events).live ==> Enabled(Run(events), Acquire(pid));
  }

  // ---- An overrun ----

  /**
   * A scan that outlives the maximum age loses the lock, and when it finishes it deletes its successor's row:
   * a third process then scans beside a second one that has done nothing wrong.
   */
  const OVERRUN := [
    Start(1), Start(2), Start(3),
    Acquire(1), Tick(SCAN_LOCK_MAX_AGE_MS), Acquire(2),
    Release(0), Acquire(3)]

  lemma RunAppend(events: seq<Event>, e: Event)
    ensures Run(events + [e]) == if Enabled(Run(events), e) then Step(Run(events), e) else Run(events)
  {
    assert (events + [e])[..|events|] == events;
  }

  lemma OverrunPrefix(k: nat)
    requires k < |OVERRUN|
    ensures var s, e := Run(OVERRUN[..k]), OVERRUN[k];
            Run(OVERRUN[..k + 1]) == if Enabled(s, e) then Step(s, e) else s
  {
    hide Step, Enabled;
    assert OVERRUN[..k + 1] == OVERRUN[..k] + [OVERRUN[k]];
    RunAppend(OVERRUN[..k], OVERRUN[k]);
  }

  lemma OverrunStarts()
    ensures Run(OVERRUN[..5])
         == Sys(SCAN_LOCK_MAX_AGE_MS, Some(Holder(1, 0)), {1, 2, 3}, {1, 2, 3}, map[0 := Scan(1, 0)], 1)
  {
    hide Run;
    assert Run(OVERRUN[..0]) == INIT by { NoEvents(); }
    OverrunPrefix(0);
    OverrunPrefix(1);
    OverrunPrefix(2);
    assert Run(OVERRUN[..3]) == Sys(0, None, {1, 2, 3}, {1, 2, 3}, map[], 0);
    OverrunPrefix(3);
    OverrunPrefix(4);
  }

  lemma NoEvents()
    ensures Run(OVERRUN[..0]) == INIT
  {
  }

  lemma OverrunBreaksTheLock()
    ensures var s := Run(OVERRUN);
            && s.scans == map[1 := Scan(2, SCAN_LOCK_MAX_AGE_MS), 2 := Scan(3, SCAN_LOCK_MAX_AGE_MS)]
            && InTime(s) && s.row == Some(Holder(3, SCAN_LOCK_MAX_AGE_MS))
            && !AtMostOneScan(s)
  {
    hide Run;
    OverrunStarts();
    OverrunPrefix(5);
    assert Run(OVERRUN[..6]).scans == map[0 := Scan(1, 0), 1 := Scan(2, SCAN_LOCK_MAX_AGE_MS)];
    OverrunPrefix(6);
    assert Run(OVERRUN[..7]).scans == map[1 := Scan(2, SCAN_LOCK_MAX_AGE_MS)];
    OverrunPrefix(7);
    assert OVERRUN[..8] == OVERRUN;
    assert 1 in Run(OVERRUN).scans && 2 in Run(OVERRUN).scans;
  }
}
