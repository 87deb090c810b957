/**
 * The worker thread: it waits on the mailbox for at most nextUpdate seconds,
 * stops on TERMINATE, takes the schedule of an UPDATE wholesale, keeps its
 * schedule on a timeout, and otherwise re-resolves and applies the result.
 * The unbounded loop is modelled over a finite sequence of clock readings, one
 * per pass; the applied temperatures are recorded instead of running redshift.
 */
module WorkerLoop {
  import opened Wrappers
  import opened Times
  import opened Resolver
  import opened Communication

  /** The worker's locals and the record of temperatures handed to invokeRedshift. */
  datatype WorkerState = WorkerState(schedule: ScheduleList, nextUpdate: int, applied: seq<int>)

  /** Where the loop stands after the clock readings ran out or TERMINATE was read. */
  datatype RunResult = RunResult(state: WorkerState, pending: seq<CommandMessage>, terminated: bool)

  /** An empty schedule and a one-day first wait. */
  const Initial := WorkerState([], Day, [])

  /** The schedule a pass resolves: an UPDATE's schedule, otherwise (a timeout) the current one. */
  function NextSchedule(st: WorkerState, queue: seq<CommandMessage>): ScheduleList {
    if queue != [] && queue[0].kind == Update then queue[0].schedule else st.schedule
  }

  /** A pass that does not stop: re-resolve, apply, and wait for the new delay. */
  function Pass(schedule: ScheduleList, applied: seq<int>, now: Clock): WorkerState {
    var r := Resolve(schedule, now);
    WorkerState(schedule, r.delay, applied + [r.temperature])
  }

  /** The loop, one pass per clock reading, over the queued commands. */
  function Run(st: WorkerState, queue: seq<CommandMessage>, clock: seq<Clock>): RunResult
    decreases |clock|
  {
    if clock == [] then RunResult(st, queue, false)
    else if queue != [] && queue[0].kind == Terminate then RunResult(st, queue[1..], true)
    else Run(Pass(NextSchedule(st, queue), st.applied, clock[0]), if queue == [] then [] else queue[1..], clock[1..])
  }

  /** worker(): the loop over the shared mailbox, one pass per clock reading. */
  method Worker(communication: BasicCommunication, clock: seq<Clock>) returns (result: RunResult)
    modifies communication
    ensures result == Run(Initial, old(communication.commands), clock)
    ensures communication.commands == result.pending
  {
    var schedule: ScheduleList := [];
    var nextUpdate := Day;
    var applied: seq<int> := [];
    var i := 0;
    while i < |clock|
      invariant 0 <= i <= |clock|
      invariant Run(WorkerState(schedule, nextUpdate, applied), communication.commands, clock[i..]) ==
        Run(Initial, old(communication.commands), clock)
      decreases |clock| - i
    {
      var cmd := communication.ReadCommandTimeout(nextUpdate);
      if cmd.Some? {
        if cmd.value.kind == Terminate {
          return RunResult(WorkerState(schedule, nextUpdate, applied), communication.commands, true);
        } else if cmd.value.kind == Update {
          schedule := cmd.value.schedule;
        }
      }
      var r := UpdateRedshift(schedule, clock[i]);
      applied := applied + [r.temperature];
      nextUpdate := r.delay;
      i := i + 1;
    }
    result := RunResult(WorkerState(schedule, nextUpdate, applied), communication.commands, false);
  }

  // ---------------------------------------------------------------------------
  // Properties of the loop

  /** The schedule after taking, in order, the UPDATE commands among cmds. */
  function ScheduleAfter(schedule: ScheduleList, cmds: seq<CommandMessage>): ScheduleList
    decreases |cmds|
  {
    if cmds == [] then schedule
    else ScheduleAfter(if cmds[0].kind == Update then cmds[0].schedule else schedule, cmds[1..])
  }

  function Min(a: nat, b: nat): nat {
    if a < b then a else b
  }

  /**
   * Without a TERMINATE among the commands it reaches, the loop makes one pass
   * per clock reading and consumes the commands in FIFO order, one per pass
   * while any are queued (an empty queue is a timeout that keeps the schedule);
   * it ends with the schedule of the last UPDATE it read.
   */
  lemma {:induction false} RunWithoutTerminate(st: WorkerState, queue: seq<CommandMessage>, clock: seq<Clock>)
    requires forall k :: 0 <= k < |queue| && k < |clock| ==> queue[k].kind != Terminate
    ensures !Run(st, queue, clock).terminated
    ensures Run(st, queue, clock).pending == queue[Min(|queue|, |clock|)..]
    ensures Run(st, queue, clock).state.schedule == ScheduleAfter(st.schedule, queue[..Min(|queue|, |clock|)])
    decreases |clock|
  {
    if clock != [] {
      var st' := Pass(NextSchedule(st, queue), st.applied, clock[0]);
      var queue' := if queue == [] then [] else queue[1..];
      RunWithoutTerminate(st', queue', clock[1..]);
      var m := Min(|queue|, |clock|);
      if queue != [] {
        assert queue[..m] == [queue[0]] + queue'[..m - 1];
        assert queue[m..] == queue'[m - 1..];
      }
    } else {
      assert queue[..0] == [];
    }
  }

  /**
   * Every pass that does not stop applies one temperature; after the last pass
   * the worker waits for the delay, and has applied the temperature, that the
   * resolver gives for its schedule at the last clock reading.
   */
  lemma RunAppliesEachPass(st: WorkerState, queue: seq<CommandMessage>, clock: seq<Clock>)
    requires forall k :: 0 <= k < |queue| && k < |clock| ==> queue[k].kind != Terminate
    ensures |Run(st, queue, clock).state.applied| == |st.applied| + |clock|
    ensures Run(st, queue, clock).state.applied[..|st.applied|] == st.applied
    ensures clock != [] ==>
      Run(st, queue, clock).state.nextUpdate == Resolve(Run(st, queue, clock).state.schedule, clock[|clock| - 1]).delay
    ensures clock != [] ==>
      Run(st, queue, clock).state.applied[|st.applied| + |clock| - 1] ==
      Resolve(Run(st, queue, clock).state.schedule, clock[|clock| - 1]).temperature
  {
    RunAppends(st, queue, clock);
    if clock != [] {
      RunLastPass(st, queue, clock);
    }
  }

  lemma {:induction false} RunAppends(st: WorkerState, queue: seq<CommandMessage>, clock: seq<Clock>)
    requires forall k :: 0 <= k < |queue| && k < |clock| ==> queue[k].kind != Terminate
    ensures |Run(st, queue, clock).state.applied| == |st.applied| + |clock|
    ensures Run(st, queue, clock).state.applied[..|st.applied|] == st.applied
    decreases |clock|
  {
    if clock != [] {
      var st' := Pass(NextSchedule(st, queue), st.applied, clock[0]);
      var queue' := if queue == [] then [] else queue[1..];
      RunAppends(st', queue', clock[1..]);
      var applied' := Run(st', queue', clock[1..]).state.applied;
      assert applied'[..|st.applied|] == applied'[..|st.applied| + 1][..|st.applied|];
    }
  }

  lemma {:induction false} RunLastPass(st: WorkerState, queue: seq<CommandMessage>, clock: seq<Clock>)
    requires forall k :: 0 <= k < |queue| && k < |clock| ==> queue[k].kind != Terminate
    requires clock != []
    ensures var r := Run(st, queue, clock).state;
      && |r.applied| == |st.applied| + |clock|
      && r.nextUpdate == Resolve(r.schedule, clock[|clock| - 1]).delay
      && r.applied[|st.applied| + |clock| - 1] == Resolve(r.schedule, clock[|clock| - 1]).temperature
    decreases |clock|
  {
    var st' := Pass(NextSchedule(st, queue), st.applied, clock[0]);
    var queue' := if queue == [] then [] else queue[1..];
    if |clock| > 1 {
      RunLastPass(st', queue', clock[1..]);
      assert clock[1..][|clock| - 2] == clock[|clock| - 1];
    }
  }

  /**
   * When the k-th queued command is the first TERMINATE and the loop gets that
   * far, it stops there: it made k passes, ends with the schedule of the last
   * UPDATE before the TERMINATE, and leaves every later command unread.
   */
  lemma {:induction false} RunStopsAtTerminate(st: WorkerState, queue: seq<CommandMessage>, clock: seq<Clock>, k: nat)
    requires k < |queue| && k < |clock| && queue[k].kind == Terminate
    requires forall j :: 0 <= j < k ==> queue[j].kind != Terminate
    ensures var r := Run(st, queue, clock);
      && r.terminated
      && r.pending == queue[k + 1..]
      && r.state.schedule == ScheduleAfter(st.schedule, queue[..k])
      && |r.state.applied| == |st.applied| + k
    decreases k
  {
    if k > 0 {
      var st' := Pass(NextSchedule(st, queue), st.applied, clock[0]);
      RunStopsAtTerminate(st', queue[1..], clock[1..], k - 1);
      assert queue[..k] == [queue[0]] + queue[1..][..k - 1];
      assert queue[1..][k..] == queue[k + 1..];
    } else {
      assert queue[..0] == [];
    }
  }

  /** Valid entry times and temperatures within 1000-25000 K. */
  predicate ValidSchedule(schedule: ScheduleList) {
    ValidEntries(schedule) &&
    forall i :: 0 <= i < |schedule| ==> 1000 <= schedule[i].temperature <= 25000
  }

  predicate ValidCommands(queue: seq<CommandMessage>) {
    forall i :: 0 <= i < |queue| ==> ValidSchedule(queue[i].schedule)
  }

  predicate ValidWorkerState(st: WorkerState) {
    && ValidSchedule(st.schedule)
    && 1 <= st.nextUpdate <= Day
    && forall i :: 0 <= i < |st.applied| ==> 1000 <= st.applied[i] <= 25000
  }

  /**
   * With validated schedules and valid clock readings the loop keeps its wait
   * between one second and one day and only ever applies temperatures in
   * 1000-25000 K (6500 K when the schedule is empty).
   */
  lemma {:induction false} RunKeepsStateValid(st: WorkerState, queue: seq<CommandMessage>, clock: seq<Clock>)
    requires ValidWorkerState(st) && ValidCommands(queue)
    requires forall i :: 0 <= i < |clock| ==> ValidClock(clock[i])
    ensures ValidWorkerState(Run(st, queue, clock).state)
    decreases |clock|
  {
    if clock != [] && !(queue != [] && queue[0].kind == Terminate) {
      var schedule := NextSchedule(st, queue);
      DelayInRange(schedule, clock[0]);
      var st' := Pass(schedule, st.applied, clock[0]);
      assert ValidWorkerState(st');
      RunKeepsStateValid(st', if queue == [] then [] else queue[1..], clock[1..]);
    }
  }
}
