/** The hierarchical timing wheel: the timer's fields and the methods that update them. */
module TimingWheel {
  import opened Division
  import opened Sequences
  import opened TimingWheelArithmetic
  import opened TimingWheelState
  import opened Sorting

  datatype Wheel = Wheel(curSlotIndex: nat, slots: seq<seq<Ptr>>)

  /** What a callback may do to the timer. */
  datatype TimerOp = AddOp(ms: nat, isRepeat: bool) | DelOp(id: int)

  /** What timer operations act on, the tasks and their ids, and the log of what has happened. */
  datatype Table = Table(heap: map<Ptr, TimerTask>, ids: map<int, Ptr>, nextId: nat, nextPtr: Ptr, log: seq<Event>)

  datatype Clock = Clock(n: nat, interval: nat, frame: nat)

  /** A timer operation in a frame: a new task under a new id, if its delay fits; or a mark, and an id forgotten. */
  ghost function AfterOp(c: Clock, t: Table, op: TimerOp): Table
    requires c.interval >= 1
  {
    match op
    case AddOp(ms, isRepeat) =>
      var delay := DelayFrames(c.interval, ms);
      if delay >= Capacity(c.n) then t
      else Table(t.heap[t.nextPtr := TimerTask(ms, c.frame * c.interval + ms, c.frame + delay, isRepeat, false)],
                 t.ids[t.nextId := t.nextPtr], t.nextId + 1, t.nextPtr + 1, t.log + [Armed(t.nextPtr, c.frame, delay)])
    case DelOp(id) =>
      if id in t.ids && t.ids[id] in t.heap
      then t.(heap := t.heap[t.ids[id] := t.heap[t.ids[id]].(isCanceled := true)], ids := t.ids - {id},
              log := t.log + [Cancelled(t.ids[id], c.frame)])
      else t.(ids := t.ids - {id})
  }

  ghost function AfterOps(c: Clock, t: Table, ops: seq<TimerOp>): Table
    requires c.interval >= 1
  {
    if ops == [] then t else AfterOp(c, AfterOps(c, t, ops[..|ops| - 1]), ops[|ops| - 1])
  }

  /** A task's callback is about to run. */
  ghost function Begun(c: Clock, t: Table, p: Ptr): Table
    requires c.interval >= 1
  {
    if p in t.heap then t.(log := t.log + [Fired(p, c.frame, 0, t.heap[p].timeoutMs, Again(c.interval, t.heap[p]))])
        else t
  }

  /** A repeat task gets its next timeout and is armed again, a one-shot task goes. */
  ghost function Finished(c: Clock, t: Table, p: Ptr): Table
    requires c.interval >= 1
  {
    if p in t.heap && t.heap[p].isRepeat
    then t.(heap := t.heap[p := t.heap[p].(timeoutFrame := c.frame + DelayFrames(c.interval, t.heap[p].interval),
                                           timeoutMs := c.frame * c.interval + t.heap[p].interval)],
            log := t.log + [Armed(p, c.frame, DelayFrames(c.interval, t.heap[p].interval))])
    else t.(heap := t.heap - {p})
  }

  /** A slot's tasks, one after the other: cancelled ones go, the others run their callbacks. */
  ghost function AfterTasks(c: Clock, t: Table, tasks: seq<Ptr>, callbacks: (Ptr, nat) -> seq<TimerOp>): Table
    requires c.interval >= 1
  {
    if tasks == [] then t
    else
      var before, p := AfterTasks(c, t, tasks[..|tasks| - 1], callbacks), tasks[|tasks| - 1];
      if p in before.heap && before.heap[p].isCanceled then before.(heap := before.heap - {p})
      else Finished(c, AfterOps(c, Begun(c, before, p), callbacks(p, c.frame)), p)
  }

  lemma AfterAdd(c: Clock, t: Table, ms: nat, isRepeat: bool)
    requires c.interval >= 1
    ensures var delay := DelayFrames(c.interval, ms);
            AfterOp(c, t, AddOp(ms, isRepeat))
              == if delay >= Capacity(c.n) then t
                 else Table(t.heap[t.nextPtr := TimerTask(ms, c.frame * c.interval + ms, c.frame + delay, isRepeat,
                                                          false)],
                            t.ids[t.nextId := t.nextPtr], t.nextId + 1, t.nextPtr + 1,
                            t.log + [Armed(t.nextPtr, c.frame, delay)])
  {
  }

  lemma OthersStay(c: Clock, t: Table, p: Ptr)
    requires c.interval >= 1
    ensures forall x :: x in t.heap && x != p ==> x in Finished(c, t, p).heap && Finished(c, t, p).heap[x] == t.heap[x]
  {
  }

  lemma TimedFromNow(interval: nat, frame: nat, ms: nat)
    requires interval >= 1
    ensures Timed(interval, frame, DelayFrames(interval, ms), frame * interval + ms)
    ensures InFrames(interval, ms, DelayFrames(interval, ms))
  {
  }

  lemma AfterNoOps(c: Clock, t: Table)
    requires c.interval >= 1
    ensures AfterOps(c, t, []) == t
  {
  }

  lemma OneMoreOp(c: Clock, t: Table, ops: seq<TimerOp>, i: nat)
    requires c.interval >= 1 && i < |ops|
    ensures AfterOps(c, t, ops[..i + 1]) == AfterOp(c, AfterOps(c, t, ops[..i]), ops[i])
  {
    assert ops[..i + 1][..i] == ops[..i];
  }

  lemma AfterNoTasks(c: Clock, t: Table, callbacks: (Ptr, nat) -> seq<TimerOp>)
    requires c.interval >= 1
    ensures AfterTasks(c, t, [], callbacks) == t
  {
  }

  lemma OneMoreTask(c: Clock, t: Table, tasks: seq<Ptr>, i: nat, callbacks: (Ptr, nat) -> seq<TimerOp>)
    requires c.interval >= 1 && i < |tasks|
    ensures var before := AfterTasks(c, t, tasks[..i], callbacks);
            AfterTasks(c, t, tasks[..i + 1], callbacks)
              == if tasks[i] in before.heap && before.heap[tasks[i]].isCanceled
                  then before.(heap := before.heap - {tasks[i]})
                 else Finished(c, AfterOps(c, Begun(c, before, tasks[i]), callbacks(tasks[i], c.frame)), tasks[i])
  {
    assert tasks[..i + 1][..i] == tasks[..i];
  }

  /** Frames one after the other: the k-th of them runs the tasks in `orders[k]`. */
  ghost function AfterFrames(c: Clock, t: Table, orders: seq<seq<Ptr>>, callbacks: (Ptr, nat) -> seq<TimerOp>): Table
    requires c.interval >= 1
  {
    if orders == [] then t
    else AfterTasks(c.(frame := c.frame + |orders|), AfterFrames(c, t, orders[..|orders| - 1], callbacks),
                    orders[|orders| - 1], callbacks)
  }

  lemma AfterNoFrames(c: Clock, t: Table, callbacks: (Ptr, nat) -> seq<TimerOp>)
    requires c.interval >= 1
    ensures AfterFrames(c, t, [], callbacks) == t
  {
  }

  lemma OneMoreFrame(c: Clock, t: Table, orders: seq<seq<Ptr>>, order: seq<Ptr>,
                     callbacks: (Ptr, nat) -> seq<TimerOp>)
    requires c.interval >= 1
    ensures AfterFrames(c, t, orders + [order], callbacks)
         == AfterTasks(c.(frame := c.frame + |orders| + 1), AfterFrames(c, t, orders, callbacks), order, callbacks)
  {
    hide AfterTasks;
    assert (orders + [order])[..|orders|] == orders;
  }

  /** What a callback asks for happens in its frame: every addition that fits is armed, with its delay. */
  lemma {:induction false} OpLogged(c: Clock, t: Table, ops: seq<TimerOp>, i: nat)
    requires c.interval >= 1 && i < |ops| && ops[i].AddOp? && DelayFrames(c.interval, ops[i].ms) < Capacity(c.n)
    ensures t.log <= AfterOps(c, t, ops).log
    ensures exists k, p :: |t.log| <= k < |AfterOps(c, t, ops).log|
                           && AfterOps(c, t, ops).log[k] == Armed(p, c.frame, DelayFrames(c.interval, ops[i].ms))
  {
    hide DelayFrames, Capacity;
    var front := ops[..|ops| - 1];
    var before := AfterOps(c, t, front);
    LogGrows(c, t, front);
    if i < |front| {
      OpLogged(c, t, front, i);
      var k, p :| |t.log| <= k < |before.log| && before.log[k] == Armed(p, c.frame, DelayFrames(c.interval, ops[i].ms));
      assert AfterOps(c, t, ops).log[k] == before.log[k];
    } else {
      assert AfterOps(c, t, ops).log[|before.log|] == Armed(before.nextPtr, c.frame,
                                                            DelayFrames(c.interval, ops[i].ms));
    }
  }

  lemma {:induction false} LogGrows(c: Clock, t: Table, ops: seq<TimerOp>)
    requires c.interval >= 1
    ensures t.log <= AfterOps(c, t, ops).log
  {
    hide DelayFrames, Capacity;
    if ops != [] { LogGrows(c, t, ops[..|ops| - 1]); }
  }

  /** Each task of a slot that has not been cancelled when its turn comes runs its callback, to the end and with nothing
      in between. */
  lemma {:induction false} CallbacksRun(c: Clock, t: Table, tasks: seq<Ptr>, callbacks: (Ptr, nat) -> seq<TimerOp>,
                                        i: nat)
    requires c.interval >= 1 && i < |tasks|
    ensures var before, p := AfterTasks(c, t, tasks[..i], callbacks), tasks[i];
            p in before.heap && !before.heap[p].isCanceled ==>
              AfterOps(c, Begun(c, before, p), callbacks(p, c.frame)).log <= AfterTasks(c, t, tasks, callbacks).log
  {
    hide AfterOps, Begun;
    OneMoreTask(c, t, tasks, i, callbacks);
    TasksLog(c, t, tasks, i + 1, callbacks);
  }

  lemma {:induction false} TasksLog(c: Clock, t: Table, tasks: seq<Ptr>, i: nat,
                                    callbacks: (Ptr, nat) -> seq<TimerOp>)
    requires c.interval >= 1 && i <= |tasks|
    ensures AfterTasks(c, t, tasks[..i], callbacks).log <= AfterTasks(c, t, tasks, callbacks).log
  {
    if i == |tasks| {
      assert tasks[..i] == tasks;
    } else {
      var front, p := tasks[..|tasks| - 1], tasks[|tasks| - 1];
      TasksLog(c, t, front, i, callbacks);
      assert front[..i] == tasks[..i];
      var before := AfterTasks(c, t, front, callbacks);
      LogGrows(c, Begun(c, before, p), callbacks(p, c.frame));
      hide AfterOps;
    }
  }

  /** The later log goes on from the earlier one without a cancellation. */
  ghost predicate NoneCancelled(log: seq<Event>, log': seq<Event>) {
    log <= log' && forall j :: |log| <= j < |log'| ==> !log'[j].Cancelled?
  }

  /** Callbacks that may add timers, but delete none. */
  ghost predicate DeletesNothing(callbacks: (Ptr, nat) -> seq<TimerOp>) {
    forall p, f, op :: op in callbacks(p, f) ==> op.AddOp?
  }

  lemma {:induction false} AddingCancelsNothing(c: Clock, t: Table, ops: seq<TimerOp>)
    requires c.interval >= 1 && forall op :: op in ops ==> op.AddOp?
    ensures NoneCancelled(t.log, AfterOps(c, t, ops).log)
  {
    if ops != [] {
      AddingCancelsNothing(c, t, ops[..|ops| - 1]);
    }
  }

  lemma RunCancelsNothing(c: Clock, t: Table, p: Ptr, ops: seq<TimerOp>)
    requires c.interval >= 1 && forall op :: op in ops ==> op.AddOp?
    ensures NoneCancelled(t.log, Finished(c, AfterOps(c, Begun(c, t, p), ops), p).log)
  {
    AddingCancelsNothing(c, Begun(c, t, p), ops);
    hide AfterOps;
  }

  /** While callbacks delete nothing, running a slot cancels nothing. */
  lemma {:induction false} TasksCancelNothing(c: Clock, t: Table, tasks: seq<Ptr>,
                                              callbacks: (Ptr, nat) -> seq<TimerOp>)
    requires c.interval >= 1 && DeletesNothing(callbacks)
    ensures NoneCancelled(t.log, AfterTasks(c, t, tasks, callbacks).log)
  {
    hide AfterOps, Finished, Begun;
    if tasks != [] {
      var front, p := tasks[..|tasks| - 1], tasks[|tasks| - 1];
      TasksCancelNothing(c, t, front, callbacks);
      RunCancelsNothing(c, AfterTasks(c, t, front, callbacks), p, callbacks(p, c.frame));
    }
  }

  /** Nor do any number of frames. */
  lemma {:induction false} FramesCancelNothing(c: Clock, t: Table, orders: seq<seq<Ptr>>,
                                               callbacks: (Ptr, nat) -> seq<TimerOp>)
    requires c.interval >= 1 && DeletesNothing(callbacks)
    ensures NoneCancelled(t.log, AfterFrames(c, t, orders, callbacks).log)
  {
    hide AfterTasks, DeletesNothing;
    if orders != [] {
      var front := orders[..|orders| - 1];
      FramesCancelNothing(c, t, front, callbacks);
      TasksCancelNothing(c.(frame := c.frame + |orders|), AfterFrames(c, t, front, callbacks), orders[|orders| - 1],
                         callbacks);
    }
  }

  /** Every task that has not been cancelled has an id to cancel it by, and no two ids name one task. */
  ghost predicate Reachable(t: Table) {
    && (forall p :: p in t.heap ==> p < t.nextPtr && (t.heap[p].isCanceled || exists id ::
          && id in t.ids
          && t.ids[id] == p))
    && (forall a, b :: a in t.ids && b in t.ids && t.ids[a] == t.ids[b] ==> a == b)
    && (forall id :: id in t.ids ==> id < t.nextId && t.ids[id] < t.nextPtr)
  }

  lemma OpKeepsReachable(c: Clock, t: Table, op: TimerOp)
    requires c.interval >= 1 && Reachable(t)
    ensures Reachable(AfterOp(c, t, op))
  {
    hide DelayFrames, Capacity;
    var t' := AfterOp(c, t, op);
    forall p | p in t'.heap && !t'.heap[p].isCanceled ensures exists id :: id in t'.ids && t'.ids[id] == p {
      if p in t.heap && !t.heap[p].isCanceled {
        var id :| id in t.ids && t.ids[id] == p;
        assert id in t'.ids && t'.ids[id] == p;
      } else {
        assert t'.ids[t.nextId] == p;
      }
    }
  }

  lemma {:induction false} OpsKeepReachable(c: Clock, t: Table, ops: seq<TimerOp>)
    requires c.interval >= 1 && Reachable(t)
    ensures Reachable(AfterOps(c, t, ops))
  {
    hide AfterOp, Reachable;
    if ops != [] {
      OpsKeepReachable(c, t, ops[..|ops| - 1]);
      OpKeepsReachable(c, AfterOps(c, t, ops[..|ops| - 1]), ops[|ops| - 1]);
    }
  }

  /** A change of the heap that adds no task and leaves the marks. */
  lemma StaysReachable(t: Table, t': Table)
    requires Reachable(t) && t'.ids == t.ids && t'.nextId == t.nextId && t'.nextPtr == t.nextPtr
    requires forall p :: p in t'.heap ==> p in t.heap && t'.heap[p].isCanceled == t.heap[p].isCanceled
    ensures Reachable(t')
  {
  }

  lemma {:induction false} TasksKeepReachable(c: Clock, t: Table, tasks: seq<Ptr>,
                                              callbacks: (Ptr, nat) -> seq<TimerOp>)
    requires c.interval >= 1 && Reachable(t)
    ensures Reachable(AfterTasks(c, t, tasks, callbacks))
  {
    hide AfterOps, Reachable, DelayFrames;
    if tasks != [] {
      var front, p := tasks[..|tasks| - 1], tasks[|tasks| - 1];
      TasksKeepReachable(c, t, front, callbacks);
      var before := AfterTasks(c, t, front, callbacks);
      if p in before.heap && before.heap[p].isCanceled {
        StaysReachable(before, before.(heap := before.heap - {p}));
      } else {
        var begun := Begun(c, before, p);
        StaysReachable(before, begun);
        OpsKeepReachable(c, begun, callbacks(p, c.frame));
        var ran := AfterOps(c, begun, callbacks(p, c.frame));
        StaysReachable(ran, Finished(c, ran, p));
      }
    }
  }

  /** Over any run, whoever holds the id of a timer that has not been cancelled can cancel it, and no other. */
  lemma {:induction false} FramesKeepReachable(c: Clock, t: Table, orders: seq<seq<Ptr>>,
                                               callbacks: (Ptr, nat) -> seq<TimerOp>)
    requires c.interval >= 1 && Reachable(t)
    ensures Reachable(AfterFrames(c, t, orders, callbacks))
  {
    hide AfterTasks, Reachable;
    if orders != [] {
      var front := orders[..|orders| - 1];
      FramesKeepReachable(c, t, front, callbacks);
      TasksKeepReachable(c.(frame := c.frame + |orders|), AfterFrames(c, t, front, callbacks), orders[|orders| - 1],
                         callbacks);
    }
  }

  function TimeoutKey(heap: map<Ptr, TimerTask>): Ptr -> int {
    (p: Ptr) => if p in heap then heap[p].timeoutMs else 0
  }

  ghost predicate ByTimeout(s: seq<Ptr>, heap: map<Ptr, TimerTask>) {
    (forall p :: p in s ==> p in heap) && SortedBy(s, TimeoutKey(heap))
  }

  lemma ByTimeoutKept(s: seq<Ptr>, heap: map<Ptr, TimerTask>, heap': map<Ptr, TimerTask>)
    requires ByTimeout(s, heap) && forall p :: p in s && p in heap ==>
               && p in heap'
               && heap'[p].timeoutMs == heap[p].timeoutMs
    ensures ByTimeout(s, heap')
  {
  }

  lemma StaysTimed(s: seq<Ptr>, heap: map<Ptr, TimerTask>, heap': map<Ptr, TimerTask>, p: Ptr)
    requires ByTimeout(s, heap) && p !in s && forall x :: x in heap && x != p ==> x in heap' && heap'[x] == heap[x]
    ensures ByTimeout(s, heap')
  {
    ByTimeoutKept(s, heap, heap');
  }

  lemma NextIsAllocated(s: seq<Ptr>, i: nat, heap: map<Ptr, TimerTask>)
    requires i < |s| && ByTimeout(s[i..], heap)
    ensures s[i] in heap
  {
    assert s[i..][0] == s[i];
  }

  ghost predicate WellFormed(n: nat, wheels: seq<Wheel>, visiting: int, done: nat) {
    && n >= 1 && |wheels| == WHEEL_COUNT
    && (forall w :: 0 <= w < 3 ==> |wheels[w].slots| == n && wheels[w].curSlotIndex < n)
    && -1 <= visiting < 3 && (visiting == -1 ==> done == 0)
    && (visiting >= 0 ==> done <= |wheels[visiting].slots[wheels[visiting].curSlotIndex]|)
  }

  /** A slot without what the running visit has processed. */
  ghost function Remaining(n: nat, wheels: seq<Wheel>, visiting: int, done: nat, w: nat, s: nat): seq<Ptr>
    requires WellFormed(n, wheels, visiting, done) && w < 3 && s < n
  {
    if w == visiting && s == wheels[w].curSlotIndex then wheels[w].slots[s][done..] else wheels[w].slots[s]
  }

  ghost function PendingSlots(n: nat, wheels: seq<Wheel>, visiting: int, done: nat): (r: seq<seq<seq<Ptr>>>)
    requires WellFormed(n, wheels, visiting, done)
    ensures |r| == 3 && forall w :: 0 <= w < 3 ==> |r[w]| == n
    ensures forall w, s :: 0 <= w < 3 && 0 <= s < n ==> r[w][s] == Remaining(n, wheels, visiting, done, w, s)
  {
    seq(3, w requires 0 <= w < 3 => seq(n, s requires 0 <= s < n => Remaining(n, wheels, visiting, done, w, s)))
  }

  function Pushed(wheels: seq<Wheel>, w: nat, s: nat, p: Ptr): seq<Wheel>
    requires w < |wheels| && s < |wheels[w].slots|
  {
    wheels[w := wheels[w].(slots := wheels[w].slots[s := wheels[w].slots[s] + [p]])]
  }

  lemma PushedElsewhere(wheels: seq<Wheel>, w: nat, s: nat, p: Ptr, visiting: nat)
    requires w < |wheels| && s < |wheels[w].slots| && visiting < |wheels|
    requires wheels[visiting].curSlotIndex < |wheels[visiting].slots|
    requires !(w == visiting && s == wheels[w].curSlotIndex)
    ensures var wheels' := Pushed(wheels, w, s, p);
            && |wheels'| == |wheels| && (forall i :: 0 <= i < |wheels| ==>
                                         wheels'[i].curSlotIndex == wheels[i].curSlotIndex)
            && |wheels'[visiting].slots| == |wheels[visiting].slots|
            && var t := wheels[visiting].curSlotIndex;
            wheels'[visiting].slots[t] == wheels[visiting].slots[t]
  {
  }

  /** Appending to a slot other than the one being processed. */
  lemma PushAppends(n: nat, wheels: seq<Wheel>, visiting: int, done: nat, w: nat, s: nat, p: Ptr)
    requires WellFormed(n, wheels, visiting, done) && w < 3 && s < n && !(w == visiting && s == wheels[w].curSlotIndex)
    ensures var wheels' := Pushed(wheels, w, s, p);
            && WellFormed(n, wheels', visiting, done)
            && var before := PendingSlots(n, wheels, visiting, done);
            && PendingSlots(n, wheels', visiting, done) == before[w := before[w][s := before[w][s] + [p]]]
            && (forall i :: 0 <= i < 3 ==> wheels'[i].curSlotIndex == wheels[i].curSlotIndex)
            && (visiting >= 0 ==>
                  var t := wheels[visiting].curSlotIndex;
                  wheels'[visiting].slots[t] == wheels[visiting].slots[t])
  {
    var wheels' := Pushed(wheels, w, s, p);
    var before := PendingSlots(n, wheels, visiting, done);
    var after := before[w := before[w][s := before[w][s] + [p]]];
    forall i | 0 <= i < 3 ensures PendingSlots(n, wheels', visiting, done)[i] == after[i] {
      forall j | 0 <= j < n ensures PendingSlots(n, wheels', visiting, done)[i][j] == after[i][j] {}
    }
  }

  /** The books after filing a task. */
  lemma ScheduledBooks(v: View, wheels: seq<Wheel>, done: nat, p: Ptr, task: TimerTask, delay: nat, w: nat, s: nat)
    returns (v': View)
    requires WellFormed(v.n, wheels, v.visiting, done) && v.slots == PendingSlots(v.n, wheels, v.visiting, done)
    requires Inv(v) && AcceptsTimers(v) && v.capacity == Capacity(v.n) && 1 <= delay < v.capacity
    requires p == v.nextPtr || p in v.flying
    requires task.timeoutFrame == v.frame + delay && (task.isCanceled <==> p in v.cancelledAt)
    requires task.isRepeat ==> DelayFrames(v.interval, task.interval) == delay
    requires Timed(v.interval, v.frame, delay, task.timeoutMs)
    requires p in v.flying ==> p in v.heap && task.isRepeat && task.interval == v.heap[p].interval
    requires forall w :: 0 <= w < 3 ==> wheels[w].curSlotIndex == TurnOf(v, w) % v.n
    requires w == Placement(v.n, delay).0 < 3 && s == (wheels[w].curSlotIndex + Placement(v.n, delay).1) % v.n
    ensures WellFormed(v.n, Pushed(wheels, w, s, p), v.visiting, done)
    ensures v' == v.(slots := PendingSlots(v.n, Pushed(wheels, w, s, p), v.visiting, done),
                     heap := v.heap[p := task], nextPtr := if p == v.nextPtr then p + 1 else v.nextPtr,
                     flying := v.flying - {p}, pend := v'.pend, history := v.history + [Armed(p, v.frame, delay)])
    ensures Inv(v')
    ensures forall i :: 0 <= i < 3 ==> Pushed(wheels, w, s, p)[i].curSlotIndex == wheels[i].curSlotIndex
    ensures v.visiting >= 0 ==> Pushed(wheels, w, s, p)[v.visiting].slots[wheels[v.visiting].curSlotIndex]
                                 == wheels[v.visiting].slots[wheels[v.visiting].curSlotIndex]
  {
    hide Inv, Turn, PendingSlots, Capacity, Timed;
    InvShape(v);
    FitsExactly(v.n, delay);
    var k := Placement(v.n, delay).1;
    var q := TurnOf(v, w) + k;
    ModShift(TurnOf(v, w), k, v.n);
    ArmKeepsInv(v, p, task, w, q, delay);
    PushAppends(v.n, wheels, v.visiting, done, w, s, p);
    v' := Arm(v, p, task, w, q, delay);
  }

  /** The visited slot, and what is left of it. */
  lemma NextOfSlot(v: View, wheels: seq<Wheel>, done: nat)
    requires WellFormed(v.n, wheels, v.visiting, done) && v.slots == PendingSlots(v.n, wheels, v.visiting, done)
    requires Shape(v) && v.visiting >= 0 && wheels[v.visiting].curSlotIndex == TurnOf(v, v.visiting) % v.n
    ensures var s := wheels[v.visiting].curSlotIndex;
            var slot := wheels[v.visiting].slots[s];
            && v.slots[v.visiting][s] == slot[done..]
            && (done < |slot| ==>
                  && AtSlot(v, s) && v.slots[v.visiting][s][0] == slot[done]
                  && PendingSlots(v.n, wheels, v.visiting, done + 1)
                     == v.slots[v.visiting := v.slots[v.visiting][s := v.slots[v.visiting][s][1..]]])
  {
    var w, s := v.visiting, wheels[v.visiting].curSlotIndex;
    var slot := wheels[w].slots[s];
    assert v.slots[w][s] == Remaining(v.n, wheels, w, done, w, s);
    if done < |slot| {
      var after := v.slots[w := v.slots[w][s := v.slots[w][s][1..]]];
      forall i | 0 <= i < 3 ensures PendingSlots(v.n, wheels, w, done + 1)[i] == after[i] {
        forall j | 0 <= j < v.n ensures PendingSlots(v.n, wheels, w, done + 1)[i][j] == after[i][j] {
          assert Remaining(v.n, wheels, w, done + 1, i, j) == after[i][j];
        }
      }
    }
  }

  /** Every wheel's current slot is the one its advance count names. */
  ghost predicate AtTurns(wheels: seq<Wheel>, v: View) {
    && |wheels| == 3 && v.n >= 1 && (v.stage < 3 ==> v.frame >= 1)
    && forall w :: 0 <= w < 3 ==> wheels[w].curSlotIndex == TurnOf(v, w) % v.n
  }

  lemma StillAtTurns(wheels: seq<Wheel>, v: View, wheels': seq<Wheel>, v': View)
    requires AtTurns(wheels, v) && |wheels'| == 3 && v'.n == v.n && v'.frame == v.frame && v'.stage == v.stage
    requires forall i :: 0 <= i < 3 ==> wheels'[i].curSlotIndex == wheels[i].curSlotIndex
    ensures AtTurns(wheels', v')
  {
  }

  function EmptyWheels(n: nat): seq<Wheel> {
    seq(WHEEL_COUNT, w => Wheel(0, seq(n, s => [])))
  }

  /** The books of a new timer. */
  lemma EmptyBooks(interval: nat, n: nat)
    requires interval >= 1 && n >= 1
    ensures WellFormed(n, EmptyWheels(n), -1, 0) && PlainLog([]) == []
    ensures var v := View(n, Capacity(n), interval, 0, 3, -1, PendingSlots(n, EmptyWheels(n), -1, 0), map[], 0, map[],
                          {},
                          [], map[], map[]);
            Inv(v) && AtTurns(EmptyWheels(n), v)
  {
  }

  class WheelTimer {
    const interval: nat
    const maxSlots: nat
    var curFrame: nat
    var nextTimerId: nat
    var wheels: seq<Wheel>
    var id2task: map<int, Ptr>
    var leftMs: nat
    var msSinceStart: nat

    // The allocator: tasks are created and deleted by hand.
    var heap: map<Ptr, TimerTask>
    var nextPtr: Ptr

    // Bookkeeping of the proof: see TimingWheelState.View.
    ghost var pend: map<Ptr, Pending>
    ghost var flying: set<Ptr>
    ghost var history: seq<Event>
    ghost var firedAt: map<nat, nat>
    ghost var cancelledAt: map<Ptr, nat>
    ghost var stage: nat
    ghost var visiting: int
    ghost var done: nat

    ghost predicate Wheels()
      reads this
    {
      interval >= 1 && WellFormed(maxSlots, wheels, visiting, done)
    }

    ghost function Books(): View
      requires Wheels()
      reads this
    {
      View(maxSlots, Capacity(maxSlots), interval, curFrame, stage, visiting,
           PendingSlots(maxSlots, wheels, visiting, done), heap, nextPtr,
           pend, flying, history, firedAt, cancelledAt)
    }

    ghost predicate Valid()
      reads this
    {
      && Wheels() && Inv(Books())
      && AtTurns(wheels, Books())
      && (forall id :: id in id2task ==> 0 <= id < nextTimerId && id2task[id] < nextPtr)
    }

    /** The slot being processed. */
    ghost function Visited(): seq<Ptr>
      requires Wheels()
      reads this
    {
      if visiting >= 0 then wheels[visiting].slots[wheels[visiting].curSlotIndex] else []
    }

    ghost function Indexes(): seq<nat>
      requires Wheels()
      reads this
    {
      [wheels[0].curSlotIndex, wheels[1].curSlotIndex, wheels[2].curSlotIndex]
    }

    ghost function TableNow(): Table
      reads this
    {
      Table(heap, id2task, nextTimerId, nextPtr, PlainLog(history))
    }

    ghost function Now(): Clock
      reads this
    {
      Clock(maxSlots, interval, curFrame)
    }

    /** Between ticks nothing is half done, and frames plus the rest add up to the time since the start. */
    ghost predicate Idle()
      reads this
    {
      Valid() && stage == 3 && visiting == -1 && flying == {} && msSinceStart == curFrame * interval + leftMs
    }

    constructor (interval: nat, maxSlots: nat)
      requires interval >= 1 && maxSlots >= 1
      ensures Idle() && history == [] && curFrame == 0 && leftMs == 0 && msSinceStart == 0
      ensures this.interval == interval && this.maxSlots == maxSlots
      ensures TableNow() == Table(map[], map[], 0, 0, [])
    {
      this.interval, this.maxSlots := interval, maxSlots;
      curFrame, nextTimerId, leftMs, msSinceStart := 0, 0, 0, 0;
      hide Inv, PendingSlots, Capacity, AtTurns;
      EmptyBooks(interval, maxSlots);
      wheels := EmptyWheels(maxSlots);
      id2task, heap, nextPtr := map[], map[], 0;
      pend, flying, history, firedAt, cancelledAt := map[], {}, [], map[], map[];
      stage, visiting, done := 3, -1, 0;
    }

    /** The wheel and slot for a delay; false when the delay does not fit the wheels. */
    method CalculateSlotIndex(frameCount: nat) returns (ok: bool, wheelIndex: nat, slotIndex: nat)
      requires Wheels()
      ensures var (w, k) := Placement(maxSlots, frameCount);
              && (ok <==> k < maxSlots)
              && (ok ==> wheelIndex == w < 3 && slotIndex == (wheels[w].curSlotIndex + k) % maxSlots)
    {
      var slotCount := frameCount;
      wheelIndex, slotIndex := 0, 0;
      var i := 0;
      while i < WHEEL_COUNT
        invariant 0 <= i <= 2
        invariant slotCount == (if i == 0 then frameCount else if i == 1 then frameCount / maxSlots
                                else frameCount / maxSlots / maxSlots)
        invariant i >= 1 ==> frameCount >= maxSlots
        invariant i >= 2 ==> frameCount / maxSlots >= maxSlots
      {
        if slotCount >= maxSlots && i < WHEEL_COUNT - 1 {
          slotCount := slotCount / maxSlots;
        } else {
          wheelIndex := i;
          break;
        }
        i := i + 1;
      }
      if slotCount >= maxSlots {
        return false, wheelIndex, slotIndex;
      }
      slotIndex := (wheels[wheelIndex].curSlotIndex + slotCount) % maxSlots;
      return true, wheelIndex, slotIndex;
    }

    twostate predicate SameTime()
      reads this
    {
      curFrame == old(curFrame) && leftMs == old(leftMs) && msSinceStart == old(msSinceStart)
    }

    /** The fields that no timer operation outside a tick touches. */
    twostate predicate SameFrame()
      reads this
    {
      && SameTime() && stage == old(stage) && visiting == old(visiting) && done == old(done) && flying == old(flying)
      && firedAt == old(firedAt)
    }

    ghost predicate Bookable(p: Ptr, task: TimerTask, delay: nat)
      requires Wheels()
      reads this
    {
      && (p == nextPtr || p in flying)
      && task.timeoutFrame == curFrame + delay && (task.isCanceled <==> p in cancelledAt)
      && (task.isRepeat ==> DelayFrames(interval, task.interval) == delay)
      && Timed(interval, curFrame, delay, task.timeoutMs)
      && (p in flying ==> p in heap && task.isRepeat && task.interval == heap[p].interval)
    }

    /** Files a new or a flying task; false, and nothing changes, when the delay does not fit. */
    method Schedule(p: Ptr, task: TimerTask, delay: nat) returns (ok: bool)
      requires Valid() && AcceptsTimers(Books()) && delay >= 1 && Bookable(p, task, delay)
      modifies this`heap, this`nextPtr, this`wheels, this`pend, this`flying, this`history
      ensures Valid()
      ensures ok <==> delay < Capacity(maxSlots)
      ensures ok ==>
                && heap == old(heap)[p := task] && history == old(history) + [Armed(p, curFrame, delay)]
                && flying == old(flying) - {p} && nextPtr == (if p == old(nextPtr) then p + 1 else old(nextPtr))
      ensures !ok ==>
                && heap == old(heap) && history == old(history) && flying == old(flying) && nextPtr == old(nextPtr)
                && wheels == old(wheels)
      ensures Indexes() == old(Indexes()) && Visited() == old(Visited())
    {
      hide Timed, InFrames, Inv, Turn, PendingSlots, Capacity, DelayFrames, Placement;
      ghost var v := Books();
      InvShape(v);
      var w, s;
      ok, w, s := CalculateSlotIndex(delay);
      ghost var k := Placement(maxSlots, delay).1;
      FitsExactly(maxSlots, delay);
      if !ok {
        return;
      }
      ghost var v' := ScheduledBooks(v, wheels, done, p, task, delay, w, s);
      StillAtTurns(wheels, v, Pushed(wheels, w, s, p), v');
      FileTask(p, task, Pushed(wheels, w, s, p), v');
    }

    /** Stores a task and the wheels it has been pushed into. */
    method FileTask(p: Ptr, task: TimerTask, wheels': seq<Wheel>, ghost v': View)
      requires interval >= 1 && WellFormed(maxSlots, wheels', visiting, done) && Inv(v') && AtTurns(wheels', v')
      requires v' == View(maxSlots, Capacity(maxSlots), interval, curFrame, stage, visiting,
                          PendingSlots(maxSlots, wheels', visiting, done), heap[p := task],
                              if p == nextPtr then p + 1 else nextPtr,
                          v'.pend, v'.flying, v'.history, firedAt, cancelledAt)
      requires forall id :: id in id2task ==> 0 <= id < nextTimerId && id2task[id] < nextPtr
      modifies this`heap, this`nextPtr, this`wheels, this`pend, this`flying, this`history
      ensures Valid() && wheels == wheels' && heap == v'.heap && nextPtr == v'.nextPtr
      ensures flying == v'.flying && history == v'.history
    {
      hide Timed, InFrames, Inv, Turn, PendingSlots, Capacity, AtTurns, WellFormed;
      wheels := wheels';
      heap, nextPtr := heap[p := task], if p == nextPtr then p + 1 else nextPtr;
      flying, pend, history := v'.flying, v'.pend, v'.history;
      assert Books() == v';
    }

    /** Schedules a callback at least one frame ahead; -1 when the delay does not fit the wheels. */
    method AddTimer(ms: nat, isRepeat: bool) returns (timerId: int)
      requires Valid() && AcceptsTimers(Books())
      modifies this`heap, this`nextPtr, this`wheels, this`pend, this`flying, this`history, this`nextTimerId,
          this`id2task
      ensures Valid() && SameFrame() && cancelledAt == old(cancelledAt)
      ensures timerId == if DelayFrames(interval, ms) < Capacity(maxSlots) then old(nextTimerId) else -1
      ensures TableNow() == AfterOp(Now(), old(TableNow()), AddOp(ms, isRepeat))
      ensures timerId == -1 ==> history == old(history) && wheels == old(wheels)
      ensures timerId != -1 ==> history == old(history) + [Armed(old(nextPtr), curFrame, DelayFrames(interval, ms))]
                                && InFrames(interval, ms, history[|old(history)|].delay)
      ensures timerId !in old(id2task) && old(nextPtr) !in old(heap)
      ensures timerId != -1 ==> id2task == old(id2task)[timerId := old(nextPtr)] && old(nextPtr) in heap
                                && heap[old(nextPtr)].isRepeat == isRepeat && heap[old(nextPtr)].interval == ms
                                && heap[old(nextPtr)].timeoutMs == curFrame * interval + ms
      ensures Indexes() == old(Indexes()) && Visited() == old(Visited())
    {
      hide Timed, InFrames, Inv, Turn, PendingSlots, Capacity, WellFormed, DelayFrames, PlainLog, AfterOp, AtTurns,
          AcceptsTimers,
          Indexes,
          Visited;
      var delay := DelayFrames(interval, ms);
      var p := nextPtr;
      TimedFromNow(interval, curFrame, ms);
      PlainMore(history, Armed(p, curFrame, delay));
      AfterAdd(Now(), TableNow(), ms, isRepeat);
      var ok := ScheduleNew(TimerTask(ms, curFrame * interval + ms, curFrame + delay, isRepeat, false), delay);
      if !ok {
        return -1;
      }
      timerId := NewId(p);
    }

    /** The next id, for a task that exists. */
    method NewId(p: Ptr) returns (timerId: nat)
      requires Valid() && p < nextPtr
      modifies this`nextTimerId, this`id2task
      ensures Valid() && timerId == old(nextTimerId) && timerId !in old(id2task) && nextTimerId == timerId + 1
      ensures id2task == old(id2task)[timerId := p]
      ensures Indexes() == old(Indexes()) && Visited() == old(Visited())
    {
      hide Inv, Turn, PendingSlots, Capacity, WellFormed, AtTurns;
      timerId := nextTimerId;
      nextTimerId := nextTimerId + 1;
      id2task := id2task[timerId := p];
    }

    /** Files a task that has just been created. */
    method ScheduleNew(task: TimerTask, delay: nat) returns (ok: bool)
      requires Valid() && AcceptsTimers(Books()) && delay >= 1
      requires task.timeoutFrame == curFrame + delay && !task.isCanceled
               && (task.isRepeat ==> DelayFrames(interval, task.interval) == delay)
               && Timed(interval, curFrame, delay, task.timeoutMs)
      modifies this`heap, this`nextPtr, this`wheels, this`pend, this`flying, this`history
      ensures Valid() && flying == old(flying) && (ok <==> delay < Capacity(maxSlots)) && old(nextPtr) !in old(heap)
      ensures ok ==>
                && heap == old(heap)[old(nextPtr) := task]
                && history == old(history) + [Armed(old(nextPtr), curFrame, delay)]
                && nextPtr == old(nextPtr) + 1
      ensures !ok ==> heap == old(heap) && history == old(history) && nextPtr == old(nextPtr) && wheels == old(wheels)
      ensures Indexes() == old(Indexes()) && Visited() == old(Visited())
    {
      hide Timed, InFrames, Inv, Turn, PendingSlots, Capacity, WellFormed, DelayFrames;
      FreshPtr(Books());
      ok := Schedule(nextPtr, task, delay);
    }

    /** Marks the task of a live id; its id is forgotten either way. An id whose task has been deleted
        names freed memory, which is not modelled: nothing but the id changes. */
    method DelTimer(timerId: int)
      requires Valid() && AcceptsTimers(Books())
      modifies this`heap, this`cancelledAt, this`history, this`id2task
      ensures Valid() && SameFrame() && wheels == old(wheels)
      ensures TableNow() == AfterOp(Now(), old(TableNow()), DelOp(timerId)) && id2task == old(id2task) - {timerId}
      ensures history == old(history) + (if timerId in old(id2task) && old(id2task)[timerId] in old(heap)
                                         then [Cancelled(old(id2task)[timerId], curFrame)] else [])
    {
      hide Inv, Turn, PendingSlots, Capacity, PlainLog, WellFormed;
      if timerId in id2task {
        var p := id2task[timerId];
        if p in heap {
          PlainMore(history, Cancelled(p, curFrame));
          Mark(p);
        }
        id2task := id2task - {timerId};
      }
    }

    /** Marks a task as cancelled. */
    method Mark(p: Ptr)
      requires Valid() && AcceptsTimers(Books()) && p in heap
      modifies this`heap, this`cancelledAt, this`history
      ensures Valid() && heap == old(heap)[p := old(heap)[p].(isCanceled := true)]
              && history == old(history) + [Cancelled(p, curFrame)]
    {
      hide Inv, Turn, PendingSlots, Capacity, WellFormed;
      ghost var v := Books();
      InvShape(v);
      CancelKeepsInv(v, p);
      heap := heap[p := heap[p].(isCanceled := true)];
      cancelledAt := if p in cancelledAt then cancelledAt else cancelledAt[p := |history|];
      history := history + [Cancelled(p, curFrame)];
      assert Books() == Cancel(v, p);
    }

    method RunOp(op: TimerOp)
      requires Valid() && stage == 1 && visiting == 0
      modifies this
      ensures Valid() && SameFrame() && old(history) <= history && TableNow() == AfterOp(Now(), old(TableNow()), op)
      ensures Indexes() == old(Indexes()) && Visited() == old(Visited())
      ensures old(heap).Keys <= heap.Keys
      ensures forall p :: p in old(heap) ==> heap[p].(isCanceled := old(heap)[p].isCanceled) == old(heap)[p]
    {
      hide Inv, Turn, PendingSlots, Capacity, DelayFrames, WellFormed, PlainLog;
      match op
      case AddOp(ms, isRepeat) => var id := AddTimer(ms, isRepeat);
      case DelOp(id) => DelTimer(id);
    }

    /** A callback: any sequence of timer operations. */
    method RunCallback(ops: seq<TimerOp>)
      requires Valid() && stage == 1 && visiting == 0
      modifies this
      ensures Valid() && SameFrame() && old(history) <= history && TableNow() == AfterOps(Now(), old(TableNow()), ops)
      ensures Indexes() == old(Indexes()) && Visited() == old(Visited())
      ensures old(heap).Keys <= heap.Keys
      ensures forall p :: p in old(heap) ==> heap[p].(isCanceled := old(heap)[p].isCanceled) == old(heap)[p]
    {
      hide Inv, Turn, PendingSlots, Capacity, AfterOps, AfterOp, PlainLog;
      AfterNoOps(Now(), TableNow());
      for i := 0 to |ops|
        invariant Valid() && SameFrame() && old(history) <= history
                  && TableNow() == AfterOps(Now(), old(TableNow()), ops[..i])
        invariant Indexes() == old(Indexes()) && Visited() == old(Visited())
        invariant old(heap).Keys <= heap.Keys
        invariant forall p :: p in old(heap) ==> heap[p].(isCanceled := old(heap)[p].isCanceled) == old(heap)[p]
      {
        OneMoreOp(Now(), old(TableNow()), ops, i);
        RunOp(ops[i]);
      }
      assert ops[..|ops|] == ops;
    }

    /** The visit of a sorted slot of wheel 0 has come to this task. */
    ghost predicate AtTask(p: Ptr, tasks: seq<Ptr>)
      reads this
    {
      && Valid() && stage == 1 && visiting == 0 && flying == {}
      && tasks == Visited() && done < |tasks| && p == tasks[done] && ByTimeout(tasks[done..], heap)
    }

    /** A cancelled task is deleted when its slot comes up. */
    method DropTask(p: Ptr, ghost tasks: seq<Ptr>)
      requires AtTask(p, tasks) && p in heap && heap[p].isCanceled
      modifies this`heap, this`pend, this`done
      ensures Valid() && done == old(done) + 1 && heap == old(heap) - {p} && ByTimeout(tasks[done..], heap)
    {
      hide Inv, Turn, PendingSlots, Capacity, ByTimeout;
      ghost var v' := DroppedBooks(Books(), wheels, done, tasks);
      heap, pend, done := heap - {p}, v'.pend, done + 1;
      assert Books() == v';
    }

    /** Takes a live task out of the books just before its callback runs. */
    ghost method BookFiring(p: Ptr, tasks: seq<Ptr>)
      requires AtTask(p, tasks) && p in heap && !heap[p].isCanceled
      modifies this`pend, this`done, this`history, this`firedAt, this`flying
      ensures Valid() && done == old(done) + 1 && flying == {p} && ByTimeout(tasks[done..], heap) && p !in tasks[done..]
      ensures TableNow() == Begun(Now(), old(TableNow()), p)
      ensures p in old(pend) && history == old(history) + [Fired(p, curFrame, old(pend)[p].arming, heap[p].timeoutMs,
                                                                 Again(interval, heap[p]))]
    {
      hide Inv, Turn, PendingSlots, Capacity, NoDuplicates, ByTimeout, PlainLog;
      var v' := FiredBooks(Books(), wheels, done, tasks);
      PlainMore(history, Fired(p, curFrame, pend[p].arming, heap[p].timeoutMs, Again(interval, heap[p])));
      firedAt, flying, history := v'.firedAt, v'.flying, v'.history;
      pend, done := v'.pend, done + 1;
      assert Books() == v';
    }

    /** A task whose callback has returned: a repeat task is armed again, a one-shot one deleted. */
    method FinishTask(p: Ptr)
      requires Valid() && stage == 1 && visiting == 0 && flying == {p} && p in heap
      modifies this
      ensures Valid() && flying == {} && old(history) <= history && SameTime()
      ensures stage == old(stage) && visiting == old(visiting) && done == old(done)
      ensures Indexes() == old(Indexes()) && Visited() == old(Visited())
      ensures TableNow() == Finished(Now(), old(TableNow()), p)
      ensures old(heap)[p].isRepeat ==>
                && |history| == |old(history)| + 1 && history[|old(history)|].Armed?
                && InFrames(interval, old(heap)[p].interval, history[|old(history)|].delay)
    {
      hide Timed, InFrames, Inv, Turn, PendingSlots, Capacity, PlainLog, DelayFrames;
      ghost var v := Books();
      FlyingTask(v, p);
      if heap[p].isRepeat {
        var delay := DelayFrames(interval, heap[p].interval);
        TimedFromNow(interval, curFrame, heap[p].interval);
        PlainMore(history, Armed(p, curFrame, delay));
        var task := heap[p].(timeoutFrame := curFrame + delay, timeoutMs := curFrame * interval + heap[p].interval);
        var ok := Schedule(p, task, delay);
        if !ok {
          assert false;
        }
      } else {
        FreeKeepsInv(v, p);
        heap, flying := heap - {p}, flying - {p};
        assert Books() == Free(v, p);
      }
    }

    /** Runs one task's callback, then re-arms or deletes the task. */
    method RunTask(p: Ptr, ghost tasks: seq<Ptr>, ops: seq<TimerOp>)
      requires AtTask(p, tasks) && p in heap && !heap[p].isCanceled
      modifies this
      ensures Valid() && stage == 1 && visiting == 0 && flying == {} && done == old(done) + 1 && old(history) <= history
      ensures SameTime() && Indexes() == old(Indexes()) && Visited() == tasks
      ensures ByTimeout(tasks[done..], heap)
      ensures TableNow() == Finished(Now(), AfterOps(Now(), Begun(Now(), old(TableNow()), p), ops), p)
    {
      hide Inv, Turn, PendingSlots, Capacity, WellFormed, ByTimeout, AfterOps, Begun, PlainLog, Finished;
      BookFiring(p, tasks);
      ghost var rest := tasks[done..];
      RunCallback(ops);
      ByTimeoutKept(rest, old(heap), heap);
      label Returned:
      OthersStay(Now(), TableNow(), p);
      FinishTask(p);
      StaysTimed(rest, old@Returned(heap), heap, p);
    }

    /** The next task of the slot: dropped if it has been cancelled, else run. */
    method RunOrDrop(p: Ptr, ghost tasks: seq<Ptr>, ops: seq<TimerOp>)
      requires AtTask(p, tasks) && p in heap
      modifies this
      ensures Valid() && stage == 1 && visiting == 0 && flying == {} && done == old(done) + 1 && old(history) <= history
      ensures SameTime() && Indexes() == old(Indexes()) && Visited() == tasks
      ensures ByTimeout(tasks[done..], heap)
      ensures TableNow() == if old(heap)[p].isCanceled then old(TableNow()).(heap := old(heap) - {p})
                            else Finished(Now(), AfterOps(Now(), Begun(Now(), old(TableNow()), p), ops), p)
    {
      hide Inv, Turn, PendingSlots, Capacity, WellFormed, ByTimeout, AfterOps, Finished, Begun, PlainLog;
      if heap[p].isCanceled {
        DropTask(p, tasks);
      } else {
        RunTask(p, tasks, ops);
      }
    }

    /** Puts the tasks of wheel 0's current slot in timeout order. */
    method SortSlot() returns (tasks: seq<Ptr>)
      requires Valid() && visiting == 0 && done == 0
      modifies this`wheels
      ensures Valid() && Indexes() == old(Indexes()) && Visited() == tasks && ByTimeout(tasks, heap)
      ensures multiset(tasks) == multiset(old(Visited()))
    {
      hide Inv, Turn, PendingSlots, Capacity;
      var slotIndex := wheels[0].curSlotIndex;
      ghost var v := Books();
      SlotIsAllocated(v, wheels, slotIndex);
      tasks := Sort(wheels[0].slots[slotIndex], TimeoutKey(heap));
      SameMembers(tasks, wheels[0].slots[slotIndex]);
      SortedBooks(v, wheels, slotIndex, tasks);
      wheels := wheels[0 := wheels[0].(slots := wheels[0].slots[slotIndex := tasks])];
    }

    /** Empties a slot whose tasks have all been processed. */
    method ClearSlot(w: nat, s: nat)
      requires Valid() && visiting == w && s == wheels[w].curSlotIndex && done == |Visited()|
      modifies this`wheels, this`visiting, this`done
      ensures Valid() && Indexes() == old(Indexes()) && visiting == -1 && wheels[w].slots[s] == []
    {
      hide Inv, Turn, PendingSlots, Capacity;
      ghost var v := Books();
      ClearedBooks(v, wheels, done);
      wheels := wheels[w := wheels[w].(slots := wheels[w].slots[s := []])];
      visiting, done := -1, 0;
      assert Books() == Leave(v);
    }

    /** Runs the current slot of wheel 0 in timeout order. `callbacks(p, f)` is what the callback of task p
        does when it runs in frame f. */
    method RunTimers(slotIndex: nat, callbacks: (Ptr, nat) -> seq<TimerOp>) returns (ghost order: seq<Ptr>)
      requires Valid() && stage == 1 && visiting == 0 && done == 0 && flying == {}
               && slotIndex == wheels[0].curSlotIndex
      modifies this
      ensures Valid() && stage == 1 && visiting == -1 && flying == {} && old(history) <= history
      ensures SameTime() && Indexes() == old(Indexes())
      ensures multiset(order) == multiset(old(Visited())) && ByTimeout(order, old(heap))
      ensures TableNow() == AfterTasks(Now(), old(TableNow()), order, callbacks) && wheels[0].slots[slotIndex] == []
    {
      hide Inv, Turn, PendingSlots, Capacity, WellFormed, ByTimeout, AfterTasks, AfterOps, Finished, Begun, PlainLog;
      var tasks := SortSlot();
      order := tasks;
      var i := 0;
      AfterNoTasks(Now(), TableNow(), callbacks);
      while i < |tasks|
        invariant i <= |tasks|
        invariant Valid() && stage == 1 && visiting == 0 && done == i && flying == {} && old(history) <= history
        invariant SameTime() && Indexes() == old(Indexes()) && Visited() == tasks
        invariant ByTimeout(tasks[i..], heap) && TableNow() == AfterTasks(Now(), old(TableNow()), tasks[..i], callbacks)
      {
        OneMoreTask(Now(), old(TableNow()), tasks, i, callbacks);
        NextIsAllocated(tasks, i, heap);
        RunOrDrop(tasks[i], tasks, callbacks(tasks[i], curFrame));
        i := i + 1;
      }
      assert tasks[..i] == tasks;
      ClearSlot(0, slotIndex);
    }

    /** Moves the next task of the visited slot. */
    method MoveTask(p: Ptr)
      requires Valid() && 1 <= visiting <= 2 && flying == {} && done < |Visited()| && p == Visited()[done]
      modifies this`wheels, this`pend, this`done
      ensures Valid() && done == old(done) + 1 && Indexes() == old(Indexes()) && Visited() == old(Visited())
    {
      hide Inv, Turn, PendingSlots, Capacity, Placement, Pushed;
      ghost var v := Books();
      ghost var v', w', s' := CascadedBooks(v, wheels, done, p);
      var delay := heap[p].timeoutFrame - curFrame;
      var ok, w, s := CalculateSlotIndex(delay);
      if ok {
        PushedElsewhere(wheels, w, s, p, visiting);
        StillAtTurns(wheels, v, Pushed(wheels, w, s, p), v');
        Refile(Pushed(wheels, w, s, p), v');
      } else {
        assert false;
      }
    }

    /** Stores the wheels that a task of the visited slot has been pushed into. */
    method Refile(wheels': seq<Wheel>, ghost v': View)
      requires interval >= 1 && WellFormed(maxSlots, wheels', visiting, done + 1) && Inv(v') && AtTurns(wheels', v')
      requires v' == View(maxSlots, Capacity(maxSlots), interval, curFrame, stage, visiting,
                          PendingSlots(maxSlots, wheels', visiting, done + 1), heap, nextPtr,
                          v'.pend, flying, history, firedAt, cancelledAt)
      requires forall id :: id in id2task ==> 0 <= id < nextTimerId && id2task[id] < nextPtr
      modifies this`wheels, this`pend, this`done
      ensures Valid() && wheels == wheels' && done == old(done) + 1
    {
      hide Timed, InFrames, Inv, Turn, PendingSlots, Capacity, AtTurns, WellFormed;
      wheels := wheels';
      pend, done := v'.pend, done + 1;
      assert Books() == v';
    }

    /** Moves the tasks of a higher wheel's current slot to where their remaining delay belongs. */
    method MoveTimers(wheelIndex: nat, slotIndex: nat)
      requires Valid() && 1 <= wheelIndex <= 2 && stage == wheelIndex + 1 && visiting == wheelIndex && done == 0
               && flying == {}
      requires slotIndex == wheels[wheelIndex].curSlotIndex
      modifies this
      ensures Valid() && stage == wheelIndex + 1 && visiting == -1 && flying == {} && history == old(history)
              && TableNow() == old(TableNow())
      ensures SameTime() && Indexes() == old(Indexes()) && wheels[wheelIndex].slots[slotIndex] == []
    {
      hide Inv, Turn, PendingSlots, Capacity;
      var slot := wheels[wheelIndex].slots[slotIndex];
      var i := 0;
      while i < |slot|
        invariant i <= |slot|
        invariant Valid() && stage == wheelIndex + 1 && visiting == wheelIndex && done == i && flying == {}
        invariant history == old(history) && TableNow() == old(TableNow())
        invariant SameTime() && Indexes() == old(Indexes()) && Visited() == slot
      {
        MoveTask(slot[i]);
        i := i + 1;
      }
      ClearSlot(wheelIndex, slotIndex);
    }

    /** The slot of wheel 0 that comes next. */
    ghost function NextSlot(): seq<Ptr>
      requires Wheels()
      reads this
    {
      wheels[0].slots[(wheels[0].curSlotIndex + 1) % maxSlots]
    }

    method StepWheel(i: nat)
      requires Valid() && i < 3 && stage == i && visiting == -1 && flying == {}
      requires i == 0 ==> forall j :: 0 <= j < |history| && history[j].Fired? ==> history[j].frame < curFrame
      requires Shape(Books()) && OnVisitFrame(maxSlots, curFrame, i)
      requires i >= 1 ==> Advanced(Books(), i - 1) && Turn(maxSlots, curFrame, i - 1) % maxSlots == 0
      modifies this`wheels, this`stage, this`visiting, this`done
      ensures Valid() && stage == i + 1 && visiting == i && done == 0
      ensures Shape(Books()) && Advanced(Books(), i) && wheels[i].curSlotIndex == Turn(maxSlots, curFrame, i) % maxSlots
      ensures i == 0 ==> Visited() == old(NextSlot())
    {
      hide Inv, PendingSlots, Turn, OnVisitFrame, Capacity;
      ghost var v := Books();
      AdvancedBooks(v, wheels, i);
      wheels := wheels[i := wheels[i].(curSlotIndex := (wheels[i].curSlotIndex + 1) % maxSlots)];
      stage, visiting, done := i + 1, i, 0;
      assert Books() == Advance(v);
    }

    /** Wheel i moves on by one slot, and that slot is run or emptied into the others. */
    method AdvanceWheel(i: nat, callbacks: (Ptr, nat) -> seq<TimerOp>) returns (ghost order: seq<Ptr>)
      requires Valid() && i < 3 && stage == i && visiting == -1 && flying == {}
      requires i == 0 ==> forall j :: 0 <= j < |history| && history[j].Fired? ==> history[j].frame < curFrame
      requires Shape(Books()) && OnVisitFrame(maxSlots, curFrame, i)
      requires i >= 1 ==> Advanced(Books(), i - 1) && Turn(maxSlots, curFrame, i - 1) % maxSlots == 0
      modifies this
      ensures Valid() && stage == i + 1 && visiting == -1 && flying == {} && old(history) <= history
      ensures SameTime()
      ensures Shape(Books()) && Advanced(Books(), i) && wheels[i].curSlotIndex == Turn(maxSlots, curFrame, i) % maxSlots
      ensures i > 0 ==> TableNow() == old(TableNow())
      ensures i == 0 ==> multiset(order) == multiset(old(NextSlot())) && ByTimeout(order, old(heap))
      ensures i == 0 ==> TableNow() == AfterTasks(Now(), old(TableNow()), order, callbacks)
    {
      hide Inv, PendingSlots, Turn, OnVisitFrame, Capacity, ByTimeout, AfterTasks;
      order := [];
      StepWheel(i);
      if i > 0 {
        MoveTimers(i, wheels[i].curSlotIndex);
      } else {
        order := RunTimers(wheels[i].curSlotIndex, callbacks);
      }
      InvShape(Books());
    }

    /** One frame: wheel 0 runs its next slot; each wheel that returns to slot 0 advances the next. */
    method Tick(callbacks: (Ptr, nat) -> seq<TimerOp>) returns (ghost order: seq<Ptr>)
      requires Valid() && stage == 0 && visiting == -1 && flying == {}
      requires forall j :: 0 <= j < |history| && history[j].Fired? ==> history[j].frame < curFrame
      modifies this
      ensures Valid() && stage == 3 && visiting == -1 && flying == {} && old(history) <= history
      ensures SameTime()
      ensures multiset(order) == multiset(old(NextSlot())) && ByTimeout(order, old(heap))
      ensures TableNow() == AfterTasks(Now(), old(TableNow()), order, callbacks)
    {
      hide Inv, PendingSlots, Capacity, ByTimeout, AfterTasks;
      InvShape(Books());
      var i := 0;
      order := [];
      while i < WHEEL_COUNT
        invariant 0 <= i <= 3 && Valid() && stage == i && visiting == -1 && flying == {} && old(history) <= history
        invariant SameTime()
        invariant i == 0 ==> history == old(history) && TableNow() == old(TableNow()) && NextSlot() == old(NextSlot())
        invariant i > 0 ==> multiset(order) == multiset(old(NextSlot())) && ByTimeout(order, old(heap))
        invariant i > 0 ==> TableNow() == AfterTasks(Now(), old(TableNow()), order, callbacks)
        invariant Shape(Books())
        invariant i >= 1 ==> Advanced(Books(), i - 1) && Turn(maxSlots, curFrame, i - 1) % maxSlots == 0
        invariant OnVisitFrame(maxSlots, curFrame, i)
      {
        ghost var ran := AdvanceWheel(i, callbacks);
        order := if i == 0 then ran else order;
        i := i + 1;
        if wheels[i - 1].curSlotIndex != 0 {
          break;
        }
      }
      SettleKeepsInv(Books());
      ghost var v := Books();
      stage := 3;
      assert Books() == Settle(v);
    }

    /** The next frame begins; no wheel has moved yet. */
    method BeginFrame()
      requires Valid() && stage == 3 && visiting == -1 && flying == {}
      modifies this`curFrame, this`stage
      ensures Valid() && stage == 0 && curFrame == old(curFrame) + 1
      ensures forall j :: 0 <= j < |history| && history[j].Fired? ==> history[j].frame < curFrame
    {
      hide Inv, PendingSlots, Capacity;
      ghost var v := Books();
      BeginTickKeepsInv(v);
      FiredBefore(v);
      InvShape(v);
      curFrame := curFrame + 1;
      stage := 0;
      assert Books() == BeginTick(v);
    }

    method RunFrame(callbacks: (Ptr, nat) -> seq<TimerOp>) returns (ghost order: seq<Ptr>)
      requires Valid() && stage == 3 && visiting == -1 && flying == {}
      modifies this
      ensures Valid() && stage == 3 && visiting == -1 && flying == {} && old(history) <= history
      ensures curFrame == old(curFrame) + 1 && leftMs == old(leftMs) && msSinceStart == old(msSinceStart)
      ensures multiset(order) == multiset(old(NextSlot())) && ByTimeout(order, old(heap))
      ensures TableNow() == AfterTasks(Now(), old(TableNow()), order, callbacks)
    {
      hide Inv, PendingSlots, Capacity, ByTimeout, AfterTasks, WellFormed;
      BeginFrame();
      order := Tick(callbacks);
    }

    /** Catches up with the clock, `elapsed` milliseconds after the last call. `orders` are the tasks of the frames
        that ran. */
    method Update(elapsed: nat, callbacks: (Ptr, nat) -> seq<TimerOp>) returns (ghost orders: seq<seq<Ptr>>)
      requires Idle()
      modifies this
      ensures Idle() && old(history) <= history
      ensures curFrame == old(curFrame) + |orders|
      ensures TableNow() == AfterFrames(old(Now()), old(TableNow()), orders, callbacks)
      ensures msSinceStart == old(msSinceStart) + elapsed && leftMs < interval
      ensures forall w :: 0 <= w < 3 ==> wheels[w].curSlotIndex == Turn(maxSlots, curFrame, w) % maxSlots
    {
      hide Inv, PendingSlots, Capacity, ByTimeout, AfterTasks, AfterFrames, WellFormed, Turn, PlainLog;
      leftMs := leftMs + elapsed;
      msSinceStart := msSinceStart + elapsed;
      orders := [];
      AfterNoFrames(Now(), TableNow(), callbacks);
      while leftMs >= interval
        invariant Idle() && old(history) <= history
        invariant msSinceStart == old(msSinceStart) + elapsed && curFrame == old(curFrame) + |orders|
        invariant TableNow() == AfterFrames(old(Now()), old(TableNow()), orders, callbacks)
      {
        leftMs := leftMs - interval;
        ghost var order := RunFrame(callbacks);
        OneMoreFrame(old(Now()), old(TableNow()), orders, order, callbacks);
        orders := orders + [order];
      }
    }
  }

  /** The arming has been answered, in that frame and no other. */
  ghost predicate FiresIn(history: seq<Event>, i: nat, frame: nat) {
    && (exists j :: 0 <= j < |history| && history[j].Fired? && history[j].arming == i && history[j].frame == frame)
    && forall j :: 0 <= j < |history| && history[j].Fired? && history[j].arming == i ==> history[j].frame == frame
  }

  /** Timers of 1023, 1024 and 1025 frames, started in frame 0 with 1024 slots: the one of 1024 takes twice as long. */
  method LateExample() returns (timer: WheelTimer)
    ensures timer.Idle() && timer.maxSlots == 1024 && timer.curFrame == 2048
    ensures [Armed(0, 0, 1023), Armed(1, 0, 1024), Armed(2, 0, 1025)] <= timer.history
    ensures FiresIn(timer.history, 0, 1023) && FiresIn(timer.history, 1, 2048) && FiresIn(timer.history, 2, 1025)
  {
    hide Inv, PendingSlots, AfterFrames, WellFormed, DueFrame, PlainLog, Capacity, FiresIn, AtTurns;
    LateFrames();
    timer := ThreeTimers();
    ghost var armed := timer.history;
    ghost var clock, table := timer.Now(), timer.TableNow();
    var silent := (p: Ptr, f: nat) => [];
    ghost var orders := timer.Update(2048 * 33, silent);
    FramesCancelNothing(clock, table, orders, silent);
    NothingCancelled(timer.history, armed);
    FiresUncancelled(timer.Books(), 0);
    FiresUncancelled(timer.Books(), 1);
    FiresUncancelled(timer.Books(), 2);
  }

  method ThreeTimers() returns (timer: WheelTimer)
    ensures fresh(timer) && timer.Idle() && timer.interval == 33 && timer.maxSlots == 1024
    ensures timer.curFrame == timer.msSinceStart == 0
    ensures timer.history == [Armed(0, 0, 1023), Armed(1, 0, 1024), Armed(2, 0, 1025)]
  {
    hide Inv, PendingSlots, AfterOp, WellFormed, PlainLog, Capacity, AtTurns, DelayFrames;
    LateFrames();
    timer := new WheelTimer(33, 1024);
    AfterAdd(timer.Now(), timer.TableNow(), 1023 * 33, false);
    var a := timer.AddTimer(1023 * 33, false);
    AfterAdd(timer.Now(), timer.TableNow(), 1024 * 33, false);
    var b := timer.AddTimer(1024 * 33, false);
    var c := timer.AddTimer(1025 * 33, false);
  }

  /** With no cancellation at all, every timer that is due has run in its due frame. */
  lemma FiresUncancelled(v: View, i: nat)
    requires Inv(v) && v.visiting == -1 && v.stage == 3 && v.flying == {} && i < |v.history| && v.history[i].Armed?
    requires forall k :: 0 <= k < |v.history| ==> !v.history[k].Cancelled?
    requires DueFrame(v.n, v.history[i].frame, v.history[i].delay) <= v.frame
    ensures FiresIn(v.history, i, DueFrame(v.n, v.history[i].frame, v.history[i].delay))
  {
    hide Inv, DueFrame;
    FiringFrame(v, i);
  }

  lemma NothingCancelled(history: seq<Event>, before: seq<Event>)
    requires NoneCancelled(PlainLog(before), PlainLog(history))
    requires forall j :: 0 <= j < |before| ==> !before[j].Cancelled?
    ensures forall j :: 0 <= j < |history| ==> !history[j].Cancelled?
  {
    forall j | 0 <= j < |history| ensures !history[j].Cancelled? {
      assert PlainLog(history)[j] == Plain(history[j]);
      if j < |before| { assert PlainLog(before)[j] == Plain(before[j]); }
    }
  }

  lemma LateFrames()
    ensures DelayFrames(33, 1023 * 33) == 1023 && DelayFrames(33, 1024 * 33) == 1024
            && DelayFrames(33, 1025 * 33) == 1025
    ensures DueFrame(1024, 0, 1023) == 1023 && DueFrame(1024, 0, 1024) == 2048 && DueFrame(1024, 0, 1025) == 1025
    ensures Capacity(1024) > 1025 && PlainLog([]) == []
  {
  }

  /** The books after wheel i has moved on by one slot. */
  lemma AdvancedBooks(v: View, wheels: seq<Wheel>, i: nat)
    requires Inv(v) && WellFormed(v.n, wheels, -1, 0) && i < 3 && v.slots == PendingSlots(v.n, wheels, -1, 0)
    requires v.stage == i && v.visiting == -1 && OnVisitFrame(v.n, v.frame, i)
    requires i >= 1 ==> Advanced(v, i - 1) && Turn(v.n, v.frame, i - 1) % v.n == 0
    requires i == 0 ==> forall j :: 0 <= j < |v.history| && v.history[j].Fired? ==> v.history[j].frame < v.frame
    requires forall w :: 0 <= w < 3 ==> wheels[w].curSlotIndex == TurnOf(v, w) % v.n
    ensures var wheels' := wheels[i := wheels[i].(curSlotIndex := (wheels[i].curSlotIndex + 1) % v.n)];
            && WellFormed(v.n, wheels', i, 0) && PendingSlots(v.n, wheels', i, 0) == v.slots
            && Inv(Advance(v)) && Advanced(Advance(v), i)
            && forall w :: 0 <= w < 3 ==> wheels'[w].curSlotIndex == TurnOf(Advance(v), w) % v.n
  {
    hide Inv;
    InvShape(v);
    AdvanceKeepsInv(v);
    InvShape(Advance(v));
    ModShift(TurnOf(v, i), 1, v.n);
    var wheels' := wheels[i := wheels[i].(curSlotIndex := (wheels[i].curSlotIndex + 1) % v.n)];
    forall x | 0 <= x < 3 ensures PendingSlots(v.n, wheels', i, 0)[x] == v.slots[x] {
      forall j | 0 <= j < v.n ensures PendingSlots(v.n, wheels', i, 0)[x][j] == v.slots[x][j] {
        assert Remaining(v.n, wheels', i, 0, x, j) == v.slots[x][j];
      }
    }
  }

  lemma FiredBefore(v: View)
    requires Inv(v)
    ensures forall j :: 0 <= j < |v.history| && v.history[j].Fired? ==> v.history[j].frame <= v.frame
  {
    forall j | 0 <= j < |v.history| && v.history[j].Fired?
      ensures v.history[j].frame <= v.frame { assert FiringInv(v, j); }
  }

  lemma SlotIsAllocated(v: View, wheels: seq<Wheel>, s: nat)
    requires Inv(v) && v.visiting == 0 && WellFormed(v.n, wheels, 0, 0) && v.slots == PendingSlots(v.n, wheels, 0, 0)
    requires s == wheels[0].curSlotIndex == TurnOf(v, 0) % v.n
    ensures forall p :: p in wheels[0].slots[s] ==> p in v.heap
  {
    hide OnTime, Window, OnVisitFrame, HistoryInv, OrderInv, TaskInv;
    NextOfSlot(v, wheels, 0);
    forall k | 0 <= k < |v.slots[0][s]| ensures v.slots[0][s][k] in v.heap { assert Filed(v, v.slots[0][s][k], 0, s); }
  }

  lemma SortedBooks(v: View, wheels: seq<Wheel>, s: nat, tasks: seq<Ptr>)
    requires Inv(v) && v.visiting == 0 && WellFormed(v.n, wheels, 0, 0) && v.slots == PendingSlots(v.n, wheels, 0, 0)
    requires s == wheels[0].curSlotIndex == TurnOf(v, 0) % v.n && multiset(tasks) == multiset(wheels[0].slots[s])
    ensures var wheels' := wheels[0 := wheels[0].(slots := wheels[0].slots[s := tasks])];
            WellFormed(v.n, wheels', 0, 0) && Inv(v.(slots := PendingSlots(v.n, wheels', 0, 0)))
  {
    hide Inv;
    InvShape(v);
    NextOfSlot(v, wheels, 0);
    SortKeepsInv(v, s, tasks);
    SortedSlots(v.n, wheels, s, tasks);
  }

  lemma SortedSlots(n: nat, wheels: seq<Wheel>, s: nat, tasks: seq<Ptr>)
    requires WellFormed(n, wheels, 0, 0) && s == wheels[0].curSlotIndex
    ensures var wheels' := wheels[0 := wheels[0].(slots := wheels[0].slots[s := tasks])];
            var before := PendingSlots(n, wheels, 0, 0);
            WellFormed(n, wheels', 0, 0) && PendingSlots(n, wheels', 0, 0) == before[0 := before[0][s := tasks]]
  {
    var wheels' := wheels[0 := wheels[0].(slots := wheels[0].slots[s := tasks])];
    var before := PendingSlots(n, wheels, 0, 0);
    var after := before[0 := before[0][s := tasks]];
    forall i | 0 <= i < 3 ensures PendingSlots(n, wheels', 0, 0)[i] == after[i] {
      forall j | 0 <= j < n ensures PendingSlots(n, wheels', 0, 0)[i][j] == after[i][j] {
        assert Remaining(n, wheels', 0, 0, i, j) == after[i][j];
      }
    }
  }

  /** The next task of the sorted slot: allocated, with the least timeout, and not met again. */
  lemma HeadOfSlot(v: View, s: nat, rest: seq<Ptr>)
    requires Inv(v) && v.visiting == 0 && AtSlot(v, s) && rest == v.slots[0][s] && ByTimeout(rest, v.heap)
    ensures |rest| > 0 && rest[0] in v.heap && rest[0] in v.pend && rest[0] !in rest[1..]
            && ByTimeout(rest[1..], v.heap)
    ensures forall x :: x in rest ==> x in v.heap && v.heap[rest[0]].timeoutMs <= v.heap[x].timeoutMs
  {
    VisitedHead(v, s);
    OnceInSlot(v, s);
    hide Inv, AtSlot;
    LeastFirst(rest, v.heap);
  }

  lemma OnceInSlot(v: View, s: nat)
    requires Inv(v) && v.visiting == 0 && AtSlot(v, s)
    ensures |v.slots[0][s]| > 0 && v.slots[0][s][0] !in v.slots[0][s][1..]
  {
    hide OnTime, Window, OnVisitFrame, HistoryInv, OrderInv, TaskInv, HeapInv, RepeatInv, Turn;
    assert NoDuplicates(v.slots[0][s]);
  }

  lemma LeastFirst(rest: seq<Ptr>, heap: map<Ptr, TimerTask>)
    requires |rest| > 0 && ByTimeout(rest, heap)
    ensures ByTimeout(rest[1..], heap)
    ensures forall x :: x in rest ==> x in heap && heap[rest[0]].timeoutMs <= heap[x].timeoutMs
  {
    forall x | x in rest ensures x in heap && heap[rest[0]].timeoutMs <= heap[x].timeoutMs {
      var k :| 0 <= k < |rest| && rest[k] == x;
      assert TimeoutKey(heap)(rest[0]) <= TimeoutKey(heap)(rest[k]);
    }
  }

  /** The books once the next task of the sorted slot, a cancelled one, is deleted. */
  lemma DroppedBooks(v: View, wheels: seq<Wheel>, done: nat, tasks: seq<Ptr>) returns (v': View)
    requires Inv(v) && v.visiting == 0 && WellFormed(v.n, wheels, 0, done)
    requires v.slots == PendingSlots(v.n, wheels, 0, done)
    requires wheels[0].curSlotIndex == TurnOf(v, 0) % v.n && tasks == wheels[0].slots[wheels[0].curSlotIndex]
    requires done < |tasks| && ByTimeout(tasks[done..], v.heap) && tasks[done] in v.heap
             && v.heap[tasks[done]].isCanceled
    ensures Inv(v') && v' == v.(slots := PendingSlots(v.n, wheels, 0, done + 1), pend := v'.pend,
                                heap := v.heap - {tasks[done]})
    ensures ByTimeout(tasks[done + 1..], v'.heap)
  {
    hide Inv, Turn, PendingSlots, ByTimeout;
    InvShape(v);
    NextOfSlot(v, wheels, done);
    HeadOfSlot(v, wheels[0].curSlotIndex, tasks[done..]);
    assert tasks[done..][0] == tasks[done] && tasks[done..][1..] == tasks[done + 1..];
    DropKeepsInv(v, wheels[0].curSlotIndex);
    v' := Drop(v, wheels[0].curSlotIndex);
    ByTimeoutKept(tasks[done + 1..], v.heap, v'.heap);
  }

  /** The books once the next task of the sorted slot is taken out to run. */
  lemma FiredBooks(v: View, wheels: seq<Wheel>, done: nat, tasks: seq<Ptr>) returns (v': View)
    requires Inv(v) && v.visiting == 0 && v.flying == {} && WellFormed(v.n, wheels, 0, done)
    requires v.slots == PendingSlots(v.n, wheels, 0, done)
    requires wheels[0].curSlotIndex == TurnOf(v, 0) % v.n && tasks == wheels[0].slots[wheels[0].curSlotIndex]
    requires done < |tasks| && ByTimeout(tasks[done..], v.heap) && tasks[done] in v.heap
             && !v.heap[tasks[done]].isCanceled
    ensures var p := tasks[done];
            && p in v.pend && Inv(v')
            && v' == v.(slots := PendingSlots(v.n, wheels, 0, done + 1), pend := v.pend - {p}, flying := {p},
                        history := v.history + [Fired(p, v.frame, v.pend[p].arming, v.heap[p].timeoutMs,
                                                      Again(v.interval, v.heap[p]))],
                        firedAt := v.firedAt[v.pend[p].arming := |v.history|])
            && ByTimeout(tasks[done + 1..], v.heap) && p !in tasks[done + 1..]
  {
    hide Inv, Turn, PendingSlots, Capacity;
    InvShape(v);
    NextOfSlot(v, wheels, done);
    HeadOfSlot(v, wheels[0].curSlotIndex, tasks[done..]);
    assert tasks[done..][0] == tasks[done] && tasks[done..][1..] == tasks[done + 1..];
    FireKeepsInv(v, wheels[0].curSlotIndex);
    v' := Fire(v, wheels[0].curSlotIndex);
  }

  lemma FlyingTask(v: View, p: Ptr)
    requires Inv(v) && p in v.flying && v.capacity == Capacity(v.n)
    ensures p in v.heap && p < v.nextPtr && (v.heap[p].isCanceled <==> p in v.cancelledAt)
    ensures v.heap[p].isRepeat ==> DelayFrames(v.interval, v.heap[p].interval) < Capacity(v.n)
  {
  }

  /** Clearing a slot whose tasks have all been processed ends the visit. */
  lemma ClearedBooks(v: View, wheels: seq<Wheel>, done: nat)
    requires Inv(v) && 0 <= v.visiting < 3 && WellFormed(v.n, wheels, v.visiting, done)
    requires v.slots == PendingSlots(v.n, wheels, v.visiting, done)
    requires wheels[v.visiting].curSlotIndex == TurnOf(v, v.visiting) % v.n
    requires done == |wheels[v.visiting].slots[wheels[v.visiting].curSlotIndex]|
    ensures var w, s := v.visiting, wheels[v.visiting].curSlotIndex;
            var wheels' := wheels[w := wheels[w].(slots := wheels[w].slots[s := []])];
            && WellFormed(v.n, wheels', -1, 0) && PendingSlots(v.n, wheels', -1, 0) == v.slots
            && Inv(Leave(v)) && forall i :: 0 <= i < 3 ==> TurnOf(Leave(v), i) == TurnOf(v, i)
  {
    var w, s := v.visiting, wheels[v.visiting].curSlotIndex;
    var wheels' := wheels[w := wheels[w].(slots := wheels[w].slots[s := []])];
    NextOfSlot(v, wheels, done);
    LeaveKeepsInv(v);
    forall i | 0 <= i < 3 ensures PendingSlots(v.n, wheels', -1, 0)[i] == v.slots[i] {
      forall j | 0 <= j < v.n ensures PendingSlots(v.n, wheels', -1, 0)[i][j] == v.slots[i][j] {
        assert Remaining(v.n, wheels', -1, 0, i, j) == v.slots[i][j];
      }
    }
  }

  /** Appending to another slot and stepping to the next task of the visited one. */
  lemma PushThenStep(n: nat, wheels: seq<Wheel>, x: nat, done: nat, w: nat, s: nat, p: Ptr)
    requires WellFormed(n, wheels, x, done) && w < 3 && s < n && x < 3 && !(w == x && s == wheels[x].curSlotIndex)
    requires done < |wheels[x].slots[wheels[x].curSlotIndex]|
    ensures var wheels' := Pushed(wheels, w, s, p);
            var t := wheels[x].curSlotIndex;
            && WellFormed(n, wheels', x, done + 1)
            && var before := PendingSlots(n, wheels, x, done);
            && |before[x][t]| > 0
            && var mid := before[x := before[x][t := before[x][t][1..]]];
            && PendingSlots(n, wheels', x, done + 1) == mid[w := mid[w][s := mid[w][s] + [p]]]
            && (forall i :: 0 <= i < 3 ==> wheels'[i].curSlotIndex == wheels[i].curSlotIndex)
            && wheels'[x].slots[t] == wheels[x].slots[t]
  {
    var wheels' := Pushed(wheels, w, s, p);
    var t := wheels[x].curSlotIndex;
    var before := PendingSlots(n, wheels, x, done);
    assert before[x][t] == Remaining(n, wheels, x, done, x, t);
    var mid := before[x := before[x][t := before[x][t][1..]]];
    var after := mid[w := mid[w][s := mid[w][s] + [p]]];
    forall i | 0 <= i < 3 ensures PendingSlots(n, wheels', x, done + 1)[i] == after[i] {
      forall j | 0 <= j < n ensures PendingSlots(n, wheels', x, done + 1)[i][j] == after[i][j] {
        assert Remaining(n, wheels', x, done + 1, i, j) == after[i][j];
      }
    }
  }

  /** The books after cascading the next task of the visited slot to wheel w, slot s. */
  lemma CascadedBooks(v: View, wheels: seq<Wheel>, done: nat, p: Ptr) returns (v': View, w: nat, s: nat)
    requires Inv(v) && 1 <= v.visiting < 3 && WellFormed(v.n, wheels, v.visiting, done) && v.capacity == Capacity(v.n)
    requires v.slots == PendingSlots(v.n, wheels, v.visiting, done)
    requires forall w :: 0 <= w < 3 ==> wheels[w].curSlotIndex == TurnOf(v, w) % v.n
    requires done < |wheels[v.visiting].slots[wheels[v.visiting].curSlotIndex]|
    requires p == wheels[v.visiting].slots[wheels[v.visiting].curSlotIndex][done]
    ensures p in v.heap && v.heap[p].timeoutFrame >= v.frame
    ensures var (w', k) := Placement(v.n, v.heap[p].timeoutFrame - v.frame);
            w == w' < 3 && k < v.n && s == (wheels[w].curSlotIndex + k) % v.n
    ensures !(w == v.visiting && s == wheels[v.visiting].curSlotIndex)
    ensures WellFormed(v.n, Pushed(wheels, w, s, p), v.visiting, done + 1)
    ensures v' == v.(slots := PendingSlots(v.n, Pushed(wheels, w, s, p), v.visiting, done + 1), pend := v'.pend)
    ensures Inv(v')
  {
    hide Inv, Turn, PendingSlots, Capacity;
    var x, t := v.visiting, wheels[v.visiting].curSlotIndex;
    InvShape(v);
    NextOfSlot(v, wheels, done);
    FiledNeedsTwo(v, t);
    CascadeKeepsInv(v, t);
    var r := v.heap[p].timeoutFrame - v.frame;
    var k := Placement(v.n, r).1;
    w := Placement(v.n, r).0;
    var q := CascadeTurn(v, r);
    s := q % v.n;
    CascadeSlot(TurnOf(v, w), k, q, v.n);
    v' := Cascade(v, t, w, q);
    PushThenStep(v.n, wheels, x, done, w, s, p);
  }

  lemma CascadeSlot(t: nat, k: nat, q: nat, n: nat)
    requires n >= 2 && q % n == (t + k) % n
    ensures q % n == (t % n + k) % n && (k == 1 ==> q % n != t % n)
  {
    ModShift(t, k, n);
    if k == 1 && q % n == t % n { ModWindow(t, t + 1, n); }
  }

  /** With a single slot per wheel nothing can be filed. */
  lemma FiledNeedsTwo(v: View, s: nat)
    requires Inv(v) && v.capacity == Capacity(v.n) && AtSlot(v, s)
    ensures v.n >= 2
  {
    hide OnTime, Window, OnVisitFrame, SlotsInv, OrderInv, HeapInv, FiringInv, CancellationInv;
    VisitedHead(v, s);
    var p := v.slots[v.visiting][s][0];
    assert ArmingInv(v, v.pend[p].arming);
  }

  lemma InvShape(v: View)
    requires Inv(v)
    ensures Shape(v)
  {
  }

  lemma FreshPtr(v: View)
    requires Inv(v)
    ensures v.nextPtr !in v.heap && v.nextPtr !in v.cancelledAt && v.nextPtr !in v.pend && v.nextPtr !in v.flying
  {
  }

  lemma FitsExactly(n: nat, delay: nat)
    requires n >= 1
    ensures Placement(n, delay).0 < 3 && (Placement(n, delay).1 < n <==> delay < Capacity(n))
    ensures delay >= 1 && n == 1 ==> delay >= Capacity(n)
  {
    PlacementBounds(n, delay);
  }
}
