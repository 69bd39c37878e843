/** The bookkeeping behind the timing wheel: which task is filed where and why, and the history of
    everything that was armed, fired and cancelled. Each step of the timer is a function on `View`,
    with a lemma that it keeps the invariant `Inv`. */
module TimingWheelState {
  import opened Division
  import opened Sequences
  import opened TimingWheelArithmetic

  /** The address of a task; tasks are created and deleted by hand. */
  type Ptr = nat

  datatype TimerTask = TimerTask(interval: nat, timeoutMs: nat, timeoutFrame: nat, isRepeat: bool, isCanceled: bool)

  datatype Event =
    | Armed(task: Ptr, frame: nat, delay: nat)
    | Fired(task: Ptr, frame: nat, arming: nat, timeoutMs: nat, again: nat)
    | Cancelled(task: Ptr, frame: nat)

  /** An event as it shows outside, without the arming that a firing answers. */
  function Plain(e: Event): Event {
    if e.Fired? then e.(arming := 0) else e
  }

  function PlainLog(history: seq<Event>): (log: seq<Event>)
    ensures |log| == |history|
  {
    seq(|history|, k requires 0 <= k < |history| => Plain(history[k]))
  }

  lemma PlainMore(history: seq<Event>, e: Event)
    ensures PlainLog(history + [e]) == PlainLog(history) + [Plain(e)]
  {
  }

  /** A filed task: its wheel and slot, the advance count at which that wheel visits it, and the history
      index of the arming that filed it. */
  datatype Pending = Pending(wheel: nat, slot: nat, turn: nat, arming: nat)

  /** `capacity` is the first delay too long for the wheels, n*n*n. `stage` wheels have been advanced in
      this tick (3 between ticks); `visiting` is the wheel whose current slot is being processed, or -1.
      `slots` leaves out what the visit has processed already, and `flying` holds a task whose callback
      is running. */
  datatype View = View(
    n: nat, capacity: nat, interval: nat, frame: nat, stage: nat, visiting: int,
    slots: seq<seq<seq<Ptr>>>, heap: map<Ptr, TimerTask>, nextPtr: Ptr,
    pend: map<Ptr, Pending>, flying: set<Ptr>,
    history: seq<Event>, firedAt: map<nat, nat>, cancelledAt: map<Ptr, nat>)

  /** d frames are what fits into ms milliseconds, but at least one. */
  ghost predicate InFrames(interval: nat, ms: nat, d: nat) {
    d >= 1 && (d == 1 || interval * d <= ms) && ms < interval * (d + 1)
  }

  /** Frames of delay for a duration: at least one. */
  function DelayFrames(interval: nat, ms: nat): (d: nat)
    requires interval >= 1
    ensures d >= 1 && InFrames(interval, ms, d)
  {
    DivisionBounds(ms, interval);
    if ms / interval >= 1 then ms / interval else 1
  }

  /** A timeout lies `delay` frames after the frame of its arming. */
  ghost predicate Timed(interval: nat, armed: nat, delay: nat, timeoutMs: nat) {
    armed * interval <= timeoutMs && InFrames(interval, timeoutMs - armed * interval, delay)
  }

  /** The delay with which a repeat task is armed again and again; 0 for a one-shot task. */
  function Again(interval: nat, task: TimerTask): (d: nat)
    requires interval >= 1
    ensures d > 0 <==> task.isRepeat
  {
    if task.isRepeat then DelayFrames(interval, task.interval) else 0
  }

  ghost predicate Shape(v: View) {
    && v.n >= 1 && v.interval >= 1
    && v.stage <= 3 && (v.stage < 3 ==> v.frame >= 1)
    && (v.visiting == -1 || (0 <= v.visiting < 3 && v.stage == v.visiting + 1
                             && OnVisitFrame(v.n, v.frame, v.visiting)))
    && |v.slots| == 3 && forall w :: 0 <= w < 3 ==> |v.slots[w]| == v.n
  }

  ghost predicate OnVisitFrame(n: nat, frame: nat, visiting: int)
    requires n >= 1
  {
    && (visiting >= 1 ==> frame % n == 0)
    && (visiting == 2 ==> (frame / n) % n == 0)
  }

  /** The advance count of wheel w: wheels not yet advanced in this tick still show the last frame's. */
  ghost function TurnOf(v: View, w: nat): nat
    requires v.n >= 1 && (v.stage < 3 ==> v.frame >= 1) && w < 3
  {
    Turn(v.n, if w < v.stage then v.frame else v.frame - 1, w)
  }

  ghost predicate Filed(v: View, p: Ptr, w: nat, s: nat)
  {
    p in v.pend && v.pend[p].wheel == w && v.pend[p].slot == s
  }

  /** Every filed task is in exactly the slot its record names, once. */
  ghost predicate SlotsInv(v: View)
    requires Shape(v)
  {
    && (forall w, s, k :: 0 <= w < 3 && 0 <= s < v.n && 0 <= k < |v.slots[w][s]| ==> Filed(v, v.slots[w][s][k], w, s))
    && (forall w, s :: 0 <= w < 3 && 0 <= s < v.n ==> NoDuplicates(v.slots[w][s]))
    && (forall p :: p in v.pend ==>
          && v.pend[p].wheel < 3 && v.pend[p].slot < v.n
          && p in v.slots[v.pend[p].wheel][v.pend[p].slot])
  }

  /** Every allocated task is filed or flying; repeat intervals fit the wheels. */
  ghost predicate HeapInv(v: View)
    requires Shape(v)
  {
    && v.pend.Keys !! v.flying
    && v.heap.Keys == v.pend.Keys + v.flying
    && (forall p :: p in v.heap ==> p < v.nextPtr)
    && (forall p :: p in v.heap && v.heap[p].isRepeat ==> DelayFrames(v.interval, v.heap[p].interval) < v.capacity)
  }

  /** When wheel w will visit the task, relative to the wheel's own advance count. */
  ghost predicate Window(v: View, w: nat, q: nat)
    requires Shape(v) && w < 3
  {
    if v.visiting == w then TurnOf(v, w) <= q < TurnOf(v, w) + v.n
    else TurnOf(v, w) < q <= TurnOf(v, w) + v.n
  }

  /** A record agrees with the arming it came from. */
  ghost predicate OnTime(n: nat, w: nat, q: nat, armed: nat, delay: nat)
    requires n >= 1
  {
    if w == 0 then q == DueFrame(n, armed, delay)
    else delay >= n && 0 <= armed + delay - SlotSpan(n, w) * q < 2 * SlotSpan(n, w)
  }

  ghost predicate TaskInv(v: View, p: Ptr)
    requires Shape(v)
  {
    && p in v.pend && p in v.heap
    && var r := v.pend[p];
    && r.wheel < 3 && r.slot == r.turn % v.n && Window(v, r.wheel, r.turn)
    && r.arming < |v.history| && r.arming !in v.firedAt
    && var e := v.history[r.arming];
    && e.Armed? && e.task == p && v.heap[p].timeoutFrame == e.frame + e.delay
    && OnTime(v.n, r.wheel, r.turn, e.frame, e.delay)
  }

  /** The fate of the arming at history index i: still filed, fired, or given up because of a
      cancellation no later than its due frame. */
  ghost predicate ArmingInv(v: View, i: nat)
    requires v.n >= 1 && i < |v.history| && v.history[i].Armed?
  {
    var e := v.history[i];
    && 1 <= e.delay < v.capacity && e.frame <= v.frame && e.task < v.nextPtr
    && (|| (e.task in v.pend && v.pend[e.task].arming == i)
        || i in v.firedAt
        || GivenUp(v, i))
  }

  ghost predicate GivenUp(v: View, i: nat)
    requires v.n >= 1 && i < |v.history| && v.history[i].Armed?
  {
    var e := v.history[i];
    var due := DueFrame(v.n, e.frame, e.delay);
    && i !in v.firedAt && due <= v.frame
    && e.task in v.cancelledAt && v.cancelledAt[e.task] < |v.history|
    && v.history[v.cancelledAt[e.task]].Cancelled?
    && v.history[v.cancelledAt[e.task]].frame <= due
  }

  ghost predicate FiringInv(v: View, j: nat)
    requires v.n >= 1 && j < |v.history| && v.history[j].Fired?
  {
    var f := v.history[j];
    && f.arming < j && v.history[f.arming].Armed?
    && var e := v.history[f.arming];
    && e.task == f.task && f.frame == DueFrame(v.n, e.frame, e.delay) && f.frame <= v.frame
    && f.arming in v.firedAt && v.firedAt[f.arming] == j
    && (f.task in v.cancelledAt ==> v.cancelledAt[f.task] > j)
  }

  ghost predicate CancellationInv(v: View, k: nat)
    requires k < |v.history| && v.history[k].Cancelled?
  {
    var c := v.history[k];
    c.frame <= v.frame && c.task < v.nextPtr && c.task in v.cancelledAt && v.cancelledAt[c.task] <= k
  }

  ghost predicate ArmingsInv(v: View)
    requires Shape(v)
  {
    forall i :: 0 <= i < |v.history| && v.history[i].Armed? ==> ArmingInv(v, i)
  }

  ghost predicate FiringsInv(v: View)
    requires Shape(v)
  {
    && (forall j :: 0 <= j < |v.history| && v.history[j].Fired? ==> FiringInv(v, j))
    && (forall i :: i in v.firedAt ==>
          v.firedAt[i] < |v.history| && v.history[v.firedAt[i]].Fired? && v.history[v.firedAt[i]].arming == i)
  }

  ghost predicate CancellationsInv(v: View) {
    && (forall k :: 0 <= k < |v.history| && v.history[k].Cancelled? ==> CancellationInv(v, k))
    && (forall p :: p in v.cancelledAt ==>
          p < v.nextPtr && v.cancelledAt[p] < |v.history| && v.history[v.cancelledAt[p]].Cancelled?
          && v.history[v.cancelledAt[p]].task == p)
    && (forall p :: p in v.heap ==> (v.heap[p].isCanceled <==> p in v.cancelledAt))
  }

  ghost predicate HistoryInv(v: View)
    requires Shape(v)
  {
    ArmingsInv(v) && FiringsInv(v) && CancellationsInv(v)
  }

  ghost predicate OrderedPair(a: Event, b: Event) {
    a.Fired? && b.Fired? && a.frame == b.frame ==> a.timeoutMs <= b.timeoutMs
  }

  ghost predicate FiredBelow(v: View, ms: nat) {
    forall j :: 0 <= j < |v.history| && v.history[j].Fired? && v.history[j].frame == v.frame ==>
        v.history[j].timeoutMs <= ms
  }

  /** Within a frame, callbacks run in the order of their timeouts. */
  ghost predicate OrderInv(v: View)
    requires Shape(v)
  {
    && (forall i, j :: 0 <= i < j < |v.history| ==> OrderedPair(v.history[i], v.history[j]))
    && (v.stage == 0 ==> forall j :: 0 <= j < |v.history| && v.history[j].Fired? ==> v.history[j].frame < v.frame)
    && (v.visiting == 0 ==> forall p :: p in v.slots[0][v.frame % v.n] && p in v.heap ==>
        FiredBelow(v, v.heap[p].timeoutMs))
  }

  /** A filed task was armed for its timeout, a repeat task with its own delay. */
  ghost predicate Paced(v: View, p: Ptr)
    requires Shape(v)
  {
    p in v.pend && p in v.heap ==>
      && v.pend[p].arming < |v.history|
      && var e := v.history[v.pend[p].arming];
      && e.Armed? && Timed(v.interval, e.frame, e.delay, v.heap[p].timeoutMs)
      && (v.heap[p].isRepeat ==> e.delay == Again(v.interval, v.heap[p]))
  }

  /** The firing at j is followed by an arming of the same task in the same frame. */
  ghost predicate Resumed(history: seq<Event>, j: nat)
    requires j < |history| && history[j].Fired?
  {
    exists i :: j < i < |history| && history[i] == Armed(history[j].task, history[j].frame, history[j].again)
  }

  /** A firing came from an arming for its timeout. If the task is a repeat task, then with its own delay, and the
      task is armed again with that delay in the same frame, at the latest when its callback has returned. */
  ghost predicate Continued(v: View, j: nat)
    requires Shape(v) && j < |v.history| && v.history[j].Fired?
  {
    var f := v.history[j];
    && f.arming < |v.history|
    && var e := v.history[f.arming];
    && e.Armed? && Timed(v.interval, e.frame, e.delay, f.timeoutMs)
    && (f.again > 0 ==>
      && e.delay == f.again
      && (Resumed(v.history, j)
          || (f.task in v.flying && f.frame == v.frame && f.task in v.heap
              && f.again == Again(v.interval, v.heap[f.task]))))
  }

  ghost predicate RepeatInv(v: View)
    requires Shape(v)
  {
    (forall p :: p in v.pend ==> Paced(v, p)) && forall j :: 0 <= j < |v.history| && v.history[j].Fired? ==>
        Continued(v, j)
  }

  ghost predicate Inv(v: View) {
    && Shape(v) && SlotsInv(v) && HeapInv(v)
    && (forall p :: p in v.pend ==> TaskInv(v, p))
    && HistoryInv(v) && OrderInv(v) && RepeatInv(v)
  }

  /** The task is still flying, or has been armed again, or need not be. */
  ghost predicate Carried(v: View, v': View, p: Ptr)
    requires Shape(v) && Shape(v') && p in v.heap
  {
    || (p in v'.flying && v'.frame == v.frame && p in v'.heap
        && Again(v.interval, v'.heap[p]) == Again(v.interval, v.heap[p]))
    || Again(v.interval, v.heap[p]) == 0
    || (|v'.history| > |v.history| && v'.history[|v.history|] == Armed(p, v.frame, Again(v.interval, v.heap[p])))
  }

  /** What a step must keep for repeat tasks to go on. */
  lemma RepeatStep(v: View, v': View)
    requires Shape(v) && Shape(v') && RepeatInv(v) && v.interval == v'.interval && v.history <= v'.history
    requires forall p :: p in v'.pend ==>
               Paced(v', p) || (p in v.pend && v.pend[p].arming == v'.pend[p].arming && p in v.heap && (p in v'.heap ==>
                 && v.heap[p].timeoutMs == v'.heap[p].timeoutMs
                 && v.heap[p].isRepeat == v'.heap[p].isRepeat && v.heap[p].interval == v'.heap[p].interval))
    requires forall j :: |v.history| <= j < |v'.history| && v'.history[j].Fired? ==> Continued(v', j)
    requires forall p :: p in v.flying && p in v.heap ==> Carried(v, v', p)
    ensures RepeatInv(v')
  {
    hide DelayFrames, OnVisitFrame, Timed;
    forall p | p in v'.pend ensures Paced(v', p) {
      if p in v.pend { assert Paced(v, p); }
    }
    forall j | 0 <= j < |v'.history| && v'.history[j].Fired? ensures Continued(v', j) {
      if j < |v.history| {
        assert Continued(v, j);
        var f := v.history[j];
        if f.again > 0 && Resumed(v.history, j) {
          var i :| j < i < |v.history| && v.history[i] == Armed(f.task, f.frame, f.again);
          assert v'.history[i] == Armed(f.task, f.frame, f.again);
        } else if f.again > 0 {
          assert Carried(v, v', f.task);
        }
      }
    }
  }

  // ---- Filing and unfiling ----

  ghost function File(v: View, p: Ptr, w: nat, q: nat, arming: nat): View
    requires Shape(v) && w < 3
  {
    var s := q % v.n;
    v.(slots := v.slots[w := v.slots[w][s := v.slots[w][s] + [p]]], pend := v.pend[p := Pending(w, s, q, arming)])
  }

  lemma FileKeepsSlots(v: View, p: Ptr, w: nat, q: nat, arming: nat)
    requires Shape(v) && SlotsInv(v) && w < 3 && p !in v.pend
    ensures Shape(File(v, p, w, q, arming)) && SlotsInv(File(v, p, w, q, arming))
  {
    var v' := File(v, p, w, q, arming);
    var s := q % v.n;
    forall w', s', k | 0 <= w' < 3 && 0 <= s' < v.n && 0 <= k < |v'.slots[w'][s']|
      ensures Filed(v', v'.slots[w'][s'][k], w', s')
    {
      if w' != w || s' != s || k < |v.slots[w][s]| {
        assert Filed(v, v.slots[w'][s'][k], w', s');
      }
    }
    forall i | 0 <= i < |v.slots[w][s]| ensures v.slots[w][s][i] != p {
      assert Filed(v, v.slots[w][s][i], w, s);
    }
    forall w', s' | 0 <= w' < 3 && 0 <= s' < v.n ensures NoDuplicates(v'.slots[w'][s']) {
      assert NoDuplicates(v.slots[w'][s']);
    }
    forall x | x in v'.pend
      ensures v'.pend[x].wheel < 3 && v'.pend[x].slot < v.n && x in v'.slots[v'.pend[x].wheel][v'.pend[x].slot]
    {
      if x == p {
        assert v'.slots[w][s][|v.slots[w][s]|] == p;
      } else {
        var slot := v.slots[v.pend[x].wheel][v.pend[x].slot];
        var k :| 0 <= k < |slot| && slot[k] == x;
        assert v'.slots[v.pend[x].wheel][v.pend[x].slot][k] == x;
      }
    }
  }

  /** Take the first task of the visited slot out of the books. */
  ghost function Unfile(v: View, s: nat): View
    requires Shape(v) && 0 <= v.visiting < 3 && s < v.n && |v.slots[v.visiting][s]| > 0
  {
    var w := v.visiting;
    v.(slots := v.slots[w := v.slots[w][s := v.slots[w][s][1..]]], pend := v.pend - {v.slots[w][s][0]})
  }

  lemma UnfileKeepsSlots(v: View, s: nat)
    requires Shape(v) && SlotsInv(v) && 0 <= v.visiting < 3 && s < v.n && |v.slots[v.visiting][s]| > 0
    ensures Shape(Unfile(v, s)) && SlotsInv(Unfile(v, s))
  {
    var v' := Unfile(v, s);
    var w := v.visiting;
    var slot := v.slots[w][s];
    var p := slot[0];
    assert Filed(v, slot[0], w, s);
    assert NoDuplicates(slot);
    forall w', s', k | 0 <= w' < 3 && 0 <= s' < v.n && 0 <= k < |v'.slots[w'][s']|
      ensures Filed(v', v'.slots[w'][s'][k], w', s')
    {
      if w' == w && s' == s {
        assert v'.slots[w'][s'][k] == slot[k + 1];
        assert Filed(v, slot[k + 1], w, s);
      } else {
        assert Filed(v, v.slots[w'][s'][k], w', s');
      }
    }
    forall w', s' | 0 <= w' < 3 && 0 <= s' < v.n ensures NoDuplicates(v'.slots[w'][s']) {
      assert NoDuplicates(v.slots[w'][s']);
    }
    forall x | x in v'.pend
      ensures v'.pend[x].wheel < 3 && v'.pend[x].slot < v.n && x in v'.slots[v'.pend[x].wheel][v'.pend[x].slot]
    {
      var home := v.slots[v.pend[x].wheel][v.pend[x].slot];
      var k :| 0 <= k < |home| && home[k] == x;
      if v.pend[x].wheel == w && v.pend[x].slot == s {
        assert k > 0;
        assert v'.slots[w][s][k - 1] == x;
      }
    }
  }

  /** The head of the visited slot is due in exactly this turn of its wheel. */
  lemma VisitedHead(v: View, s: nat)
    requires Inv(v) && 0 <= v.visiting < 3 && s == TurnOf(v, v.visiting) % v.n && |v.slots[v.visiting][s]| > 0
    ensures var p := v.slots[v.visiting][s][0];
            p in v.pend && p in v.heap && v.pend[p].wheel == v.visiting && v.pend[p].turn == TurnOf(v, v.visiting)
            && TaskInv(v, p) && p !in v.flying
  {
    var p := v.slots[v.visiting][s][0];
    assert Filed(v, v.slots[v.visiting][s][0], v.visiting, s);
    ModWindow(TurnOf(v, v.visiting), v.pend[p].turn, v.n);
  }

  // ---- Steps ----

  ghost function Arm(v: View, p: Ptr, task: TimerTask, w: nat, q: nat, delay: nat): View
    requires Shape(v) && w < 3
  {
    File(v.(heap := v.heap[p := task], nextPtr := if p == v.nextPtr then p + 1 else v.nextPtr,
            flying := v.flying - {p}, history := v.history + [Armed(p, v.frame, delay)]),
         p, w, q, |v.history|)
  }

  /** Timers are added between ticks and by callbacks, which run while wheel 0 is visited. */
  ghost predicate AcceptsTimers(v: View) {
    (v.stage == 3 && v.visiting == -1) || (v.stage == 1 && v.visiting == 0)
  }

  /** Where a delay chosen now is filed. */
  ghost predicate Chosen(v: View, w: nat, q: nat, delay: nat)
    requires Shape(v)
  {
    var (w', k) := Placement(v.n, delay);
    w == w' && k < v.n && w < 3 && q == TurnOf(v, w) + k
  }

  lemma ArmKeepsInv(v: View, p: Ptr, task: TimerTask, w: nat, q: nat, delay: nat)
    requires Inv(v) && v.n >= 2 && AcceptsTimers(v)
    requires p == v.nextPtr || p in v.flying
    requires v.capacity == Capacity(v.n) && 1 <= delay < v.capacity && Chosen(v, w, q, delay)
    requires task.timeoutFrame == v.frame + delay && (task.isCanceled <==> p in v.cancelledAt)
    requires task.isRepeat ==> DelayFrames(v.interval, task.interval) == delay
    requires Timed(v.interval, v.frame, delay, task.timeoutMs)
    requires p in v.flying ==> p in v.heap && task.isRepeat && task.interval == v.heap[p].interval
    ensures Inv(Arm(v, p, task, w, q, delay))
    ensures !(v.visiting == w && q % v.n == TurnOf(v, w) % v.n)
  {
    var v' := Arm(v, p, task, w, q, delay);
    assert Shape(v') && SlotsInv(v') && ArmedStep(v, v', p, delay) by {
      ArmKeepsSlots(v, p, task, w, q, delay);
      ArmIsAStep(v, p, task, w, q, delay);
    }
    assert !(v.visiting == w && q % v.n == TurnOf(v, w) % v.n) by {
      if v.visiting == w && q % v.n == TurnOf(v, w) % v.n {
        ArmIsOnTime(v, w, q, delay);
        ModWindow(v.frame, q, v.n);
      }
    }
    assert forall x :: x in v'.pend ==> TaskInv(v', x) by { ArmKeepsTasks(v, p, task, w, q, delay); }
    assert HeapInv(v') by { ArmKeepsHeap(v, p, task, w, q, delay); }
    assert HistoryInv(v') by { ArmKeepsHistory(v, v', p, delay); }
    assert OrderInv(v') by {
      if v.visiting == 0 { VisitedAreFiled(v, p); }
      ArmKeepsOrder(v, v', p, delay);
    }
    assert RepeatInv(v') by { ArmKeepsRepeats(v, p, task, w, q, delay); }
  }

  lemma ArmKeepsRepeats(v: View, p: Ptr, task: TimerTask, w: nat, q: nat, delay: nat)
    requires Shape(v) && HeapInv(v) && RepeatInv(v) && w < 3 && (p == v.nextPtr || p in v.flying)
    requires task.isRepeat ==> DelayFrames(v.interval, task.interval) == delay
    requires Timed(v.interval, v.frame, delay, task.timeoutMs)
    requires p in v.flying ==> p in v.heap && task.isRepeat && task.interval == v.heap[p].interval
    ensures Shape(Arm(v, p, task, w, q, delay)) && RepeatInv(Arm(v, p, task, w, q, delay))
  {
    hide DelayFrames, OnVisitFrame, RepeatInv, Timed;
    var v' := Arm(v, p, task, w, q, delay);
    assert v'.history[|v.history|] == Armed(p, v.frame, delay);
    RepeatStep(v, v');
  }

  lemma ArmKeepsTasks(v: View, p: Ptr, task: TimerTask, w: nat, q: nat, delay: nat)
    requires Shape(v) && HistoryInv(v) && p !in v.pend
    requires v.n >= 2 && AcceptsTimers(v) && task.timeoutFrame == v.frame + delay
    requires v.capacity == Capacity(v.n) && 1 <= delay < v.capacity && Chosen(v, w, q, delay)
    requires forall x :: x in v.pend ==> TaskInv(v, x)
    ensures var v' := Arm(v, p, task, w, q, delay); Shape(v') && forall x :: x in v'.pend ==> TaskInv(v', x)
  {
    var v' := Arm(v, p, task, w, q, delay);
    assert v'.pend[p] == Pending(w, q % v.n, q, |v.history|);
    assert v'.history[|v.history|] == Armed(p, v.frame, delay);
    ArmIsOnTime(v, w, q, delay);
    assert TaskInv(v', p);
    forall x | x in v'.pend ensures TaskInv(v', x) {
      if x != p { assert TaskInv(v, x); }
    }
  }

  lemma ArmKeepsHeap(v: View, p: Ptr, task: TimerTask, w: nat, q: nat, delay: nat)
    requires Shape(v) && HeapInv(v) && w < 3
    requires p == v.nextPtr || p in v.flying
    requires task.isRepeat ==> DelayFrames(v.interval, task.interval) < v.capacity
    ensures var v' := Arm(v, p, task, w, q, delay); Shape(v') && HeapInv(v')
  {
  }

  lemma VisitedAreFiled(v: View, p: Ptr)
    requires Shape(v) && SlotsInv(v) && p !in v.pend
    ensures p !in v.slots[0][v.frame % v.n]
  {
    var s := v.frame % v.n;
    forall k | 0 <= k < |v.slots[0][s]| ensures v.slots[0][s][k] != p { assert Filed(v, v.slots[0][s][k], 0, s); }
  }

  lemma ArmKeepsSlots(v: View, p: Ptr, task: TimerTask, w: nat, q: nat, delay: nat)
    requires Shape(v) && SlotsInv(v) && w < 3 && p !in v.pend
    ensures var v' := Arm(v, p, task, w, q, delay); Shape(v') && SlotsInv(v')
  {
    var v1 := v.(heap := v.heap[p := task], nextPtr := if p == v.nextPtr then p + 1 else v.nextPtr,
            flying := v.flying - {p}, history := v.history + [Armed(p, v.frame, delay)]);
    SameSlots(v, v1);
    FileKeepsSlots(v1, p, w, q, |v.history|);
  }

  lemma SameSlots(v: View, v': View)
    requires Shape(v) && SlotsInv(v) && Shape(v') && v'.slots == v.slots && v'.pend == v.pend && v'.n == v.n
    ensures SlotsInv(v')
  {
    forall w, s, k | 0 <= w < 3 && 0 <= s < v.n && 0 <= k < |v.slots[w][s]| ensures Filed(v', v.slots[w][s][k], w, s) {
      assert Filed(v, v.slots[w][s][k], w, s);
    }
    forall w, s | 0 <= w < 3 && 0 <= s < v.n
      ensures NoDuplicates(v'.slots[w][s]) { assert NoDuplicates(v.slots[w][s]); }
  }

  lemma ArmIsAStep(v: View, p: Ptr, task: TimerTask, w: nat, q: nat, delay: nat)
    requires Shape(v) && w < 3 && p !in v.pend && 1 <= delay < v.capacity && p <= v.nextPtr
    requires task.isCanceled <==> p in v.cancelledAt
    ensures ArmedStep(v, Arm(v, p, task, w, q, delay), p, delay)
  {
  }

  lemma ArmIsOnTime(v: View, w: nat, q: nat, delay: nat)
    requires Shape(v) && v.n >= 2 && AcceptsTimers(v)
    requires v.capacity == Capacity(v.n) && 1 <= delay < v.capacity && Chosen(v, w, q, delay)
    ensures Window(v, w, q) && OnTime(v.n, w, q, v.frame, delay)
  {
    if delay >= v.n {
      var x := if w < v.stage then v.frame else v.frame - 1;
      ArmWindow(v.n, v.frame, x, delay);
    }
  }

  ghost predicate SameClock(v: View, v': View) {
    && v'.n == v.n && v'.capacity == v.capacity && v'.interval == v.interval
    && v'.frame == v.frame && v'.stage == v.stage && v'.visiting == v.visiting
  }

  /** What arming changes as far as the history is concerned. */
  ghost predicate ArmedStep(v: View, v': View, p: Ptr, delay: nat)
    requires Shape(v)
  {
    && Shape(v') && SameClock(v, v')
    && v'.history == v.history + [Armed(p, v.frame, delay)]
    && v'.firedAt == v.firedAt && v'.cancelledAt == v.cancelledAt
    && p !in v.pend && p in v'.pend && v'.pend[p].arming == |v.history|
    && (forall x :: x in v.pend ==> x in v'.pend && v'.pend[x] == v.pend[x])
    && v'.nextPtr >= v.nextPtr && p < v'.nextPtr && 1 <= delay < v.capacity
    && v'.heap.Keys == v.heap.Keys + {p} && (v'.heap[p].isCanceled <==> p in v.cancelledAt)
    && (forall x :: x in v.heap && x != p ==> v'.heap[x] == v.heap[x])
  }

  lemma ArmKeepsHistory(v: View, v': View, p: Ptr, delay: nat)
    requires Inv(v) && ArmedStep(v, v', p, delay)
    ensures HistoryInv(v')
  {
    hide RepeatInv, OrderInv, SlotsInv, OnVisitFrame;
    forall i | 0 <= i < |v'.history| && v'.history[i].Armed? ensures ArmingInv(v', i) {
      if i < |v.history| { assert ArmingInv(v, i); }
    }
    forall j | 0 <= j < |v'.history| && v'.history[j].Fired? ensures FiringInv(v', j) { assert FiringInv(v, j); }
    forall k | 0 <= k < |v'.history| && v'.history[k].Cancelled?
      ensures CancellationInv(v', k) { assert CancellationInv(v, k); }
  }

  lemma ArmKeepsOrder(v: View, v': View, p: Ptr, delay: nat)
    requires Shape(v) && OrderInv(v) && ArmedStep(v, v', p, delay) && v.stage != 0
    requires v.visiting == 0 ==>
               && v'.slots[0][v.frame % v.n] == v.slots[0][v.frame % v.n]
               && p !in v.slots[0][v.frame % v.n]
    ensures OrderInv(v')
  {
    forall i, j | 0 <= i < j < |v'.history| ensures OrderedPair(v'.history[i], v'.history[j]) {
      if j < |v.history| { assert OrderedPair(v.history[i], v.history[j]); }
    }
    if v.visiting == 0 {
      forall x | x in v'.slots[0][v.frame % v.n] && x in v'.heap ensures FiredBelow(v', v'.heap[x].timeoutMs) {
        assert FiredBelow(v, v.heap[x].timeoutMs);
      }
    }
  }

  // ---- What a step leaves alone ----

  /** The history and its indexes only grow. */
  ghost predicate Extends(v: View, v': View) {
    && SameClock(v, v') && v.nextPtr <= v'.nextPtr && |v.history| <= |v'.history|
    && (forall i :: 0 <= i < |v.history| ==> v'.history[i] == v.history[i])
    && (forall i :: i in v.firedAt ==> i in v'.firedAt && v'.firedAt[i] == v.firedAt[i])
    && (forall p :: p in v.cancelledAt ==> p in v'.cancelledAt && v'.cancelledAt[p] == v.cancelledAt[p])
    && (forall p :: p in v'.cancelledAt && p !in v.cancelledAt ==> v'.cancelledAt[p] >= |v.history|)
  }

  lemma OldArmings(v: View, v': View)
    requires Shape(v) && ArmingsInv(v) && Extends(v, v')
    requires forall p :: p in v.pend ==>
               || (p in v'.pend && v'.pend[p].arming == v.pend[p].arming)
               || v.pend[p].arming in v'.firedAt
               || (v.pend[p].arming < |v'.history| && v'.history[v.pend[p].arming].Armed?
                   && GivenUp(v', v.pend[p].arming))
    ensures forall i :: 0 <= i < |v.history| && v.history[i].Armed? ==> ArmingInv(v', i)
  {
    forall i | 0 <= i < |v.history| && v.history[i].Armed? ensures ArmingInv(v', i) { assert ArmingInv(v, i); }
  }

  lemma OldFirings(v: View, v': View)
    requires Shape(v) && FiringsInv(v) && Extends(v, v')
    ensures forall j :: 0 <= j < |v.history| && v.history[j].Fired? ==> FiringInv(v', j)
  {
    forall j | 0 <= j < |v.history| && v.history[j].Fired? ensures FiringInv(v', j) { assert FiringInv(v, j); }
  }

  lemma OldCancellations(v: View, v': View)
    requires CancellationsInv(v) && Extends(v, v')
    ensures forall k :: 0 <= k < |v.history| && v.history[k].Cancelled? ==> CancellationInv(v', k)
  {
    forall k | 0 <= k < |v.history| && v.history[k].Cancelled?
      ensures CancellationInv(v', k) { assert CancellationInv(v, k); }
  }

  ghost predicate Untouched(v: View, v': View, x: Ptr) {
    && x in v.pend && x in v'.pend && v'.pend[x] == v.pend[x]
    && x in v.heap && x in v'.heap && v'.heap[x].timeoutFrame == v.heap[x].timeoutFrame
    && (v.pend[x].arming in v'.firedAt ==> v.pend[x].arming in v.firedAt)
  }

  lemma OldTasks(v: View, v': View)
    requires Shape(v) && Shape(v') && Extends(v, v')
    requires forall x :: x in v.pend ==> TaskInv(v, x)
    ensures forall x :: x in v.pend && Untouched(v, v', x) ==> TaskInv(v', x)
  {
    forall x | x in v.pend && Untouched(v, v', x)
      ensures TaskInv(v', x)
    {
      assert TaskInv(v, x);
    }
  }

  /** At most one event is added; if it is a firing, it is not below an earlier one of its frame. */
  lemma OldOrder(v: View, v': View)
    requires Shape(v) && Shape(v') && OrderInv(v) && Extends(v, v') && |v'.history| <= |v.history| + 1 && v.stage != 0
    requires |v'.history| > |v.history| && v'.history[|v.history|].Fired? ==>
               v'.history[|v.history|].frame == v.frame && FiredBelow(v, v'.history[|v.history|].timeoutMs)
    requires v.visiting == 0 ==> forall p :: p in v'.slots[0][v.frame % v.n] && p in v'.heap ==>
               && p in v.slots[0][v.frame % v.n] && p in v.heap && v.heap[p].timeoutMs == v'.heap[p].timeoutMs
               && (|v'.history| > |v.history| && v'.history[|v.history|].Fired? ==>
                   v'.history[|v.history|].timeoutMs <= v.heap[p].timeoutMs)
    ensures OrderInv(v')
  {
    forall i, j | 0 <= i < j < |v'.history| ensures OrderedPair(v'.history[i], v'.history[j]) {
      if j < |v.history| { assert OrderedPair(v.history[i], v.history[j]); }
    }
    if v.visiting == 0 {
      forall x | x in v'.slots[0][v.frame % v.n] && x in v'.heap ensures FiredBelow(v', v'.heap[x].timeoutMs) {
        assert FiredBelow(v, v.heap[x].timeoutMs);
      }
    }
  }

  ghost predicate AtSlot(v: View, s: nat)
    requires Shape(v)
  {
    0 <= v.visiting < 3 && s == TurnOf(v, v.visiting) % v.n && |v.slots[v.visiting][s]| > 0
  }

  /** The head of the visited slot is taken out and its callback is about to run. */
  ghost function Fire(v: View, s: nat): View
    requires Shape(v) && AtSlot(v, s)
    requires v.slots[v.visiting][s][0] in v.pend && v.slots[v.visiting][s][0] in v.heap
  {
    var p := v.slots[v.visiting][s][0];
    var arming := v.pend[p].arming;
    Unfile(v, s).(flying := v.flying + {p},
                  history := v.history + [Fired(p, v.frame, arming, v.heap[p].timeoutMs, Again(v.interval, v.heap[p]))],
                  firedAt := v.firedAt[arming := |v.history|])
  }

  lemma FireKeepsInv(v: View, s: nat)
    requires Inv(v) && v.visiting == 0 && AtSlot(v, s)
    requires var p := v.slots[0][s][0];
             p in v.heap && !v.heap[p].isCanceled
             && forall x :: x in v.slots[0][s] && x in v.heap ==> v.heap[p].timeoutMs <= v.heap[x].timeoutMs
    ensures v.slots[0][s][0] in v.pend && Inv(Fire(v, s))
  {
    hide TaskInv, HistoryInv, OrderInv, SlotsInv, OnVisitFrame, RepeatInv, DelayFrames;
    VisitedHead(v, s);
    var p := v.slots[0][s][0];
    var v' := Fire(v, s);
    assert Shape(v') && SlotsInv(v') by { UnfileKeepsSlots(v, s); SameSlots(Unfile(v, s), v'); }
    FireStep(v, v', p);
    assert HeapInv(v');
    assert forall x :: x in v'.pend ==> TaskInv(v', x) by { OldTasks(v, v'); OtherArmingsDiffer(v, p); }
    assert HistoryInv(v') by { FireKeepsHistory(v, v', p); }
    assert OrderInv(v') by {
      VisitedHeadIsNext(v, p);
      assert v'.slots[0][s] == v.slots[0][s][1..];
      OldOrder(v, v');
    }
    assert RepeatInv(v') by { FireKeepsRepeats(v, v', p); }
  }

  lemma FireKeepsRepeats(v: View, v': View, p: Ptr)
    requires Shape(v) && Shape(v') && HeapInv(v) && RepeatInv(v) && p in v.pend && p in v.heap
    requires v' == v.(slots := v'.slots, pend := v.pend - {p}, flying := v.flying + {p}, firedAt := v'.firedAt,
                      history := v.history + [Fired(p, v.frame, v.pend[p].arming, v.heap[p].timeoutMs,
                                                    Again(v.interval, v.heap[p]))])
    ensures RepeatInv(v')
  {
    hide DelayFrames, OnVisitFrame, Timed;
    assert Paced(v, p);
    hide RepeatInv;
    assert Continued(v', |v.history|);
    RepeatStep(v, v');
  }

  lemma VisitedHeadIsNext(v: View, p: Ptr)
    requires Shape(v) && OrderInv(v) && v.visiting == 0 && p in v.slots[0][v.frame % v.n] && p in v.heap
    ensures FiredBelow(v, v.heap[p].timeoutMs)
  {
  }

  lemma OtherArmingsDiffer(v: View, p: Ptr)
    requires Shape(v) && p in v.pend && forall x :: x in v.pend ==> TaskInv(v, x)
    ensures forall x :: x in v.pend && x != p ==> v.pend[x].arming != v.pend[p].arming
  {
    assert TaskInv(v, p);
    forall x | x in v.pend && x != p ensures v.pend[x].arming != v.pend[p].arming { assert TaskInv(v, x); }
  }

  lemma FireStep(v: View, v': View, p: Ptr)
    requires Shape(v) && TaskInv(v, p)
    requires v' == v.(slots := v'.slots, pend := v.pend - {p}, flying := v.flying + {p},
                      history := v.history + [Fired(p, v.frame, v.pend[p].arming, v.heap[p].timeoutMs,
                                                    Again(v.interval, v.heap[p]))],
                      firedAt := v.firedAt[v.pend[p].arming := |v.history|])
    ensures Extends(v, v')
  {
  }

  lemma FireKeepsHistory(v: View, v': View, p: Ptr)
    requires Shape(v) && Shape(v') && HistoryInv(v) && TaskInv(v, p) && Extends(v, v') && !v.heap[p].isCanceled
    requires v.pend[p].wheel == 0 && v.pend[p].turn == v.frame
    requires v'.history == v.history + [Fired(p, v.frame, v.pend[p].arming, v.heap[p].timeoutMs,
                                              Again(v.interval, v.heap[p]))]
    requires v'.firedAt == v.firedAt[v.pend[p].arming := |v.history|] && v'.pend == v.pend - {p}
    requires v'.heap == v.heap && v'.cancelledAt == v.cancelledAt && v'.nextPtr == v.nextPtr
    ensures HistoryInv(v')
  {
    OldArmings(v, v');
    OldFirings(v, v');
    OldCancellations(v, v');
    assert FiringInv(v', |v.history|);
  }

  /** A cancelled head of wheel 0 is deleted instead of run. */
  ghost function Drop(v: View, s: nat): View
    requires Shape(v) && AtSlot(v, s)
  {
    Unfile(v, s).(heap := v.heap - {v.slots[v.visiting][s][0]})
  }

  lemma DropKeepsInv(v: View, s: nat)
    requires Inv(v) && v.visiting == 0 && AtSlot(v, s)
    requires v.slots[0][s][0] in v.heap && v.heap[v.slots[0][s][0]].isCanceled
    ensures Inv(Drop(v, s))
  {
    hide TaskInv, HistoryInv, OrderInv, SlotsInv, OnVisitFrame, RepeatInv, DelayFrames;
    VisitedHead(v, s);
    var p := v.slots[0][s][0];
    var v' := Drop(v, s);
    assert Shape(v') && SlotsInv(v') by { UnfileKeepsSlots(v, s); SameSlots(Unfile(v, s), v'); }
    assert v'.pend == v.pend - {p};
    assert HeapInv(v');
    assert forall x :: x in v'.pend ==> TaskInv(v', x) by { OldTasks(v, v'); }
    assert HistoryInv(v') by { DropKeepsHistory(v, v', p); }
    assert OrderInv(v') by {
      assert v'.slots[0][s] == v.slots[0][s][1..];
      OldOrder(v, v');
    }
    RepeatStep(v, v');
  }

  lemma DropKeepsHistory(v: View, v': View, p: Ptr)
    requires Shape(v) && Shape(v') && HistoryInv(v) && TaskInv(v, p) && v.heap[p].isCanceled
    requires v.pend[p].wheel == 0 && v.pend[p].turn == v.frame
    requires v' == v.(slots := v'.slots, pend := v.pend - {p}, heap := v.heap - {p})
    ensures HistoryInv(v')
  {
    var i := v.pend[p].arming;
    assert CancellationInv(v, v.cancelledAt[p]);
    assert GivenUp(v', i);
    OldArmings(v, v');
    OldFirings(v, v');
    OldCancellations(v, v');
  }

  /** A one-shot task is deleted once its callback has returned. */
  ghost function Free(v: View, p: Ptr): View {
    v.(heap := v.heap - {p}, flying := v.flying - {p})
  }

  lemma FreeKeepsInv(v: View, p: Ptr)
    requires Inv(v) && p in v.flying && v.stage != 0 && (p in v.heap ==> !v.heap[p].isRepeat)
    ensures Inv(Free(v, p))
  {
    hide TaskInv, HistoryInv, OrderInv, SlotsInv, OnVisitFrame, RepeatInv, DelayFrames;
    var v' := Free(v, p);
    SameSlots(v, v');
    assert HeapInv(v');
    OldTasks(v, v');
    assert HistoryInv(v') by { SameHistory(v, v'); }
    assert OrderInv(v') by { OldOrder(v, v'); }
    RepeatStep(v, v');
  }

  /** A step that neither adds events nor unfiles an arming keeps the history. */
  lemma SameHistory(v: View, v': View)
    requires Shape(v) && Shape(v') && HistoryInv(v) && Extends(v, v') && v'.history == v.history
    requires v'.firedAt == v.firedAt && v'.cancelledAt == v.cancelledAt
    requires forall p :: p in v.pend ==> p in v'.pend && v'.pend[p].arming == v.pend[p].arming
    requires forall p :: p in v'.heap ==> p in v.heap && v'.heap[p] == v.heap[p]
    ensures HistoryInv(v')
  {
    OldArmings(v, v');
    OldFirings(v, v');
    OldCancellations(v, v');
  }

  /** Cancellation only marks the task. */
  ghost function Cancel(v: View, p: Ptr): View
    requires p in v.heap
  {
    v.(heap := v.heap[p := v.heap[p].(isCanceled := true)], history := v.history + [Cancelled(p, v.frame)],
       cancelledAt := if p in v.cancelledAt then v.cancelledAt else v.cancelledAt[p := |v.history|])
  }

  lemma CancelKeepsInv(v: View, p: Ptr)
    requires Inv(v) && p in v.heap && v.stage != 0
    ensures Inv(Cancel(v, p))
  {
    hide TaskInv, HistoryInv, OrderInv, SlotsInv, OnVisitFrame, RepeatInv, DelayFrames;
    var v' := Cancel(v, p);
    SameSlots(v, v');
    assert Extends(v, v');
    assert HeapInv(v');
    assert forall x :: x in v'.pend ==> TaskInv(v', x) by { OldTasks(v, v'); }
    assert HistoryInv(v') by { CancelKeepsHistory(v, v', p); }
    assert OrderInv(v') by { OldOrder(v, v'); }
    assert RepeatInv(v') by { CancelKeepsRepeats(v, p); }
  }

  lemma CancelKeepsRepeats(v: View, p: Ptr)
    requires Shape(v) && HeapInv(v) && RepeatInv(v) && p in v.heap && Shape(Cancel(v, p))
    ensures RepeatInv(Cancel(v, p))
  {
    hide DelayFrames, OnVisitFrame, RepeatInv, Timed;
    RepeatStep(v, Cancel(v, p));
  }

  lemma CancelKeepsHistory(v: View, v': View, p: Ptr)
    requires Shape(v) && Shape(v') && HistoryInv(v) && p in v.heap && p < v.nextPtr && v' == Cancel(v, p)
             && Extends(v, v')
    ensures HistoryInv(v')
  {
    OldArmings(v, v');
    OldFirings(v, v');
    OldCancellations(v, v');
    assert CancellationInv(v', |v.history|);
  }

  /** The head of a visited slot of a higher wheel moves to where its remaining delay belongs. */
  ghost function Cascade(v: View, s: nat, w: nat, q: nat): View
    requires Shape(v) && AtSlot(v, s) && v.slots[v.visiting][s][0] in v.pend && w < 3
  {
    var p := v.slots[v.visiting][s][0];
    File(Unfile(v, s), p, w, q, v.pend[p].arming)
  }

  /** Where a task with r frames left goes; a delay of 0 reaches wheel 0's current slot, which comes
      round again only n frames later. */
  ghost function CascadeTurn(v: View, r: nat): nat
    requires Shape(v)
  {
    var (w, k) := Placement(v.n, r);
    if w >= 3 then 0
    else if w == 0 && k == 0 then v.frame + v.n else TurnOf(v, w) + k
  }

  lemma CascadeKeepsInv(v: View, s: nat)
    requires Inv(v) && v.n >= 2 && v.visiting >= 1 && AtSlot(v, s)
    ensures var p := v.slots[v.visiting][s][0];
            && p in v.pend && p in v.heap && v.heap[p].timeoutFrame >= v.frame
            && var r := v.heap[p].timeoutFrame - v.frame;
            && var (w, k) := Placement(v.n, r);
            && w < 3 && k < v.n && (w == v.visiting ==> k == 1)
            && (TurnOf(v, w) + k) % v.n == CascadeTurn(v, r) % v.n
            && Inv(Cascade(v, s, w, CascadeTurn(v, r)))
  {
    hide TaskInv, HistoryInv, OrderInv, SlotsInv, OnVisitFrame, RepeatInv, DelayFrames;
    VisitedHead(v, s);
    var p := v.slots[v.visiting][s][0];
    var r := CascadeIsOnTime(v, p);
    var (w, k) := Placement(v.n, r);
    var q := CascadeTurn(v, r);
    var v' := Cascade(v, s, w, q);
    assert Shape(v') && SlotsInv(v') by {
      UnfileKeepsSlots(v, s);
      FileKeepsSlots(Unfile(v, s), p, w, q, v.pend[p].arming);
    }
    CascadeKeepsRest(v, v', p, w, q);
    SlotAgain(v, w, k);
  }

  lemma CascadeKeepsRest(v: View, v': View, p: Ptr, w: nat, q: nat)
    requires Inv(v) && Shape(v') && v.visiting >= 1 && p in v.pend && p in v.heap && TaskInv(v, p) && w < 3
    requires v'.pend == (v.pend - {p})[p := Pending(w, q % v.n, q, v.pend[p].arming)]
    requires v' == v.(slots := v'.slots, pend := v'.pend)
    requires Window(v, w, q)
    requires OnTime(v.n, w, q, v.history[v.pend[p].arming].frame, v.history[v.pend[p].arming].delay)
    ensures HeapInv(v') && HistoryInv(v') && OrderInv(v') && RepeatInv(v') && forall x :: x in v'.pend ==>
            TaskInv(v', x)
  {
    hide TaskInv, HistoryInv, OrderInv, SlotsInv, OnVisitFrame, RepeatInv, DelayFrames;
    assert HeapInv(v');
    assert forall x :: x in v'.pend ==> TaskInv(v', x) by {
      OldTasks(v, v');
      CascadedTask(v, v', p, w, q);
    }
    assert HistoryInv(v') by { SameHistory(v, v'); }
    assert OrderInv(v') by { OldOrder(v, v'); }
    RepeatStep(v, v');
  }

  lemma CascadedTask(v: View, v': View, p: Ptr, w: nat, q: nat)
    requires Shape(v) && TaskInv(v, p) && w < 3 && Window(v, w, q) && Extends(v, v') && Shape(v')
    requires p in v'.pend && v'.pend[p] == Pending(w, q % v.n, q, v.pend[p].arming)
    requires v'.heap == v.heap && v'.firedAt == v.firedAt && v'.history == v.history
    requires OnTime(v.n, w, q, v.history[v.pend[p].arming].frame, v.history[v.pend[p].arming].delay)
    ensures TaskInv(v', p)
  {
  }

  lemma SlotAgain(v: View, w: nat, k: nat)
    requires Shape(v) && w < 3
    ensures w == 0 && v.stage >= 1 ==> (TurnOf(v, w) + 0) % v.n == (v.frame + v.n) % v.n
  {
    if v.stage >= 1 {
      DivisionBounds(v.frame, v.n);
      QuotientUnique(v.frame + v.n, v.n, v.frame / v.n + 1);
    }
  }

  lemma CascadeIsOnTime(v: View, p: Ptr) returns (r: nat)
    requires Shape(v) && v.n >= 2 && v.visiting >= 1
    requires TaskInv(v, p) && v.pend[p].wheel == v.visiting && v.pend[p].turn == TurnOf(v, v.visiting)
    ensures v.heap[p].timeoutFrame == v.frame + r
    ensures var (w, k) := Placement(v.n, r);
            && w < 3 && k < v.n && (w == v.visiting ==> k == 1)
            && var q := CascadeTurn(v, r);
            && Window(v, w, q)
            && OnTime(v.n, w, q, v.history[v.pend[p].arming].frame, v.history[v.pend[p].arming].delay)
  {
    var x := v.visiting;
    VisitFrame(v.n, v.frame, x);
    r := v.heap[p].timeoutFrame - v.frame;
    CascadeWindow(v.n, v.frame, x, r);
    var e := v.history[v.pend[p].arming];
    var (w, k) := Placement(v.n, r);
    if w == 0 { CascadeToWheelZero(v.n, v.frame, e.frame, e.delay); }
  }

  // ---- Moving the wheels ----

  ghost function BeginTick(v: View): View {
    v.(frame := v.frame + 1, stage := 0)
  }

  /** Wheel `w`, the next in line, advances by one slot and its new current slot is visited. */
  ghost function Advance(v: View): View {
    v.(stage := v.stage + 1, visiting := v.stage)
  }

  ghost function Leave(v: View): View {
    v.(visiting := -1)
  }

  /** The wheels above a wheel that did not return to slot 0 stay where they are. */
  ghost function Settle(v: View): View {
    v.(stage := 3)
  }

  lemma SettledTurns(n: nat, frame: nat, stage: nat, w: nat)
    requires n >= 1 && frame >= 1 && 1 <= stage <= w < 3
    requires Turn(n, frame, stage - 1) == Turn(n, frame - 1, stage - 1) + 1 && Turn(n, frame, stage - 1) % n != 0
    ensures Turn(n, frame, w) == Turn(n, frame - 1, w)
  {
    TurnAdvances(n, frame, stage);
    if w > stage { TurnAdvances(n, frame, w); }
  }

  /** Changing only the clock keeps everything whose window is kept. */
  lemma ClockKeepsInv(v: View, v': View)
    requires Inv(v) && Shape(v') && v' == v.(frame := v'.frame, stage := v'.stage, visiting := v'.visiting)
    requires v'.frame >= v.frame && OrderInv(v') && (v'.frame == v.frame || v.flying == {})
    requires forall p :: p in v.pend && v.pend[p].wheel < 3 && Window(v, v.pend[p].wheel, v.pend[p].turn)
               ==> Window(v', v.pend[p].wheel, v.pend[p].turn)
    ensures Inv(v')
  {
    hide OnTime, Window, OnVisitFrame, RepeatInv;
    SameSlots(v, v');
    assert HeapInv(v');
    forall p | p in v'.pend ensures TaskInv(v', p) { assert TaskInv(v, p); }
    ClockKeepsHistory(v, v');
    ClockKeepsRepeats(v, v');
  }

  lemma ClockKeepsRepeats(v: View, v': View)
    requires Shape(v) && RepeatInv(v) && Shape(v') && v' == v.(frame := v'.frame, stage := v'.stage,
                                                               visiting := v'.visiting)
    requires HeapInv(v) && (v'.frame == v.frame || v.flying == {})
    ensures RepeatInv(v')
  {
    hide DelayFrames, OnVisitFrame, RepeatInv;
    RepeatStep(v, v');
  }

  lemma ClockKeepsHistory(v: View, v': View)
    requires Shape(v) && HistoryInv(v) && Shape(v') && v' == v.(frame := v'.frame, stage := v'.stage,
                                                                visiting := v'.visiting)
    requires v'.frame >= v.frame
    ensures HistoryInv(v')
  {
    forall i | 0 <= i < |v'.history| && v'.history[i].Armed? ensures ArmingInv(v', i) { assert ArmingInv(v, i); }
    forall j | 0 <= j < |v'.history| && v'.history[j].Fired? ensures FiringInv(v', j) { assert FiringInv(v, j); }
    forall k | 0 <= k < |v'.history| && v'.history[k].Cancelled?
      ensures CancellationInv(v', k) { assert CancellationInv(v, k); }
  }

  lemma BeginTickKeepsInv(v: View)
    requires Inv(v) && v.stage == 3 && v.visiting == -1 && v.flying == {}
    ensures Inv(BeginTick(v))
    ensures forall w :: 0 <= w < 3 ==> TurnOf(BeginTick(v), w) == TurnOf(v, w)
  {
    hide TaskInv, SlotsInv, HeapInv, CancellationInv, ArmingInv, RepeatInv;
    var v' := BeginTick(v);
    forall j | 0 <= j < |v'.history| && v'.history[j].Fired?
      ensures v'.history[j].frame < v'.frame { assert FiringInv(v, j); }
    ClockKeepsInv(v, v');
  }

  /** Wheel 0 always advances; a higher wheel when the one below has returned to slot 0. */
  lemma AdvanceKeepsInv(v: View)
    requires Inv(v) && v.stage < 3 && v.visiting == -1
    requires v.stage >= 1 ==> Advanced(v, v.stage - 1) && Turn(v.n, v.frame, v.stage - 1) % v.n == 0
    requires OnVisitFrame(v.n, v.frame, v.stage)
    requires v.stage == 0 ==> forall j :: 0 <= j < |v.history| && v.history[j].Fired? ==> v.history[j].frame < v.frame
    ensures Inv(Advance(v)) && Advanced(Advance(v), v.stage)
    ensures TurnOf(Advance(v), v.stage) == TurnOf(v, v.stage) + 1
  {
    hide TaskInv, SlotsInv, HeapInv, HistoryInv, RepeatInv;
    var v' := Advance(v);
    if v.stage >= 1 { TurnAdvances(v.n, v.frame, v.stage); }
    ClockKeepsInv(v, v');
  }

  /** Wheel w has moved in this tick. */
  ghost predicate Advanced(v: View, w: nat)
    requires Shape(v) && w < 3
  {
    v.frame >= 1 && Turn(v.n, v.frame, w) == Turn(v.n, v.frame - 1, w) + 1
  }

  lemma LeaveKeepsInv(v: View)
    requires Inv(v) && 0 <= v.visiting < 3 && |v.slots[v.visiting][TurnOf(v, v.visiting) % v.n]| == 0
    ensures Inv(Leave(v))
  {
    var v' := Leave(v);
    var s := TurnOf(v, v.visiting) % v.n;
    forall p | p in v.pend && v.pend[p].wheel < 3 && Window(v, v.pend[p].wheel, v.pend[p].turn)
      ensures Window(v', v.pend[p].wheel, v.pend[p].turn)
    {
      assert TaskInv(v, p);
      if v.pend[p].wheel == v.visiting && v.pend[p].turn == TurnOf(v, v.visiting) {
        assert false;
      }
    }
    ClockKeepsInv(v, v');
  }

  lemma SettleKeepsInv(v: View)
    requires Inv(v) && v.visiting == -1 && 1 <= v.stage <= 3
    requires v.stage < 3 ==> Advanced(v, v.stage - 1) && Turn(v.n, v.frame, v.stage - 1) % v.n != 0
    ensures Inv(Settle(v))
    ensures forall w :: 0 <= w < 3 ==> TurnOf(Settle(v), w) == TurnOf(v, w)
  {
    var v' := Settle(v);
    forall w | v.stage <= w < 3 ensures TurnOf(v', w) == TurnOf(v, w) { SettledTurns(v.n, v.frame, v.stage, w); }
    ClockKeepsInv(v, v');
  }

  /** Sorting the visited slot changes nothing but its order. */
  lemma SortKeepsInv(v: View, s: nat, sorted: seq<Ptr>)
    requires Inv(v) && v.visiting == 0 && s == v.frame % v.n && multiset(sorted) == multiset(v.slots[0][s])
    ensures Inv(v.(slots := v.slots[0 := v.slots[0][s := sorted]]))
  {
    hide OnTime, Window, OnVisitFrame;
    var v' := v.(slots := v.slots[0 := v.slots[0][s := sorted]]);
    SameMembers(sorted, v.slots[0][s]);
    assert SlotsInv(v') by { SortKeepsSlots(v, s, sorted); }
    assert HeapInv(v');
    assert forall x :: x in v'.pend ==> TaskInv(v', x) by { OldTasks(v, v'); }
    assert HistoryInv(v') by { SameHistory(v, v'); }
    assert OrderInv(v') by { OldOrder(v, v'); }
    assert RepeatInv(v') by { RepeatStep(v, v'); }
  }

  lemma SameMembers<T>(a: seq<T>, b: seq<T>)
    requires multiset(a) == multiset(b)
    ensures forall x :: x in a <==> x in b
  {
    forall x ensures x in a <==> x in b { assert x in multiset(a) <==> x in multiset(b); }
  }

  lemma PermutedNoDuplicates<T>(a: seq<T>, b: seq<T>)
    requires multiset(a) == multiset(b) && NoDuplicates(b)
    ensures NoDuplicates(a)
  {
    forall i, j | 0 <= i < j < |a| ensures a[i] != a[j] {
      if a[i] == a[j] {
        Multiplicity(a, i, j);
        AtMostOnce(b, a[i]);
        assert false;
      }
    }
  }

  lemma Multiplicity<T>(a: seq<T>, i: nat, j: nat)
    requires i < j < |a| && a[i] == a[j]
    ensures multiset(a)[a[i]] >= 2
  {
    assert a == a[..i] + [a[i]] + a[i + 1..j] + [a[j]] + a[j + 1..];
  }

  lemma AtMostOnce<T>(b: seq<T>, x: T)
    requires NoDuplicates(b)
    ensures multiset(b)[x] <= 1
  {
    if x in b {
      var k :| 0 <= k < |b| && b[k] == x;
      assert b == b[..k] + [x] + b[k + 1..];
      assert x !in b[..k] && x !in b[k + 1..];
    }
  }

  lemma SortKeepsSlots(v: View, s: nat, sorted: seq<Ptr>)
    requires Shape(v) && SlotsInv(v) && s < v.n && multiset(sorted) == multiset(v.slots[0][s])
    ensures SlotsInv(v.(slots := v.slots[0 := v.slots[0][s := sorted]]))
  {
    var v' := v.(slots := v.slots[0 := v.slots[0][s := sorted]]);
    SameMembers(sorted, v.slots[0][s]);
    forall w', s', k | 0 <= w' < 3 && 0 <= s' < v.n && 0 <= k < |v'.slots[w'][s']|
      ensures Filed(v', v'.slots[w'][s'][k], w', s') {
      var x := v'.slots[w'][s'][k];
      assert x in v.slots[w'][s'];
      var k' :| 0 <= k' < |v.slots[w'][s']| && v.slots[w'][s'][k'] == x;
      assert Filed(v, v.slots[w'][s'][k'], w', s');
    }
    forall w', s' | 0 <= w' < 3 && 0 <= s' < v.n ensures NoDuplicates(v'.slots[w'][s']) {
      assert NoDuplicates(v.slots[w'][s']);
      if w' == 0 && s' == s { PermutedNoDuplicates(sorted, v.slots[0][s]); }
    }
  }

  // ---- What the history says ----

  /** Between ticks: an arming is fired exactly once, in exactly its due frame, unless its task was
      cancelled no later than that frame; before the due frame it is filed and has not fired. */
  lemma FiringFrame(v: View, i: nat)
    requires Inv(v) && v.visiting == -1 && v.stage == 3 && v.flying == {} && i < |v.history| && v.history[i].Armed?
    ensures var e := v.history[i];
            var due := DueFrame(v.n, e.frame, e.delay);
            && (v.frame < due ==>
                  && (forall j :: 0 <= j < |v.history| ==> !(v.history[j].Fired? && v.history[j].arming == i))
                  && e.task in v.heap && v.heap[e.task].timeoutFrame == e.frame + e.delay)
            && (due <= v.frame ==>
                  || (exists j :: i < j < |v.history| && v.history[j].Fired? && v.history[j].arming == i
                       && v.history[j].frame == due && v.history[j].task == e.task
                       && forall j' :: 0 <= j' < |v.history| && v.history[j'].Fired? && v.history[j'].arming == i ==>
                          j' == j)
                  || ((forall j :: 0 <= j < |v.history| ==> !(v.history[j].Fired? && v.history[j].arming == i))
                       && (exists k :: 0 <= k < |v.history| && v.history[k].Cancelled? && v.history[k].task == e.task
                                       && v.history[k].frame <= due)))
  {
    var e := v.history[i];
    var due := DueFrame(v.n, e.frame, e.delay);
    assert ArmingInv(v, i);
    forall j | 0 <= j < |v.history| && v.history[j].Fired? && v.history[j].arming == i
      ensures i in v.firedAt && v.firedAt[i] == j && j > i && v.history[j].frame == due && v.history[j].task == e.task
              && due <= v.frame
    {
      assert FiringInv(v, j);
    }
    if e.task in v.pend && v.pend[e.task].arming == i {
      assert TaskInv(v, e.task);
      PendingIsNotDue(v, e.task);
    } else if i in v.firedAt {
      var j := v.firedAt[i];
      assert FiringInv(v, j);
    } else {
      assert GivenUp(v, i);
    }
  }

  /** A filed task's due frame still lies ahead. */
  lemma PendingIsNotDue(v: View, p: Ptr)
    requires Inv(v) && v.visiting == -1 && v.stage == 3 && p in v.pend
    ensures TaskInv(v, p) && v.frame < DueFrame(v.n, v.history[v.pend[p].arming].frame,
                                                v.history[v.pend[p].arming].delay)
  {
    hide OnTime, ArmingInv, FiringInv, DueFrame;
    assert TaskInv(v, p);
    var r := v.pend[p];
    NotDueYet(v.n, v.frame, r.wheel, r.turn, v.history[r.arming].frame, v.history[r.arming].delay);
  }

  lemma NotDueYet(n: nat, frame: nat, w: nat, q: nat, armed: nat, delay: nat)
    requires n >= 1 && w < 3 && OnTime(n, w, q, armed, delay) && q > Turn(n, frame, w)
    ensures frame < DueFrame(n, armed, delay)
  {
    if w >= 1 {
      var span := SlotSpan(n, w);
      var t := Turn(n, frame, w);
      assert frame < span * t + span by { TurnBounds(n, frame, w); }
      assert span * (t + 1) <= span * q by { MulLe(span, t + 1, q); }
      assert span * (t + 1) == span * t + span;
      assert span * q <= armed + delay;
    }
  }

  /** A repeat timer goes on: whenever it has fired, it is armed again in that frame, with the delay it was armed
      with before. */
  lemma RepeatsGoOn(v: View, j: nat)
    requires Inv(v) && v.flying == {} && j < |v.history| && v.history[j].Fired? && v.history[j].again > 0
    ensures var f := v.history[j];
            && f.arming < j && v.history[f.arming] == Armed(f.task, v.history[f.arming].frame, f.again)
            && exists i :: j < i < |v.history| && v.history[i] == Armed(f.task, f.frame, f.again)
  {
    assert FiringInv(v, j) && Continued(v, j);
  }

  /** In milliseconds: apart from the round that a task may be late, it runs in the frame its timeout falls into, or in
      the next frame if that one has begun. The same holds of any duration that its delay stands for. */
  lemma FiresInMilliseconds(v: View, j: nat)
    requires Inv(v) && j < |v.history| && v.history[j].Fired?
    ensures var f := v.history[j];
            && f.arming < j && v.history[f.arming].Armed?
            && var e := v.history[f.arming];
            var frame := e.frame + e.delay;
            && (f.frame == frame || (f.frame == frame + v.n && e.delay >= v.n && frame % v.n == 0))
            && InTime(v.interval, f.timeoutMs, 0, frame, e.frame)
            && forall ms: nat :: InFrames(v.interval, ms, e.delay) ==>
                 InTime(v.interval, ms, e.frame, frame, e.frame)
  {
    hide InTime, InFrames, Timed;
    assert FiringInv(v, j) && Continued(v, j);
    var e := v.history[v.history[j].arming];
    hide Inv, Continued, FiringInv;
    TimedFrame(v.interval, e.frame, e.delay, v.history[j].timeoutMs);
    forall ms: nat | InFrames(v.interval, ms, e.delay)
      ensures InTime(v.interval, ms, e.frame, e.frame + e.delay, e.frame) {
      DelayInTime(v.interval, ms, e.frame, e.delay);
    }
  }

  /** Milliseconds counted from the beginning of frame `from` end within `frame`, or before it and that is the first
      frame after `armed`. */
  ghost predicate InTime(interval: nat, ms: nat, from: nat, frame: nat, armed: nat) {
    && ms < (frame - from + 1) * interval
    && (frame == armed + 1 || (frame - from) * interval <= ms)
  }

  lemma DelayInTime(interval: nat, ms: nat, armed: nat, delay: nat)
    requires InFrames(interval, ms, delay)
    ensures InTime(interval, ms, armed, armed + delay, armed)
  {
  }

  lemma TimedFrame(interval: nat, armed: nat, delay: nat, timeoutMs: nat)
    requires Timed(interval, armed, delay, timeoutMs)
    ensures InTime(interval, timeoutMs, 0, armed + delay, armed)
  {
    assert (armed + delay) * interval == armed * interval + interval * delay;
    assert (armed + delay + 1) * interval == armed * interval + interval * (delay + 1);
  }

  /** A task that has been cancelled never runs again. */
  lemma CancelledNeverFires(v: View, k: nat, j: nat)
    requires Inv(v) && k < j < |v.history| && v.history[k].Cancelled? && v.history[j].Fired?
    ensures v.history[k].task != v.history[j].task
  {
    assert CancellationInv(v, k) && FiringInv(v, j);
  }

  /** A firing is on time exactly when the task skipped the higher wheels or was not due on a multiple
      of n; otherwise it is one whole round of wheel 0 late. */
  lemma OnTimeExactlyWhen(v: View, j: nat)
    requires Inv(v) && j < |v.history| && v.history[j].Fired?
    ensures var i := v.history[j].arming;
            && i < j && v.history[i].Armed?
            && var timeout := v.history[i].frame + v.history[i].delay;
            && (v.history[j].frame == timeout <==> v.history[i].delay < v.n || timeout % v.n != 0)
            && (v.history[j].frame != timeout ==> v.history[j].frame == timeout + v.n)
  {
    assert FiringInv(v, j);
  }

  /** Callbacks of one frame run in the order of their timeouts. */
  lemma TimeoutOrder(v: View, i: nat, j: nat)
    requires Inv(v) && i < j < |v.history| && v.history[i].Fired? && v.history[j].Fired?
             && v.history[i].frame == v.history[j].frame
    ensures v.history[i].timeoutMs <= v.history[j].timeoutMs
  {
    assert OrderedPair(v.history[i], v.history[j]);
  }
}
