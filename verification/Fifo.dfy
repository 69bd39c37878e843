/** The ring queue as atomic steps of one producer and one consumer, in any interleaving. `tail` is moved before
    the data is written; `tailUpdate` says how far the data may be read. */
module Fifo {
  import opened Division
  import opened Options

  /** Where a push stands; every constructor is the state before its next atomic step. */
  datatype Producer<T> =
    | Resting
    | LoadTail(val: T)
    | CheckFull(val: T, t: nat)
    | MoveTail(val: T, t: nat)
    | WriteData(val: T, t: nat)
    | Publish(t: nat)

  /** Where a pop stands. */
  datatype Consumer<T> =
    | Waiting
    | LoadHead
    | CheckEmpty(h: nat)
    | CheckPublished(h: nat)
    | ReadData(h: nat)
    | MoveHead(h: nat, val: T)
    | ReadGarbage

  /** The shared cells, both threads, and what was put in and taken out so far. */
  datatype State<T> = State(
    data: seq<Option<T>>, head: nat, tail: nat, tailUpdate: nat, producer: Producer<T>, consumer: Consumer<T>,
        pushed: seq<T>, popped: seq<T>)

  function Init<T>(cap: nat): State<T> {
    State(seq(cap + 1, i => None), 0, 0, 0, Resting, Waiting, [], [])
  }

  function Succ(i: nat, size: nat): nat
    requires size > 0
  {
    (i + 1) % size
  }

  /** The producer's next atomic step. */
  function PushStep<T>(s: State<T>): State<T>
    requires |s.data| > 0
  {
    var size := |s.data|;
    match s.producer
    case Resting => s
    case LoadTail(val) => s.(producer := CheckFull(val, s.tail))
    case CheckFull(val, t) => s.(producer := if Succ(t, size) == s.head then Resting else MoveTail(val, t))
    case MoveTail(val, t) =>
      if s.tail == t then s.(tail := Succ(t, size), producer := WriteData(val, t), pushed := s.pushed + [val])
      else s.(producer := LoadTail(val))
    case WriteData(val, t) =>
      if t < size then s.(data := s.data[t := Some(val)], producer := Publish(t)) else s
    case Publish(t) =>
      // The loop goes on as long as the exchange succeeds.
      if s.tailUpdate == t then s.(tailUpdate := Succ(t, size)) else s.(producer := Resting)
  }

  /** The consumer's next atomic step. */
  function PopStep<T>(s: State<T>): State<T>
    requires |s.data| > 0
  {
    var size := |s.data|;
    match s.consumer
    case Waiting => s
    case LoadHead => s.(consumer := CheckEmpty(s.head))
    case CheckEmpty(h) => s.(consumer := if h == s.tail then Waiting else CheckPublished(h))
    case CheckPublished(h) => s.(consumer := if h == s.tailUpdate then Waiting else ReadData(h))
    case ReadData(h) =>
      s.(consumer := if h < size && s.data[h].Some? then MoveHead(h, s.data[h].value) else ReadGarbage)
    case MoveHead(h, val) =>
      if s.head == h then s.(head := Succ(h, size), consumer := Waiting, popped := s.popped + [val])
      else s.(consumer := LoadHead)
    case ReadGarbage => s
  }

  /** One step of either thread, or the start of a call. */
  ghost predicate Next<T(!new)>(s: State<T>, s': State<T>)
    requires |s.data| > 0
  {
    || (s.producer == Resting && exists val :: s' == s.(producer := LoadTail(val)))
    || (s.consumer == Waiting && s' == s.(consumer := LoadHead))
    || s' == PushStep(s)
    || s' == PopStep(s)
  }

  // ---- What every step keeps ----

  /** Elements whose data is written, and elements released to the consumer. */
  function Written<T>(s: State<T>): int {
    if s.producer.WriteData? then |s.pushed| - 1 else |s.pushed|
  }

  function Published<T>(s: State<T>): int
    requires |s.data| > 0
  {
    if s.producer.WriteData? || (s.producer.Publish? && s.tailUpdate == s.producer.t) then |s.pushed| - 1
        else |s.pushed|
  }

  ghost predicate Cells<T>(s: State<T>) {
    var size := |s.data|;
    && size > 0 && |s.popped| <= |s.pushed| < |s.popped| + size
    && s.head == |s.popped| % size && s.tail == |s.pushed| % size
    && |s.popped| <= Published(s) && s.tailUpdate == Published(s) % size
  }

  ghost predicate Contents<T>(s: State<T>) {
    && |s.data| > 0 && s.popped <= s.pushed
    && forall k: nat :: |s.popped| <= k < Written(s) ==> s.data[k % |s.data|] == Some(s.pushed[k])
  }

  ghost predicate ProducerOk<T>(s: State<T>)
    requires |s.data| > 0
  {
    var size := |s.data|;
    match s.producer
    case Resting => true
    case LoadTail(_) => true
    case CheckFull(_, t) => t == |s.pushed| % size
    case MoveTail(_, t) => t == |s.pushed| % size && |s.pushed| + 1 < |s.popped| + size
    case WriteData(val, t) => |s.pushed| > |s.popped| && t == (|s.pushed| - 1) % size
        && val == s.pushed[|s.pushed| - 1] && size > 1
    case Publish(t) => |s.pushed| > 0 && t == (|s.pushed| - 1) % size && size > 1
  }

  ghost predicate ConsumerOk<T>(s: State<T>)
    requires |s.data| > 0
  {
    var size := |s.data|;
    match s.consumer
    case Waiting => true
    case LoadHead => true
    case CheckEmpty(h) => h == |s.popped| % size
    case CheckPublished(h) => h == |s.popped| % size
    case ReadData(h) => h == |s.popped| % size && |s.popped| < Published(s)
    case MoveHead(h, val) => h == |s.popped| % size && |s.popped| < Published(s) && val == s.pushed[|s.popped|]
    case ReadGarbage => false
  }

  ghost predicate Inv<T>(s: State<T>) {
    Cells(s) && Contents(s) && ProducerOk(s) && ConsumerOk(s)
  }

  /** Within one turn of the ring different positions are different cells. */
  lemma SameCell(a: nat, b: nat, size: nat)
    requires size > 0 && a <= b < a + size
    ensures a % size == b % size <==> a == b
  {
    var turns := b / size - a / size;
    Multiple(turns, size);
    assert b - a == size * turns + (b % size - a % size);
  }

  lemma Multiple(q: int, size: nat)
    requires size > 0
    ensures q >= 1 ==> size * q >= size
    ensures q <= 0 ==> size * q <= 0
  {
  }

  lemma Following(a: nat, size: nat)
    requires size > 0
    ensures (a + 1) % size == Succ(a % size, size)
  {
    FollowingAt(a, a / size, a % size, size);
  }

  lemma FollowingAt(a: nat, q: nat, r: nat, size: nat)
    requires r < size && a == size * q + r
    ensures (a + 1) % size == Succ(r, size)
  {
    if r + 1 < size {
      QuotientUnique(a + 1, size, q);
      QuotientUnique(r + 1, size, 0);
    } else {
      assert size * (q + 1) == size * q + size;
      QuotientUnique(a + 1, size, q + 1);
      QuotientUnique(size, size, 1);
    }
  }

  lemma InitInv<T>(cap: nat)
    ensures Inv(Init<T>(cap))
  {
    assert 0 % (cap + 1) == 0;
  }

  lemma PushKeepsInv<T>(s: State<T>)
    requires Inv(s)
    ensures Inv(PushStep(s))
  {
    var size := |s.data|;
    match s.producer
    case Resting =>
    case LoadTail(_) =>
    case CheckFull(_, t) => FullExactlyWhen(s);
    case MoveTail(val, t) => ClaimKeepsInv(s);
    case WriteData(val, t) => WriteKeepsInv(s);
    case Publish(t) => PublishKeepsInv(s);
  }

  /** The check sees a full ring exactly when it holds its capacity. */
  lemma FullExactlyWhen<T>(s: State<T>)
    requires Cells(s)
    ensures Succ(|s.pushed| % |s.data|, |s.data|) == s.head <==> |s.pushed| - |s.popped| == |s.data| - 1
  {
    var size := |s.data|;
    Following(|s.pushed|, size);
    if |s.pushed| + 1 < |s.popped| + size {
      SameCell(|s.popped|, |s.pushed| + 1, size);
    } else {
      assert |s.pushed| + 1 == |s.popped| + size;
      Around(|s.popped|, size);
    }
  }

  lemma Around(a: nat, size: nat)
    requires size > 0
    ensures (a + size) % size == a % size
  {
    QuotientUnique(a + size, size, a / size + 1);
  }

  lemma ClaimKeepsInv<T>(s: State<T>)
    requires Inv(s) && s.producer.MoveTail?
    ensures Inv(PushStep(s))
  {
    Following(|s.pushed|, |s.data|);
  }

  lemma WriteKeepsInv<T>(s: State<T>)
    requires Inv(s) && s.producer.WriteData?
    ensures Inv(PushStep(s))
  {
    var s', size, n := PushStep(s), |s.data|, |s.pushed|;
    SameCell(n - 1, n, size);
    forall k: nat | |s'.popped| <= k < n ensures s'.data[k % size] == Some(s'.pushed[k]) {
      SameCell(k, n - 1, size);
    }
  }

  lemma PublishKeepsInv<T>(s: State<T>)
    requires Inv(s) && s.producer.Publish?
    ensures Inv(PushStep(s))
  {
    Following(|s.pushed| - 1, |s.data|);
    SameCell(|s.pushed| - 1, |s.pushed|, |s.data|);
  }

  lemma PopKeepsInv<T>(s: State<T>)
    requires Inv(s)
    ensures Inv(PopStep(s))
  {
    var size := |s.data|;
    match s.consumer
    case Waiting =>
    case LoadHead =>
    case CheckEmpty(h) =>
    case CheckPublished(h) => if h != s.tailUpdate { assert |s.popped| < Published(s); }
    case ReadData(h) => assert s.data[|s.popped| % size] == Some(s.pushed[|s.popped|]);
    case MoveHead(h, val) => TakeKeepsInv(s);
  }

  lemma TakeKeepsInv<T>(s: State<T>)
    requires Inv(s) && s.consumer.MoveHead?
    ensures Inv(PopStep(s))
  {
    Following(|s.popped|, |s.data|);
    assert s.pushed[..|s.popped| + 1] == s.popped + [s.pushed[|s.popped|]];
  }

  lemma NextKeepsInv<T(!new)>(s: State<T>, s': State<T>)
    requires Inv(s) && Next(s, s')
    ensures Inv(s') && |s'.data| == |s.data|
  {
    if s' == PushStep(s) {
      PushKeepsInv(s);
    } else if s' == PopStep(s) {
      PopKeepsInv(s);
    }
  }

  // ---- Whole runs ----

  ghost predicate Run<T(!new)>(run: seq<State<T>>, cap: nat) {
    && |run| > 0 && run[0] == Init(cap)
    && forall i :: 0 <= i < |run| - 1 ==> |run[i].data| == cap + 1 && Next(run[i], run[i + 1])
  }

  lemma {:induction false} RunKeepsInv<T(!new)>(run: seq<State<T>>, cap: nat, i: nat)
    requires Run(run, cap) && i < |run|
    ensures Inv(run[i]) && |run[i].data| == cap + 1
  {
    hide Inv, Next;
    if i == 0 {
      InitInv<T>(cap);
    } else {
      RunKeepsInv(run, cap, i - 1);
      NextKeepsInv(run[i - 1], run[i]);
    }
  }

  /** In every interleaving the popped values are a prefix of the pushed ones, no cell is read before it was
      written, and no more than the capacity is held. */
  lemma FifoOrder<T(!new)>(run: seq<State<T>>, cap: nat, i: nat)
    requires Run(run, cap) && i < |run|
    ensures var s := run[i];
            s.popped <= s.pushed && !s.consumer.ReadGarbage? && |s.pushed| - |s.popped| <= cap
  {
    RunKeepsInv(run, cap, i);
  }

  // ---- The queue it stands for ----

  /** What has been pushed and not yet popped. */
  function Queue<T>(s: State<T>): seq<T>
    requires |s.popped| <= |s.pushed|
  {
    s.pushed[|s.popped|..]
  }

  /** Each step leaves the queue alone, appends the value being pushed when there is room, or takes the first value,
      and gives it to the consumer. */
  lemma StepIsQueueStep<T(!new)>(s: State<T>, s': State<T>)
    requires Inv(s) && Next(s, s')
    ensures Inv(s')
    ensures if s.producer.MoveTail? && s' == PushStep(s) then |Queue(s)| < |s.data| - 1
            && Queue(s') == Queue(s) + [s.producer.val]
            else if s.consumer.MoveHead? && s' == PopStep(s) then [s.consumer.val] + Queue(s') == Queue(s)
                && s'.popped == s.popped + [s.consumer.val]
            else Queue(s') == Queue(s)
  {
    NextKeepsInv(s, s');
    if s.consumer.MoveHead? && s' == PopStep(s) { TakeFirst(s); }
  }

  lemma TakeFirst<T>(s: State<T>)
    requires Inv(s) && s.consumer.MoveHead?
    ensures var s' := PopStep(s);
            |s'.popped| <= |s'.pushed| && [s.consumer.val] + Queue(s') == Queue(s)
                && s'.popped == s.popped + [s.consumer.val]
  {
  }

  /** A push gives up only when the queue is full at that moment, a pop only when it is empty or its one value is
      not yet released. */
  lemma GivesUpExactlyWhen<T>(s: State<T>)
    requires Inv(s)
    ensures s.producer.CheckFull? ==> (PushStep(s).producer == Resting <==> |Queue(s)| == |s.data| - 1)
    ensures s.consumer.CheckEmpty? ==> (PopStep(s).consumer == Waiting <==> Queue(s) == [])
    ensures s.consumer.CheckPublished? ==> (PopStep(s).consumer == Waiting <==> Published(s) == |s.popped|)
  {
    FullExactlyWhen(s);
    SameCell(|s.popped|, |s.pushed|, |s.data|);
    SameCell(|s.popped|, Published(s), |s.data|);
  }

  /** Publishing ends: the exchange succeeds once, then fails, whatever the consumer does in between. */
  lemma PublishEnds<T>(s: State<T>)
    requires Inv(s) && s.producer.Publish?
    ensures var s' := PushStep(s);
            if s.tailUpdate == s.producer.t then s'.producer == s.producer && s'.tailUpdate != s.producer.t
                && Published(s') == |s'.pushed|
            else s'.producer == Resting && Published(s) == |s.pushed|
  {
    PublishKeepsInv(s);
    Following(|s.pushed| - 1, |s.data|);
    SameCell(|s.pushed| - 1, |s.pushed|, |s.data|);
  }

  // ---- A push or a pop that runs alone ----

  function PushSteps<T>(s: State<T>, k: nat): (s': State<T>)
    requires |s.data| > 0
    ensures |s'.data| == |s.data|
  {
    if k == 0 then s else PushStep(PushSteps(s, k - 1))
  }

  function PopSteps<T>(s: State<T>, k: nat): (s': State<T>)
    requires |s.data| > 0
    ensures |s'.data| == |s.data|
  {
    if k == 0 then s else PopStep(PopSteps(s, k - 1))
  }

  /** A push that meets a full queue changes nothing; any other one appends its value, which can then be read. */
  lemma PushAlone<T>(s: State<T>)
    requires Inv(s) && s.producer.LoadTail?
    ensures |Queue(s)| == |s.data| - 1 ==> PushSteps(s, 2) == s.(producer := Resting)
    ensures |Queue(s)| < |s.data| - 1 ==>
              var s' := PushSteps(s, 6);
              && s'.producer == Resting && s'.consumer == s.consumer && s'.popped == s.popped
              && s'.pushed == s.pushed + [s.producer.val] && Published(s') == |s'.pushed|
  {
    var a := PushStep(s);
    var b := PushStep(a);
    PushStepsAre(s, a, b);
    PushKeepsInv(s);
    GivesUpExactlyWhen(a);
    if |Queue(s)| < |s.data| - 1 {
      PushKeepsInv(a);
      PushFromClaim(b);
    }
  }

  lemma PushStepsAre<T>(s: State<T>, a: State<T>, b: State<T>)
    requires |s.data| > 0 && a == PushStep(s) && |a.data| > 0 && b == PushStep(a)
    ensures PushSteps(s, 2) == b && PushSteps(s, 6) == PushSteps(b, 4)
  {
    hide PushStep;
    assert PushSteps(s, 1) == PushStep(PushSteps(s, 0)) == a;
    assert PushSteps(s, 2) == PushStep(PushSteps(s, 1));
    forall k | 0 <= k < 5 ensures PushSteps(s, k + 2) == PushSteps(b, k) { PushStepsAfter(s, 2, k); }
  }

  lemma {:induction false} PushStepsAfter<T>(s: State<T>, j: nat, k: nat)
    requires |s.data| > 0
    ensures PushSteps(s, j + k) == PushSteps(PushSteps(s, j), k)
  {
    hide PushStep;
    if k > 0 {
      PushStepsAfter(s, j, k - 1);
      assert j + (k - 1) == j + k - 1;
    }
  }

  lemma PushFromClaim<T>(b: State<T>)
    requires Inv(b) && b.producer.MoveTail?
    ensures var s' := PushSteps(b, 4);
            && s'.producer == Resting && s'.consumer == b.consumer && s'.popped == b.popped
            && s'.pushed == b.pushed + [b.producer.val] && Published(s') == |s'.pushed|
  {
    var c := PushStep(b);
    PushKeepsInv(b);
    var d := PushStep(c);
    PushKeepsInv(c);
    var e := PushStep(d);
    PublishEnds(d);
    PushKeepsInv(d);
    PublishEnds(e);
    assert PushSteps(b, 1) == PushStep(PushSteps(b, 0)) == c;
    assert PushSteps(b, 2) == PushStep(PushSteps(b, 1)) == d;
    assert PushSteps(b, 3) == PushStep(PushSteps(b, 2)) == e;
    assert PushSteps(b, 4) == PushStep(PushSteps(b, 3)) == PushStep(e);
  }

  /** A pop that meets a queue without a readable value changes nothing; any other one takes the oldest value. */
  lemma PopAlone<T>(s: State<T>)
    requires Inv(s) && s.consumer.LoadHead?
    ensures Queue(s) == [] ==> PopSteps(s, 2) == s.(consumer := Waiting)
    ensures Queue(s) != [] && Published(s) == |s.popped| ==> PopSteps(s, 3) == s.(consumer := Waiting)
    ensures Published(s) > |s.popped| ==>
              var s' := PopSteps(s, 5);
              && s'.consumer == Waiting && s'.producer == s.producer && s'.pushed == s.pushed
              && Queue(s) != [] && s'.popped == s.popped + [Queue(s)[0]]
  {
    var a := PopStep(s);
    PopKeepsInv(s);
    GivesUpExactlyWhen(a);
    var b := PopStep(a);
    PopKeepsInv(a);
    assert PopSteps(s, 1) == PopStep(PopSteps(s, 0)) == a;
    assert PopSteps(s, 2) == PopStep(PopSteps(s, 1)) == b;
    if Queue(s) != [] {
      GivesUpExactlyWhen(b);
      var c := PopStep(b);
      PopKeepsInv(b);
      assert PopSteps(s, 3) == PopStep(PopSteps(s, 2)) == c;
      if Published(s) > |s.popped| {
        var d := PopStep(c);
        PopKeepsInv(c);
        TakeFirst(d);
        assert PopSteps(s, 4) == PopStep(PopSteps(s, 3)) == d;
        assert PopSteps(s, 5) == PopStep(PopSteps(s, 4)) == PopStep(d);
      }
    }
  }
}
