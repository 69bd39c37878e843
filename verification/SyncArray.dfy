/** An array that logs what is done to it, so that a replica can follow. Elements are values of an arithmetic type,
    seen as the bytes they are stored in. */
module SyncArrays {
  import opened Division
  import opened BitStreams

  type Elem = seq<byte>

  const LIMIT: nat := 0x1_0000

  datatype Op =
    | Update(pos: nat, value: Elem)
    | PushBack(value: Elem)
    | PopBack
    | Insert(pos: nat, value: Elem)
    | Erase(pos: nat)
    | Clear
    | Resize(count: nat)
    | Replace(vec: seq<Elem>)

  // ---- What operations do ----

  function Zero(width: nat): (e: Elem)
    ensures |e| == width && forall k :: 0 <= k < width ==> e[k] == 0
  {
    seq(width, i => 0)
  }

  predicate Uniform(vec: seq<Elem>, width: nat) {
    forall k :: 0 <= k < |vec| ==> |vec[k]| == width
  }

  /** What an array must offer for an operation to be defined. */
  predicate Applicable(vec: seq<Elem>, op: Op, width: nat) {
    match op
    case Update(pos, value) => pos < |vec| && |value| == width
    case PushBack(value) => |value| == width
    case PopBack => |vec| > 0
    case Insert(pos, value) => pos <= |vec| && |value| == width
    case Erase(pos) => pos < |vec|
    case Clear => true
    case Resize(_) => true
    case Replace(v) => Uniform(v, width)
  }

  function Resized(vec: seq<Elem>, count: nat, width: nat): (r: seq<Elem>)
    ensures |r| == count
    ensures forall k :: 0 <= k < count ==> if k < |vec| then r[k] == vec[k] else r[k] == Zero(width)
  {
    if count <= |vec| then vec[..count] else vec + seq(count - |vec|, i => Zero(width))
  }

  function Apply(vec: seq<Elem>, op: Op, width: nat): (vec': seq<Elem>)
    requires Applicable(vec, op, width)
    ensures Uniform(vec, width) ==> Uniform(vec', width)
  {
    match op
    case Update(pos, value) => vec[pos := value]
    case PushBack(value) => vec + [value]
    case PopBack => vec[..|vec| - 1]
    case Insert(pos, value) => vec[..pos] + [value] + vec[pos..]
    case Erase(pos) => vec[..pos] + vec[pos + 1..]
    case Clear => []
    case Resize(count) => Resized(vec, count, width)
    case Replace(v) => v
  }

  /** The operations are defined one after the other. */
  ghost predicate Runs(vec: seq<Elem>, ops: seq<Op>, width: nat)
    decreases |ops|, 0
  {
    ops == [] || (Runs(vec, ops[..|ops| - 1], width) && Applicable(Replay(vec, ops[..|ops| - 1], width),
                                                                   ops[|ops| - 1], width))
  }

  ghost function Replay(vec: seq<Elem>, ops: seq<Op>, width: nat): seq<Elem>
    requires Runs(vec, ops, width)
    decreases |ops|, 1
  {
    if ops == [] then vec else Apply(Replay(vec, ops[..|ops| - 1], width), ops[|ops| - 1], width)
  }

  // ---- The log ----

  function Flat(vec: seq<Elem>): seq<byte> {
    if vec == [] then [] else Flat(vec[..|vec| - 1]) + vec[|vec| - 1]
  }

  function Encode(op: Op): seq<byte> {
    match op
    case Update(pos, value) => [0] + (U16(pos) + value)
    case PushBack(value) => [1] + value
    case PopBack => [2]
    case Insert(pos, value) => [3] + (U16(pos) + value)
    case Erase(pos) => [4] + U16(pos)
    case Clear => [5]
    case Resize(count) => [6] + U16(count)
    case Replace(vec) => [7] + (U16(|vec|) + Flat(vec))
  }

  function EncodeAll(ops: seq<Op>): seq<byte> {
    if ops == [] then [] else EncodeAll(ops[..|ops| - 1]) + Encode(ops[|ops| - 1])
  }

  /** Positions and sizes survive their 16-bit fields. */
  predicate Small(op: Op) {
    match op
    case Update(pos, _) => pos < LIMIT
    case Insert(pos, _) => pos < LIMIT
    case Erase(pos) => pos < LIMIT
    case Resize(count) => count < LIMIT
    case Replace(vec) => |vec| < LIMIT
    case _ => true
  }

  // ---- Decoding ----

  /** A decoder's result: where it stands, an exception for lack of bytes, a failed assertion, or no defined result. */
  datatype Outcome = Done(vec: seq<Elem>, pos: nat) | Overflow | AssertionFailed | Undefined

  function ApplyIfDefined(vec: seq<Elem>, op: Op, pos: nat, width: nat): Outcome {
    if Applicable(vec, op, width) then Done(Apply(vec, op, width), pos) else Undefined
  }

  /** The elements of a vector, one after the other. */
  function DecodeVec(data: seq<byte>, pos: nat, n: nat, width: nat): Outcome {
    if n == 0 then Done([], pos)
    else match DecodeVec(data, pos, n - 1, width)
      case Done(v, p) => (match Peek(data, p, width) case Short => Overflow case Got(e) => Done(v + [e], p + width))
      case failure => failure
  }

  function DecodeArgs(vec: seq<Elem>, code: byte, data: seq<byte>, pos: nat, width: nat): Outcome {
    if code == 1 then (match Peek(data, pos, width) case Short => Overflow case Got(e) => ApplyIfDefined(vec,
        PushBack(e), pos + width, width))
    else if code == 2 then ApplyIfDefined(vec, PopBack, pos, width)
    else if code == 5 || code > 7 then AssertionFailed
    else match Peek(data, pos, 2)
      case Short => Overflow
      case Got(field) =>
        var n := FromU16(field);
        if code == 4 then ApplyIfDefined(vec, Erase(n), pos + 2, width)
        else if code == 6 then ApplyIfDefined(vec, Resize(n), pos + 2, width)
        else if code == 7 then DecodeVec(data, pos + 2, n, width)
        else match Peek(data, pos + 2, width)
          case Short => Overflow
          case Got(e) => ApplyIfDefined(vec, if code == 0 then Update(n, e) else Insert(n, e), pos + 2 + width, width)
  }

  /** One operation: its code, its arguments, its effect. */
  function DecodeOne(vec: seq<Elem>, data: seq<byte>, pos: nat, width: nat): Outcome {
    match Peek(data, pos, 1)
    case Short => Overflow
    case Got(code) => DecodeArgs(vec, code[0], data, pos + 1, width)
  }

  lemma {:induction false} DecodeVecForward(data: seq<byte>, pos: nat, n: nat, width: nat)
    ensures DecodeVec(data, pos, n, width).Done? ==> DecodeVec(data, pos, n, width).pos == pos + n * width
  {
    if n > 0 {
      DecodeVecForward(data, pos, n - 1, width);
      assert (n - 1) * width + width == n * width;
    }
  }

  lemma DecodeOneForward(vec: seq<Elem>, data: seq<byte>, pos: nat, width: nat)
    ensures DecodeOne(vec, data, pos, width).Done? ==> DecodeOne(vec, data, pos, width).pos > pos
  {
    if pos + 3 <= |data| {
      DecodeVecForward(data, pos + 3, FromU16(data[pos + 1..pos + 3]), width);
    }
  }

  /** Operations until the end position is reached. */
  function DecodeUntil(vec: seq<Elem>, data: seq<byte>, pos: nat, end: nat, width: nat): Outcome
    decreases end - pos
  {
    if pos >= end then Done(vec, pos)
    else
      DecodeOneForward(vec, data, pos, width);
      var o := DecodeOne(vec, data, pos, width);
      if o.Done? then DecodeUntil(o.vec, data, o.pos, end, width) else o
  }

  /** A whole delta: its length in bytes, then that many bytes of operations. */
  function DecodeDelta(vec: seq<Elem>, data: seq<byte>, pos: nat, width: nat): Outcome {
    match Peek(data, pos, 4)
    case Short => Overflow
    case Got(size) => DecodeUntil(vec, data, pos + 4, pos + 4 + FromU32(size), width)
  }

  // ---- A replica follows ----

  ghost predicate At(data: seq<byte>, pos: nat, piece: seq<byte>) {
    pos + |piece| <= |data| && data[pos..pos + |piece|] == piece
  }

  lemma AtParts(data: seq<byte>, pos: nat, a: seq<byte>, b: seq<byte>)
    requires At(data, pos, a + b)
    ensures At(data, pos, a) && At(data, pos + |a|, b)
  {
    var s, m, n := data[pos..pos + |a + b|], |a|, |a + b|;
    assert s[..m] == a && s[m..] == b;
    assert data[pos..pos + m] == s[..m];
    assert data[pos + m..pos + n] == s[m..];
  }

  lemma PeekAt(data: seq<byte>, pos: nat, piece: seq<byte>)
    requires At(data, pos, piece)
    ensures Peek(data, pos, |piece|) == Got(piece)
  {
  }

  lemma {:induction false} VecDecodes(vec: seq<Elem>, data: seq<byte>, pos: nat, width: nat)
    requires Uniform(vec, width) && At(data, pos, Flat(vec))
    ensures DecodeVec(data, pos, |vec|, width) == Done(vec, pos + |Flat(vec)|)
  {
    hide At, Peek;
    if vec != [] {
      var n := |vec| - 1;
      var front := vec[..n];
      assert Flat(vec) == Flat(front) + vec[n] && |vec[n]| == width && Uniform(front, width);
      hide Flat, Uniform, DecodeVec;
      AtParts(data, pos, Flat(front), vec[n]);
      VecDecodes(front, data, pos, width);
      PeekAt(data, pos + |Flat(front)|, vec[n]);
      VecStep(data, pos, |vec|, width, front, vec[n]);
      assert vec == front + [vec[n]];
    } else {
      assert Flat(vec) == [];
    }
  }

  lemma VecStep(data: seq<byte>, pos: nat, n: nat, width: nat, front: seq<Elem>, e: Elem)
    requires n > 0 && DecodeVec(data, pos, n - 1, width).Done? && DecodeVec(data, pos, n - 1, width).vec == front
    requires Peek(data, DecodeVec(data, pos, n - 1, width).pos, width) == Got(e)
    ensures DecodeVec(data, pos, n, width) == Done(front + [e], DecodeVec(data, pos, n - 1, width).pos + width)
  {
  }

  function Code(op: Op): byte {
    match op
    case Update(_, _) => 0
    case PushBack(_) => 1
    case PopBack => 2
    case Insert(_, _) => 3
    case Erase(_) => 4
    case Clear => 5
    case Resize(_) => 6
    case Replace(_) => 7
  }

  function Args(op: Op): seq<byte> {
    match op
    case Update(pos, value) => U16(pos) + value
    case PushBack(value) => value
    case PopBack => []
    case Insert(pos, value) => U16(pos) + value
    case Erase(pos) => U16(pos)
    case Clear => []
    case Resize(count) => U16(count)
    case Replace(vec) => U16(|vec|) + Flat(vec)
  }

  lemma EncodeParts(op: Op)
    ensures Encode(op) == [Code(op)] + Args(op)
  {
  }

  lemma ArgsDecode(vec: seq<Elem>, op: Op, data: seq<byte>, pos: nat, width: nat)
    requires Small(op) && Applicable(vec, op, width) && op != Clear && At(data, pos, Args(op))
    ensures DecodeArgs(vec, Code(op), data, pos, width) == Done(Apply(vec, op, width), pos + |Args(op)|)
  {
    hide U16, FromU16, Peek, At, Apply, Applicable, Small, DecodeArgs, Flat;
    match op
    case Update(n, value) => IndexDecodes(vec, op, n, value, data, pos, width);
    case PushBack(value) => PushDecodes(vec, op, data, pos, width);
    case PopBack => PushDecodes(vec, op, data, pos, width);
    case Insert(n, value) => IndexDecodes(vec, op, n, value, data, pos, width);
    case Erase(n) => CountDecodes(vec, op, n, data, pos, width);
    case Resize(n) => CountDecodes(vec, op, n, data, pos, width);
    case Replace(v) => ReplaceDecodes(vec, v, data, pos, width);
  }

  lemma U16Kept(n: nat)
    requires n < LIMIT
    ensures FromU16(U16(n)) == n
  {
    U16Back(n);
  }

  lemma IndexDecodes(vec: seq<Elem>, op: Op, n: nat, value: Elem, data: seq<byte>, pos: nat, width: nat)
    requires op == Update(n, value) || op == Insert(n, value)
    requires Small(op) && Applicable(vec, op, width) && At(data, pos, U16(n) + value)
    ensures DecodeArgs(vec, Code(op), data, pos, width) == Done(Apply(vec, op, width), pos + |U16(n) + value|)
  {
    assert |value| == width && n < LIMIT;
    hide U16, FromU16, Peek, At, Apply, Applicable, Small, DecodeArgs;
    U16Kept(n);
    AtParts(data, pos, U16(n), value);
    PeekAt(data, pos, U16(n));
    PeekAt(data, pos + 2, value);
    IndexArgs(vec, Code(op), U16(n), value, data, pos, width);
  }

  lemma IndexArgs(vec: seq<Elem>, code: byte, field: seq<byte>, value: Elem, data: seq<byte>, pos: nat, width: nat)
    requires (code == 0 || code == 3) && Peek(data, pos, 2) == Got(field) && Peek(data, pos + 2, width) == Got(value)
    ensures var n := FromU16(field);
            DecodeArgs(vec, code, data, pos, width) == ApplyIfDefined(vec,
                if code == 0 then Update(n, value) else Insert(n, value), pos + 2 + width, width)
  {
    hide Peek, FromU16, ApplyIfDefined;
  }

  lemma CountArgs(vec: seq<Elem>, code: byte, field: seq<byte>, data: seq<byte>, pos: nat, width: nat)
    requires (code == 4 || code == 6) && Peek(data, pos, 2) == Got(field)
    ensures var n := FromU16(field);
            DecodeArgs(vec, code, data, pos, width) == ApplyIfDefined(vec, if code == 4 then Erase(n) else Resize(n),
                                                                      pos + 2, width)
  {
    hide Peek, FromU16, ApplyIfDefined;
  }

  lemma PushDecodes(vec: seq<Elem>, op: Op, data: seq<byte>, pos: nat, width: nat)
    requires (op.PushBack? || op.PopBack?) && Applicable(vec, op, width) && At(data, pos, Args(op))
    ensures DecodeArgs(vec, Code(op), data, pos, width) == Done(Apply(vec, op, width), pos + |Args(op)|)
  {
    assert op.PushBack? ==> |op.value| == width;
    hide Peek, At, Apply, Applicable;
    PeekAt(data, pos, Args(op));
  }

  lemma CountDecodes(vec: seq<Elem>, op: Op, n: nat, data: seq<byte>, pos: nat, width: nat)
    requires op == Erase(n) || op == Resize(n)
    requires Small(op) && Applicable(vec, op, width) && At(data, pos, U16(n))
    ensures DecodeArgs(vec, Code(op), data, pos, width) == Done(Apply(vec, op, width), pos + |U16(n)|)
  {
    assert n < LIMIT;
    hide U16, FromU16, Peek, At, Apply, Applicable, Small, DecodeArgs;
    U16Kept(n);
    PeekAt(data, pos, U16(n));
    CountArgs(vec, Code(op), U16(n), data, pos, width);
  }

  lemma ReplaceDecodes(vec: seq<Elem>, v: seq<Elem>, data: seq<byte>, pos: nat, width: nat)
    requires Small(Replace(v)) && Applicable(vec, Replace(v), width) && At(data, pos, U16(|v|) + Flat(v))
    ensures DecodeArgs(vec, 7, data, pos, width) == Done(v, pos + |U16(|v|) + Flat(v)|)
            && Apply(vec, Replace(v), width) == v
  {
    hide U16, FromU16, Peek, At, DecodeVec, Flat;
    U16Back(|v|);
    AtParts(data, pos, U16(|v|), Flat(v));
    PeekAt(data, pos, U16(|v|));
    VecDecodes(v, data, pos + 2, width);
  }

  /** Each logged operation is decoded to itself, except `clear`, which the decoder does not know. */
  lemma OneDecodes(vec: seq<Elem>, op: Op, data: seq<byte>, pos: nat, width: nat)
    requires Small(op) && Applicable(vec, op, width) && At(data, pos, Encode(op))
    ensures DecodeOne(vec, data, pos, width) == if op == Clear then AssertionFailed
            else Done(Apply(vec, op, width), pos + |Encode(op)|)
  {
    hide DecodeArgs, Apply, Applicable, Small, Encode, Args, At, Peek;
    EncodeParts(op);
    AtParts(data, pos, [Code(op)], Args(op));
    PeekAt(data, pos, [Code(op)]);
    if op == Clear {
      ClearUnknown(vec, data, pos + 1, width);
    } else {
      ArgsDecode(vec, op, data, pos + 1, width);
    }
  }

  /** Nothing else decodes: what is taken for an operation is the encoding of an applicable one other than clear. */
  lemma DecodedIsEncoding(vec: seq<Elem>, data: seq<byte>, pos: nat, width: nat) returns (op: Op)
    requires DecodeOne(vec, data, pos, width).Done?
    ensures op != Clear && Small(op) && Applicable(vec, op, width) && At(data, pos, Encode(op))
    ensures DecodeOne(vec, data, pos, width) == Done(Apply(vec, op, width), pos + |Encode(op)|)
  {
    hide Apply, Applicable, Encode, At, Peek, DecodeVec, FromU16;
    var code := Peek(data, pos, 1).bytes;
    PeekedAt(data, pos, 1);
    op := OpRead(vec, code[0], data, pos + 1, width);
    assert code == [Code(op)];
    EncodeParts(op);
    AtJoined(data, pos, code, Args(op));
    hide DecodeOne, DecodeArgs, Small;
    OneDecodes(vec, op, data, pos, width);
  }

  lemma OpRead(vec: seq<Elem>, code: byte, data: seq<byte>, pos: nat, width: nat) returns (op: Op)
    requires DecodeArgs(vec, code, data, pos, width).Done? && pos <= |data|
    ensures op != Clear && Small(op) && Applicable(vec, op, width) && Code(op) == code && At(data, pos, Args(op))
  {
    hide Apply, Applicable, At, Peek, DecodeVec, FromU16;
    if code == 2 {
      op := PopBack;
      AtNothing(data, pos);
    } else if code == 1 {
      PeekedAt(data, pos, width);
      op := PushBack(Peek(data, pos, width).bytes);
    } else {
      var field := Peek(data, pos, 2).bytes;
      PeekedAt(data, pos, 2);
      var n := FromU16(field);
      FieldKept(field);
      if code == 4 {
        op := Erase(n);
      } else if code == 6 {
        op := Resize(n);
        Resizable(vec, n, width);
      } else if code == 7 {
        op := Replace(DecodeVec(data, pos + 2, n, width).vec);
        VecIsFlat(data, pos + 2, n, width);
        Replaceable(vec, op.vec, width);
        AtJoined(data, pos, field, Flat(op.vec));
      } else {
        var e := Peek(data, pos + 2, width).bytes;
        PeekedAt(data, pos + 2, width);
        AtJoined(data, pos, field, e);
        op := if code == 0 then Update(n, e) else Insert(n, e);
      }
    }
  }

  lemma Resizable(vec: seq<Elem>, n: nat, width: nat)
    ensures Applicable(vec, Resize(n), width)
  {
  }

  lemma Replaceable(vec: seq<Elem>, v: seq<Elem>, width: nat)
    requires Uniform(v, width)
    ensures Applicable(vec, Replace(v), width)
  {
  }

  lemma AtNothing(data: seq<byte>, pos: nat)
    ensures pos <= |data| ==> At(data, pos, [])
  {
  }

  lemma PeekedAt(data: seq<byte>, pos: nat, n: nat)
    requires Peek(data, pos, n).Got?
    ensures At(data, pos, Peek(data, pos, n).bytes)
  {
  }

  lemma AtJoined(data: seq<byte>, pos: nat, a: seq<byte>, b: seq<byte>)
    requires At(data, pos, a) && At(data, pos + |a|, b)
    ensures At(data, pos, a + b)
  {
    assert data[pos..pos + |a + b|] == data[pos..pos + |a|] + data[pos + |a|..pos + |a| + |b|];
  }

  lemma FieldKept(field: seq<byte>)
    requires |field| == 2
    ensures U16(FromU16(field)) == field && FromU16(field) < LIMIT
  {
  }

  lemma {:induction false} VecIsFlat(data: seq<byte>, pos: nat, n: nat, width: nat)
    requires DecodeVec(data, pos, n, width).Done? && pos <= |data|
    ensures var o := DecodeVec(data, pos, n, width);
            |o.vec| == n && Uniform(o.vec, width) && At(data, pos, Flat(o.vec)) && o.pos == pos + |Flat(o.vec)|
  {
    hide At, Peek, Uniform;
    if n == 0 {
      AtNothing(data, pos);
      NoneUneven(width);
    } else {
      VecIsFlat(data, pos, n - 1, width);
      var o := DecodeVec(data, pos, n - 1, width);
      var e := Peek(data, o.pos, width).bytes;
      PeekedAt(data, o.pos, width);
      AtJoined(data, pos, Flat(o.vec), e);
      assert (o.vec + [e])[..n - 1] == o.vec;
      OneMoreEven(o.vec, e, width);
    }
  }

  lemma NoneUneven(width: nat)
    ensures Uniform([], width)
  {
  }

  lemma OneMoreEven(vec: seq<Elem>, e: Elem, width: nat)
    requires Uniform(vec, width) && |e| == width
    ensures Uniform(vec + [e], width)
  {
  }

  lemma ClearUnknown(vec: seq<Elem>, data: seq<byte>, pos: nat, width: nat)
    ensures DecodeArgs(vec, Code(Clear), data, pos, width) == AssertionFailed
  {
  }

  ghost predicate AllSmall(ops: seq<Op>) {
    forall k :: 0 <= k < |ops| ==> Small(ops[k])
  }

  /** Decoding over a piece of log without `clear` has the effect of its operations. */
  lemma {:induction false} RunDecodes(vec: seq<Elem>, ops: seq<Op>, data: seq<byte>, pos: nat, end: nat, width: nat)
    requires Runs(vec, ops, width) && AllSmall(ops) && Clear !in ops
    requires At(data, pos, EncodeAll(ops)) && pos + |EncodeAll(ops)| <= end
    ensures DecodeUntil(vec, data, pos, end, width) == DecodeUntil(Replay(vec, ops, width), data,
                                                                   pos + |EncodeAll(ops)|, end, width)
  {
    hide Runs, Replay, EncodeAll, DecodeUntil, At, DecodeOne, Apply, Applicable, Encode, Small, AllSmall;
    LogParts(vec, ops, width);
    if ops != [] {
      var front, op := ops[..|ops| - 1], ops[|ops| - 1];
      assert op in ops;
      AtParts(data, pos, EncodeAll(front), Encode(op));
      RunDecodes(vec, front, data, pos, end, width);
      OneDecodes(Replay(vec, front, width), op, data, pos + |EncodeAll(front)|, width);
      StepUntil(Replay(vec, front, width), data, pos + |EncodeAll(front)|, end, width);
    }
  }

  /** A run is its front and its last operation. */
  lemma LogParts(vec: seq<Elem>, ops: seq<Op>, width: nat)
    requires Runs(vec, ops, width)
    ensures ops == [] ==> EncodeAll(ops) == [] && Replay(vec, ops, width) == vec
    ensures ops != [] ==>
              var front, op := ops[..|ops| - 1], ops[|ops| - 1];
              && EncodeAll(ops) == EncodeAll(front) + Encode(op) && |Encode(op)| > 0
              && Runs(vec, front, width) && Applicable(Replay(vec, front, width), op, width)
              && Replay(vec, ops, width) == Apply(Replay(vec, front, width), op, width)
              && (AllSmall(ops) <==> AllSmall(front) && Small(op))
  {
    hide Apply, Applicable, Encode, Small;
    if ops != [] { EncodeParts(ops[|ops| - 1]); }
  }

  lemma StepUntil(vec: seq<Elem>, data: seq<byte>, pos: nat, end: nat, width: nat)
    requires pos < end
    ensures var o := DecodeOne(vec, data, pos, width);
            DecodeUntil(vec, data, pos, end, width) == if o.Done? then DecodeUntil(o.vec, data, o.pos, end, width)
                else o
  {
  }

  /** Decoding stops with the failed assertion at the first `clear`. */
  lemma {:induction false} ClearFails(vec: seq<Elem>, ops: seq<Op>, data: seq<byte>, pos: nat, end: nat, width: nat)
    requires Runs(vec, ops, width) && AllSmall(ops) && Clear in ops
    requires At(data, pos, EncodeAll(ops)) && pos + |EncodeAll(ops)| <= end
    ensures DecodeUntil(vec, data, pos, end, width) == AssertionFailed
  {
    hide Runs, Replay, EncodeAll, DecodeUntil, At, DecodeOne, Apply, Applicable, Encode, Small, AllSmall;
    LogParts(vec, ops, width);
    var front, op := ops[..|ops| - 1], ops[|ops| - 1];
    assert ops == front + [op];
    AtParts(data, pos, EncodeAll(front), Encode(op));
    if Clear in front {
      ClearFails(vec, front, data, pos, end, width);
    } else {
      RunDecodes(vec, front, data, pos, end, width);
      OneDecodes(Replay(vec, front, width), op, data, pos + |EncodeAll(front)|, width);
      StepUntil(Replay(vec, front, width), data, pos + |EncodeAll(front)|, end, width);
    }
  }

  /** A delta decodes to what was done, and is consumed exactly, if and only if `clear` was not among it. */
  lemma DeltaDecodes(vec: seq<Elem>, ops: seq<Op>, data: seq<byte>, pos: nat, width: nat)
    requires Runs(vec, ops, width) && AllSmall(ops) && |EncodeAll(ops)| < 0x1_0000_0000
    requires At(data, pos, U32(|EncodeAll(ops)|) + EncodeAll(ops))
    ensures DecodeDelta(vec, data, pos, width)
         == if Clear in ops then AssertionFailed else Done(Replay(vec, ops, width), pos + 4 + |EncodeAll(ops)|)
  {
    hide Runs, Replay, EncodeAll, DecodeUntil, At, Peek, U32, FromU32, AllSmall;
    var log := EncodeAll(ops);
    AtParts(data, pos, U32(|log|), log);
    PeekAt(data, pos, U32(|log|));
    U32Back(|log|);
    if Clear in ops {
      ClearFails(vec, ops, data, pos + 4, pos + 4 + |log|, width);
    } else {
      RunDecodes(vec, ops, data, pos + 4, pos + 4 + |log|, width);
      UntilEnd(Replay(vec, ops, width), data, pos + 4 + |log|, width);
    }
  }

  lemma UntilEnd(vec: seq<Elem>, data: seq<byte>, end: nat, width: nat)
    ensures DecodeUntil(vec, data, end, end, width) == Done(vec, end)
  {
  }

  /** While the array stays below 65536 elements, all positions and sizes fit their fields. */
  lemma {:induction false} SizesSuffice(vec: seq<Elem>, ops: seq<Op>, width: nat)
    requires Runs(vec, ops, width)
    requires forall k :: 0 <= k <= |ops| && Runs(vec, ops[..k], width) ==> |Replay(vec, ops[..k], width)| < LIMIT
    ensures AllSmall(ops)
  {
    LogParts(vec, ops, width);
    if ops != [] {
      var n := |ops| - 1;
      var front := ops[..n];
      hide Runs, Replay, AllSmall;
      forall k | 0 <= k <= n && Runs(vec, front[..k], width) ensures |Replay(vec, front[..k], width)| < LIMIT {
        assert front[..k] == ops[..k];
      }
      SizesSuffice(vec, front, width);
      assert ops[..n] == front && ops[..n + 1] == ops;
    }
  }

  /** A size that does not fit its field: the replica of an array resized to 65536 elements stays empty. */
  lemma ResizeWraps(width: nat)
    ensures Runs([], [Resize(LIMIT)], width) && |Replay([], [Resize(LIMIT)], width)| == LIMIT
    ensures var log := EncodeAll([Resize(LIMIT)]);
            DecodeDelta([], U32(|log|) + log, 0, width) == Done([], 4 + |log|)
  {
    var ops, zero := [Resize(LIMIT)], [Resize(0)];
    assert ops[..0] == [] && zero[..0] == [];
    LogParts([], ops, width);
    LogParts([], zero, width);
    U16Wraps();
    assert EncodeAll(ops) == EncodeAll(zero);
    var log := EncodeAll(zero);
    DeltaDecodes([], zero, U32(|log|) + log, 0, width);
  }

  lemma U16Wraps()
    ensures U16(LIMIT) == U16(0)
  {
  }

  // ---- Beyond 16 bits ----

  /** What is left of a number in a 16-bit field. */
  function Wrap(n: nat): (m: nat)
    ensures m < LIMIT && m <= n && (m == n <==> n < LIMIT)
  {
    n % LIMIT
  }

  /** The operation a decoder sees in place of one whose position or size does not fit. */
  function Wrapped(op: Op): Op {
    match op
    case Update(pos, value) => Update(Wrap(pos), value)
    case Insert(pos, value) => Insert(Wrap(pos), value)
    case Erase(pos) => Erase(Wrap(pos))
    case Resize(count) => Resize(Wrap(count))
    case _ => op
  }

  /** From m up to n nothing but this value. */
  predicate Filled(vec: seq<Elem>, m: nat, n: nat, value: Elem)
    requires n <= |vec|
  {
    forall k :: m <= k < n ==> vec[k] == value
  }

  /** From m to n all elements are the same. */
  predicate Level(vec: seq<Elem>, m: nat, n: nat)
    requires n < |vec|
  {
    forall k :: m <= k < n ==> vec[k] == vec[k + 1]
  }

  /** The contents for which the wrapped operation happens to do the same. */
  predicate Coincides(vec: seq<Elem>, op: Op, width: nat)
    requires Applicable(vec, op, width)
  {
    match op
    case Update(pos, value) => vec[Wrap(pos)] == value == vec[pos]
    case Insert(pos, value) => Filled(vec, Wrap(pos), pos, value)
    case Erase(pos) => Level(vec, Wrap(pos), pos)
    case _ => false
  }

  lemma U16Again(n: nat)
    ensures U16(Wrap(n)) == U16(n)
  {
    var low, high, rest := n % 256, n / 256 % 256, n / 256 / 256;
    assert n == LIMIT * rest + (256 * high + low);
    QuotientUnique(n, LIMIT, rest);
    QuotientUnique(256 * high + low, 256, high);
  }

  lemma WrappedLooksSame(vec: seq<Elem>, op: Op, width: nat)
    requires Applicable(vec, op, width) && (op.Replace? ==> Small(op))
    ensures Encode(Wrapped(op)) == Encode(op) && Small(Wrapped(op)) && Applicable(vec, Wrapped(op), width)
    ensures Wrapped(op) == op <==> Small(op)
  {
    hide U16, Wrap;
    match op
    case Update(n, _) => U16Again(n);
    case Insert(n, _) => U16Again(n);
    case Erase(n) => U16Again(n);
    case Resize(n) => U16Again(n);
    case _ =>
  }

  lemma UpdateCoincides(vec: seq<Elem>, m: nat, n: nat, value: Elem)
    requires m < n < |vec|
    ensures vec[m := value] == vec[n := value] <==> vec[m] == value == vec[n]
  {
    var a, b := vec[m := value], vec[n := value];
    assert a[m] == value && b[m] == vec[m] && a[n] == vec[n] && b[n] == value;
  }

  lemma InsertCoincides(vec: seq<Elem>, m: nat, n: nat, value: Elem)
    requires m < n <= |vec|
    ensures vec[..m] + [value] + vec[m..] == vec[..n] + [value] + vec[n..] <==> Filled(vec, m, n, value)
  {
    var a, b := vec[..m] + [value] + vec[m..], vec[..n] + [value] + vec[n..];
    if a == b { InsertedRun(vec, m, n, value, n); }
    if Filled(vec, m, n, value) {
      assert forall k :: 0 <= k < |a| ==> a[k] == b[k];
    }
  }

  lemma {:induction false} InsertedRun(vec: seq<Elem>, m: nat, n: nat, value: Elem, k: nat)
    requires m <= k <= n <= |vec| && vec[..m] + [value] + vec[m..] == vec[..n] + [value] + vec[n..]
    ensures forall j :: m <= j < k ==> vec[j] == value
  {
    var a, b := vec[..m] + [value] + vec[m..], vec[..n] + [value] + vec[n..];
    if k > m {
      InsertedRun(vec, m, n, value, k - 1);
      assert a[k - 1] == (if k - 1 == m then value else vec[k - 2]) && b[k - 1] == vec[k - 1];
    }
  }

  lemma EraseCoincides(vec: seq<Elem>, m: nat, n: nat)
    requires m < n < |vec|
    ensures vec[..m] + vec[m + 1..] == vec[..n] + vec[n + 1..] <==> Level(vec, m, n)
  {
    var a, b := vec[..m] + vec[m + 1..], vec[..n] + vec[n + 1..];
    assert forall k :: m <= k < n ==> a[k] == vec[k + 1] && b[k] == vec[k];
    assert forall k :: 0 <= k < |a| && !(m <= k < n) ==> a[k] == b[k];
  }

  lemma WrappedDoesSame(vec: seq<Elem>, op: Op, width: nat)
    requires Applicable(vec, op, width) && Applicable(vec, Wrapped(op), width) && !Small(op) && !op.Replace?
    ensures Apply(vec, Wrapped(op), width) == Apply(vec, op, width) <==> Coincides(vec, op, width)
  {
    hide Apply, Coincides, Wrap;
    match op
    case Update(n, value) => UpdateCase(vec, n, value, width);
    case Insert(n, value) => InsertCase(vec, n, value, width);
    case Erase(n) => EraseCase(vec, n, width);
    case Resize(n) => ResizedSize(vec, Wrap(n), n, width);
  }

  lemma UpdateCase(vec: seq<Elem>, n: nat, value: Elem, width: nat)
    requires LIMIT <= n < |vec| && |value| == width
    ensures Apply(vec, Update(Wrap(n), value), width) == Apply(vec, Update(n, value), width) <==>
            Coincides(vec, Update(n, value), width)
  {
    hide Wrap;
    UpdateCoincides(vec, Wrap(n), n, value);
  }

  lemma InsertCase(vec: seq<Elem>, n: nat, value: Elem, width: nat)
    requires LIMIT <= n <= |vec| && |value| == width
    ensures Apply(vec, Insert(Wrap(n), value), width) == Apply(vec, Insert(n, value), width) <==>
            Coincides(vec, Insert(n, value), width)
  {
    hide Wrap, Filled, Level;
    InsertCoincides(vec, Wrap(n), n, value);
  }

  lemma EraseIs(vec: seq<Elem>, n: nat, width: nat)
    requires n < |vec|
    ensures Apply(vec, Erase(n), width) == vec[..n] + vec[n + 1..]
  {
  }

  lemma EraseCase(vec: seq<Elem>, n: nat, width: nat)
    requires LIMIT <= n < |vec|
    ensures Apply(vec, Erase(Wrap(n)), width) == Apply(vec, Erase(n), width) <==> Coincides(vec, Erase(n), width)
  {
    hide Wrap, Level, Apply;
    EraseIs(vec, Wrap(n), width);
    EraseIs(vec, n, width);
    EraseCoincides(vec, Wrap(n), n);
  }

  lemma ResizedSize(vec: seq<Elem>, m: nat, n: nat, width: nat)
    requires m != n
    ensures Apply(vec, Resize(m), width) != Apply(vec, Resize(n), width) && !Coincides(vec, Resize(n), width)
  {
    assert |Resized(vec, m, width)| == m && |Resized(vec, n, width)| == n;
  }

  /** A logged operation reaches the replica if and only if its position or size fits 16 bits, or the contents are such
      that the wrapped one does the same. */
  lemma OneDecodesExactlyWhen(vec: seq<Elem>, op: Op, data: seq<byte>, pos: nat, width: nat)
    requires Applicable(vec, op, width) && op != Clear && (op.Replace? ==> Small(op)) && At(data, pos, Encode(op))
    ensures DecodeOne(vec, data, pos, width) == Done(Apply(vec, op, width), pos + |Encode(op)|)
       <==> Small(op) || Coincides(vec, op, width)
  {
    hide DecodeOne, Apply, Applicable, Small, Encode, At, Coincides;
    WrappedLooksSame(vec, op, width);
    OneDecodes(vec, Wrapped(op), data, pos, width);
    assert Wrapped(op) != Clear;
    if !Small(op) { WrappedDoesSame(vec, op, width); }
  }

  /** Every operation reached the replica as it should. */
  ghost predicate AllFit(vec: seq<Elem>, ops: seq<Op>, width: nat)
    requires Runs(vec, ops, width)
  {
    ops == [] ||
      var front, op := ops[..|ops| - 1], ops[|ops| - 1];
      AllFit(vec, front, width) && (Small(op) || Coincides(Replay(vec, front, width), op, width))
  }

  /** After each operation of the log, the replica that has decoded so far holds what the array held then. */
  ghost predicate InStep(vec: seq<Elem>, ops: seq<Op>, data: seq<byte>, pos: nat, width: nat)
    requires Runs(vec, ops, width)
  {
    && (ops == [] || InStep(vec, ops[..|ops| - 1], data, pos, width))
    && var end := pos + |EncodeAll(ops)|;
       DecodeUntil(vec, data, pos, end, width) == Done(Replay(vec, ops, width), end)
  }

  /** A replica stays in step with the array throughout if and only if every operation fits or coincides. */
  lemma {:induction false} InStepExactlyWhen(vec: seq<Elem>, ops: seq<Op>, data: seq<byte>, pos: nat, width: nat)
    requires Runs(vec, ops, width) && Clear !in ops && At(data, pos, EncodeAll(ops))
    requires forall k :: 0 <= k < |ops| && ops[k].Replace? ==> Small(ops[k])
    ensures InStep(vec, ops, data, pos, width) <==> AllFit(vec, ops, width)
  {
    hide Runs, Replay, EncodeAll, DecodeUntil, At, DecodeOne, Apply, Applicable, Encode, Small, Coincides;
    LogParts(vec, ops, width);
    if ops == [] {
      UntilEnd(vec, data, pos, width);
    } else {
      var front, op := ops[..|ops| - 1], ops[|ops| - 1];
      assert op in ops;
      AtParts(data, pos, EncodeAll(front), Encode(op));
      InStepExactlyWhen(vec, front, data, pos, width);
      if InStep(vec, front, data, pos, width) {
        var mid, now := pos + |EncodeAll(front)|, Replay(vec, front, width);
        InStepHere(vec, front, data, pos, width);
        UntilContinues(vec, data, pos, mid, mid + |Encode(op)|, width);
        OneDecodesExactlyWhen(now, op, data, mid, width);
        OneStep(now, op, data, mid, width);
      }
    }
  }

  /** Decoding just one operation's bytes. */
  lemma OneStep(vec: seq<Elem>, op: Op, data: seq<byte>, pos: nat, width: nat)
    requires Applicable(vec, op, width) && op != Clear && (op.Replace? ==> Small(op)) && At(data, pos, Encode(op))
             && |Encode(op)| > 0
    ensures DecodeUntil(vec, data, pos, pos + |Encode(op)|, width) == DecodeOne(vec, data, pos, width)
  {
    hide DecodeUntil, DecodeOne, Apply, Applicable, Small, Encode, At;
    WrappedLooksSame(vec, op, width);
    assert Wrapped(op) != Clear;
    OneDecodes(vec, Wrapped(op), data, pos, width);
    StepUntil(vec, data, pos, pos + |Encode(op)|, width);
    UntilEnd(Apply(vec, Wrapped(op), width), data, pos + |Encode(op)|, width);
  }

  lemma InStepHere(vec: seq<Elem>, ops: seq<Op>, data: seq<byte>, pos: nat, width: nat)
    requires Runs(vec, ops, width) && InStep(vec, ops, data, pos, width)
    ensures var end := pos + |EncodeAll(ops)|;
            DecodeUntil(vec, data, pos, end, width) == Done(Replay(vec, ops, width), end)
  {
  }

  /** Decoding that stopped just at its end goes on from there when the end is put off. */
  lemma {:induction false} UntilContinues(vec: seq<Elem>, data: seq<byte>, pos: nat, mid: nat, end: nat, width: nat)
    requires pos <= mid <= end && DecodeUntil(vec, data, pos, mid, width).Done?
             && DecodeUntil(vec, data, pos, mid, width).pos == mid
    ensures DecodeUntil(vec, data, pos, end, width) == DecodeUntil(DecodeUntil(vec, data, pos, mid, width).vec, data,
                                                                   mid, end, width)
    decreases mid - pos
  {
    hide DecodeUntil, DecodeOne;
    if pos == mid {
      UntilEnd(vec, data, mid, width);
    } else {
      StepUntil(vec, data, pos, mid, width);
      StepUntil(vec, data, pos, end, width);
      DecodeOneForward(vec, data, pos, width);
      var o := DecodeOne(vec, data, pos, width);
      if o.pos > mid { PastEnd(o.vec, data, o.pos, mid, width); assert false; }
      UntilContinues(o.vec, data, o.pos, mid, end, width);
    }
  }

  // ---- The array ----

  class SyncArray {
    const width: nat
    const dirtyLog: OutputBitStream
    var vec: seq<Elem>

    /** The array at the last reset, and what was logged since. */
    ghost var base: seq<Elem>
    ghost var ops: seq<Op>

    ghost predicate Shape()
      reads this, dirtyLog
    {
      dirtyLog.Valid() && Uniform(vec, width)
    }

    ghost predicate Valid()
      reads this, dirtyLog, dirtyLog.buffer
    {
      && Shape() && Runs(base, ops, width) && dirtyLog.Contents() == EncodeAll(ops)
      && |Replay(base, ops, width)| == |vec| && Uniform(base, width)
    }

    /** What a replica will hold after the log so far. */
    ghost function Shadow(): seq<Elem>
      requires Runs(base, ops, width)
      reads this
    {
      Replay(base, ops, width)
    }

    /** Every element that was assigned has been marked dirty. */
    ghost predicate Synced()
      requires Runs(base, ops, width)
      reads this
    {
      Shadow() == vec
    }

    constructor (width: nat, vec: seq<Elem>)
      requires Uniform(vec, width)
      ensures Valid() && Synced() && this.width == width && this.vec == vec && ops == [] && fresh(dirtyLog)
              && fresh(dirtyLog.buffer)
    {
      this.width, this.vec := width, vec;
      base, ops := vec, [];
      dirtyLog := new OutputBitStream();
    }

    /** Logs one operation; the array itself is still to follow. */
    method Log(ghost op: Op, bytes: seq<byte>)
      requires Shape() && Runs(base, ops, width) && dirtyLog.Contents() == EncodeAll(ops) && bytes == Encode(op)
      requires Applicable(Shadow(), op, width)
      modifies this`ops, dirtyLog, dirtyLog.buffer
      ensures Shape() && ops == old(ops) + [op] && Runs(base, ops, width) && dirtyLog.Contents() == EncodeAll(ops)
      ensures Shadow() == Apply(old(Shadow()), op, width)
      ensures dirtyLog.buffer == old(dirtyLog.buffer) || fresh(dirtyLog.buffer)
    {
      hide Encode, Apply, Applicable, Uniform;
      MoreLog(base, ops, op, width);
      dirtyLog.Write(bytes);
      ops := ops + [op];
    }

    method PushBack(value: Elem)
      requires Valid() && |value| == width
      modifies this`vec, this`ops, dirtyLog, dirtyLog.buffer
      ensures Valid() && vec == old(vec) + [value] && ops == old(ops) + [Op.PushBack(value)]
      ensures Shadow() == old(Shadow()) + [value]
      ensures dirtyLog.buffer == old(dirtyLog.buffer) || fresh(dirtyLog.buffer)
    {
      hide Runs, Replay, EncodeAll;
      Log(Op.PushBack(value), [1] + value);
      vec := vec + [value];
    }

    method PopBack()
      requires Valid() && |vec| > 0
      modifies this`vec, this`ops, dirtyLog, dirtyLog.buffer
      ensures Valid() && vec == old(vec)[..|old(vec)| - 1] && ops == old(ops) + [Op.PopBack]
      ensures Shadow() == old(Shadow())[..|old(vec)| - 1]
      ensures dirtyLog.buffer == old(dirtyLog.buffer) || fresh(dirtyLog.buffer)
    {
      hide Runs, Replay, EncodeAll;
      Log(Op.PopBack, [2]);
      vec := vec[..|vec| - 1];
    }

    method Insert(pos: nat, value: Elem)
      requires Valid() && pos <= |vec| && |value| == width
      modifies this`vec, this`ops, dirtyLog, dirtyLog.buffer
      ensures Valid() && vec == old(vec)[..pos] + [value] + old(vec)[pos..] && ops == old(ops) + [Op.Insert(pos, value)]
      ensures Shadow() == old(Shadow())[..pos] + [value] + old(Shadow())[pos..]
      ensures dirtyLog.buffer == old(dirtyLog.buffer) || fresh(dirtyLog.buffer)
    {
      hide Runs, Replay, EncodeAll;
      Log(Op.Insert(pos, value), [3] + (U16(pos) + value));
      vec := vec[..pos] + [value] + vec[pos..];
    }

    method Erase(pos: nat)
      requires Valid() && pos < |vec|
      modifies this`vec, this`ops, dirtyLog, dirtyLog.buffer
      ensures Valid() && vec == old(vec)[..pos] + old(vec)[pos + 1..] && ops == old(ops) + [Op.Erase(pos)]
      ensures Shadow() == old(Shadow())[..pos] + old(Shadow())[pos + 1..]
      ensures dirtyLog.buffer == old(dirtyLog.buffer) || fresh(dirtyLog.buffer)
    {
      hide Runs, Replay, EncodeAll;
      Log(Op.Erase(pos), [4] + U16(pos));
      vec := vec[..pos] + vec[pos + 1..];
    }

    method Resize(count: nat)
      requires Valid()
      modifies this`vec, this`ops, dirtyLog, dirtyLog.buffer
      ensures Valid() && vec == Resized(old(vec), count, width) && ops == old(ops) + [Op.Resize(count)]
      ensures Shadow() == Resized(old(Shadow()), count, width)
      ensures dirtyLog.buffer == old(dirtyLog.buffer) || fresh(dirtyLog.buffer)
    {
      hide Runs, Replay, EncodeAll;
      Log(Op.Resize(count), [6] + U16(count));
      vec := Resized(vec, count, width);
    }

    method Clear()
      requires Valid()
      modifies this`vec, this`ops, dirtyLog, dirtyLog.buffer
      ensures Valid() && vec == [] && ops == old(ops) + [Op.Clear] && Synced()
      ensures dirtyLog.buffer == old(dirtyLog.buffer) || fresh(dirtyLog.buffer)
    {
      hide Runs, Replay, EncodeAll;
      Log(Op.Clear, [5]);
      vec := [];
    }

    /** Assignment through a reference is not logged. */
    method Assign(pos: nat, value: Elem)
      requires Valid() && pos < |vec| && |value| == width
      modifies this`vec
      ensures Valid() && vec == old(vec)[pos := value]
    {
      vec := vec[pos := value];
    }

    /** Logs the element that is there now, so an assignment that was marked is in step again. */
    method MarkDirty(pos: nat)
      requires Valid() && pos < |vec|
      modifies this`ops, dirtyLog, dirtyLog.buffer
      ensures Valid() && ops == old(ops) + [Op.Update(pos, vec[pos])] && Shadow() == old(Shadow())[pos := vec[pos]]
      ensures dirtyLog.buffer == old(dirtyLog.buffer) || fresh(dirtyLog.buffer)
    {
      hide Runs, Replay, EncodeAll;
      Log(Op.Update(pos, vec[pos]), [0] + (U16(pos) + vec[pos]));
    }

    method ResetDirty()
      requires Valid()
      modifies this`base, this`ops, dirtyLog
      ensures Valid() && Synced() && ops == [] && base == vec && dirtyLog.buffer == old(dirtyLog.buffer)
    {
      dirtyLog.Seekp(0);
      base, ops := vec, [];
    }

    /** Writes the length of the log and the log. */
    method NetDeltaSerialize(bs: OutputBitStream) returns (dirty: bool)
      requires Valid() && bs.Valid() && bs != dirtyLog && bs.buffer != dirtyLog.buffer
      modifies bs, bs.buffer
      ensures Valid() && bs.Valid() && (dirty <==> ops != [])
      ensures bs.Contents() == old(bs.Contents()) + (U32(|EncodeAll(ops)|) + EncodeAll(ops))
    {
      hide Runs, Replay, EncodeAll, U32, Uniform;
      ghost var before, log := bs.Contents(), EncodeAll(ops);
      var dirtySize := dirtyLog.pos;
      assert dirtySize == |log|;
      LogEmpty(base, ops, width);
      bs.Write(U32(dirtySize));
      if dirtySize > 0 {
        bs.Write(dirtyLog.buffer[..dirtySize]);
      }
      assert before + U32(|log|) + log == before + (U32(|log|) + log);
      dirty := dirtySize > 0;
    }

    /** Applies a delta, operation by operation, until its length is used up. An array without a log of its own
        stays a valid one. */
    method NetDeltaDeserialize(bs: InputBitStream) returns (outcome: Outcome)
      requires Shape()
      modifies this`vec, this`base, bs
      ensures Shape() && outcome == DecodeDelta(old(vec), bs.data, old(bs.pos), width)
      ensures outcome.Done? ==> vec == outcome.vec && bs.pos == outcome.pos
      ensures old(Valid()) && ops == [] ==> Valid()
    {
      hide DecodeUntil, DecodeOne, Uniform, FromU32;
      ghost var start := bs.pos + 4;
      var size := bs.Read(4);
      if size == Short {
        outcome := Overflow;
      } else {
        var dirtySize := FromU32(size.bytes);
        if dirtySize > 0 {
          outcome := DecodeWhile(bs, bs.pos + dirtySize);
        } else {
          UntilEnd(vec, bs.data, bs.pos, width);
          outcome := Done(vec, bs.pos);
        }
      }
      base := vec;
      if ops == [] { assert Runs(vec, [], width); }
    }

    method DecodeWhile(bs: InputBitStream, endPos: nat) returns (outcome: Outcome)
      requires Shape()
      modifies this`vec, bs
      ensures Shape() && outcome == DecodeUntil(old(vec), bs.data, old(bs.pos), endPos, width)
      ensures outcome.Done? ==> vec == outcome.vec && bs.pos == outcome.pos
    {
      hide DecodeUntil, DecodeOne, Uniform;
      while bs.pos < endPos
        invariant Shape()
        invariant DecodeUntil(vec, bs.data, bs.pos, endPos, width) == DecodeUntil(old(vec), bs.data, old(bs.pos),
                  endPos, width)
        decreases endPos - bs.pos
      {
        StepUntil(vec, bs.data, bs.pos, endPos, width);
        DecodeOneForward(vec, bs.data, bs.pos, width);
        outcome := DecodeOperation(bs);
        if !outcome.Done? {
          return;
        }
      }
      PastEnd(vec, bs.data, bs.pos, endPos, width);
      outcome := Done(vec, bs.pos);
    }

    /** Applies an operation, if that is defined. */
    method Perform(op: Op, pos: nat) returns (outcome: Outcome)
      requires Shape()
      modifies this`vec
      ensures Shape() && outcome == ApplyIfDefined(old(vec), op, pos, width)
      ensures outcome.Done? ==> vec == outcome.vec && pos == outcome.pos
    {
      hide Uniform, Apply, Applicable;
      outcome := ApplyIfDefined(vec, op, pos, width);
      if outcome.Done? {
        vec := outcome.vec;
      }
    }

    /** Reads one operation and performs it. */
    method DecodeOperation(bs: InputBitStream) returns (outcome: Outcome)
      requires Shape()
      modifies this`vec, bs
      ensures Shape() && outcome == DecodeOne(old(vec), bs.data, old(bs.pos), width)
      ensures outcome.Done? ==> vec == outcome.vec && bs.pos == outcome.pos
    {
      hide Uniform, Apply, Applicable, FromU16, ApplyIfDefined, DecodeVec, DecodeArgs;
      var code := bs.Read(1);
      if code == Short {
        return Overflow;
      }
      outcome := DecodeArguments(bs, code.bytes[0]);
    }

    method DecodeArguments(bs: InputBitStream, code: byte) returns (outcome: Outcome)
      requires Shape()
      modifies this`vec, bs
      ensures Shape() && outcome == DecodeArgs(old(vec), code, bs.data, old(bs.pos), width)
      ensures outcome.Done? ==> vec == outcome.vec && bs.pos == outcome.pos
    {
      hide Uniform, Apply, Applicable, FromU16, ApplyIfDefined, DecodeVec;
      if code == 1 {
        var e := bs.Read(width);
        if e == Short { return Overflow; }
        outcome := Perform(Op.PushBack(e.bytes), bs.pos);
        return;
      }
      if code == 2 {
        outcome := Perform(Op.PopBack, bs.pos);
        return;
      }
      if code == 5 || code > 7 {
        return AssertionFailed;
      }
      var field := bs.Read(2);
      if field == Short { return Overflow; }
      var n := FromU16(field.bytes);
      if code == 4 {
        outcome := Perform(Op.Erase(n), bs.pos);
      } else if code == 6 {
        outcome := Perform(Op.Resize(n), bs.pos);
      } else if code == 7 {
        outcome := ReadVec(bs, n);
        if outcome.Done? {
          vec := outcome.vec;
        }
      } else {
        var e := bs.Read(width);
        if e == Short { return Overflow; }
        outcome := Perform(if code == 0 then Op.Update(n, e.bytes) else Op.Insert(n, e.bytes), bs.pos);
      }
    }

    method ReadVec(bs: InputBitStream, n: nat) returns (outcome: Outcome)
      modifies bs
      ensures outcome == DecodeVec(bs.data, old(bs.pos), n, width)
      ensures outcome.Done? ==> bs.pos == outcome.pos && Uniform(outcome.vec, width)
    {
      var newVec: seq<Elem> := [];
      for i := 0 to n
        invariant DecodeVec(bs.data, old(bs.pos), i, width) == Done(newVec, bs.pos) && Uniform(newVec, width)
      {
        var e := bs.Read(width);
        if e == Short {
          VecFails(bs.data, old(bs.pos), i + 1, n, width);
          return Overflow;
        }
        newVec := newVec + [e.bytes];
      }
      outcome := Done(newVec, bs.pos);
    }
  }

  lemma PastEnd(vec: seq<Elem>, data: seq<byte>, pos: nat, end: nat, width: nat)
    requires pos >= end
    ensures DecodeUntil(vec, data, pos, end, width) == Done(vec, pos)
  {
  }

  lemma {:induction false} VecFails(data: seq<byte>, pos: nat, m: nat, n: nat, width: nat)
    requires m <= n && DecodeVec(data, pos, m, width) == Overflow
    ensures DecodeVec(data, pos, n, width) == Overflow
  {
    if m < n { VecFails(data, pos, m, n - 1, width); }
  }

  /** The delta an array writes, read onto what the array was at its last reset, gives the array. */
  lemma ReplicaFollows(a: SyncArray, data: seq<byte>, pos: nat)
    requires a.Valid() && a.Synced() && AllSmall(a.ops) && Clear !in a.ops && |EncodeAll(a.ops)| < 0x1_0000_0000
    requires At(data, pos, U32(|EncodeAll(a.ops)|) + EncodeAll(a.ops))
    ensures DecodeDelta(a.base, data, pos, a.width) == Done(a.vec, pos + 4 + |EncodeAll(a.ops)|)
  {
    DeltaDecodes(a.base, a.ops, data, pos, a.width);
  }

  lemma LogEmpty(vec: seq<Elem>, ops: seq<Op>, width: nat)
    requires Runs(vec, ops, width)
    ensures |EncodeAll(ops)| == 0 <==> ops == []
  {
    LogParts(vec, ops, width);
  }

  lemma MoreLog(base: seq<Elem>, ops: seq<Op>, op: Op, width: nat)
    requires Runs(base, ops, width) && Applicable(Replay(base, ops, width), op, width)
    ensures Runs(base, ops + [op], width) && EncodeAll(ops + [op]) == EncodeAll(ops) + Encode(op)
    ensures Replay(base, ops + [op], width) == Apply(Replay(base, ops, width), op, width)
  {
    assert (ops + [op])[..|ops|] == ops;
  }
}
