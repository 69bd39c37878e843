/** Messages on a byte stream: each is preceded by its length, and inside it the payload is preceded by the name.
    The receiver takes the stream in whatever pieces it arrives. */
module Framing {
  import opened Sequences
  import opened BitStreams
  import opened SevenBit

  const MAX_LEN_SIZE: nat := 5
  const MAX_PACKAGE_SIZE: nat := 16 * 1024 * 1024

  // ---- The stream, byte by byte ----

  /** What a receiver is waiting for: more of a length, more of a message, nothing any more after a message of
      length zero, or it has run into an assertion or past its five bytes. */
  datatype Parser =
    | Length(prefix: seq<byte>)
    | Body(got: seq<byte>, need: nat)
    | Stalled
    | Broken

  datatype Parsed = Parsed(state: Parser, msgs: seq<seq<byte>>)

  const START := Length([])

  function AfterLength(prefix: seq<byte>): Parser {
    var n := Value7(prefix) % WORD;
    if n > MAX_PACKAGE_SIZE then Broken else if n == 0 then Stalled else Body([], n)
  }

  function Step(p: Parser, b: byte): Parsed {
    match p
    case Length(prefix) =>
      if |prefix| >= MAX_LEN_SIZE then Parsed(Broken, [])
      else if b < 128 then Parsed(AfterLength(prefix + [b]), [])
      else Parsed(Length(prefix + [b]), [])
    case Body(got, need) =>
      if need <= 1 then Parsed(START, [got + [b]]) else Parsed(Body(got + [b], need - 1), [])
    case Stalled => Parsed(Stalled, [])
    case Broken => Parsed(Broken, [])
  }

  function Parse(p: Parser, bytes: seq<byte>): Parsed
    decreases |bytes|
  {
    if bytes == [] then Parsed(p, [])
    else
      var one := Step(p, bytes[0]);
      var rest := Parse(one.state, bytes[1..]);
      Parsed(rest.state, one.msgs + rest.msgs)
  }

  /** Where the stream is cut does not matter. */
  lemma {:induction false} ParseAppend(p: Parser, a: seq<byte>, b: seq<byte>)
    ensures Parse(p, a + b) == Parsed(Parse(Parse(p, a).state, b).state,
                                      Parse(p, a).msgs + Parse(Parse(p, a).state, b).msgs)
    decreases |a|
  {
    hide Step;
    if a == [] {
      assert a + b == b;
    } else {
      assert (a + b)[1..] == a[1..] + b;
      ParseAppend(Step(p, a[0]).state, a[1..], b);
    }
  }

  function Concat(pieces: seq<seq<byte>>): seq<byte> {
    if pieces == [] then [] else pieces[0] + Concat(pieces[1..])
  }

  /** One call of the receiver after the other. */
  function ParsePieces(p: Parser, pieces: seq<seq<byte>>): Parsed
    decreases |pieces|
  {
    if pieces == [] then Parsed(p, [])
    else
      var one := Parse(p, pieces[0]);
      var rest := ParsePieces(one.state, pieces[1..]);
      Parsed(rest.state, one.msgs + rest.msgs)
  }

  /** However the stream is cut into pieces, the messages are those of the whole stream at once. */
  lemma {:induction false} PiecesDoNotMatter(p: Parser, pieces: seq<seq<byte>>)
    ensures ParsePieces(p, pieces) == Parse(p, Concat(pieces))
    decreases |pieces|
  {
    if pieces == [] { assert Parse(p, []) == Parsed(p, []); }
    hide Parse;
    if pieces != [] {
      PiecesDoNotMatter(Parse(p, pieces[0]).state, pieces[1..]);
      ParseAppend(p, pieces[0], Concat(pieces[1..]));
    }
  }

  // ---- Frames ----

  function Frame(msg: seq<byte>): seq<byte> {
    Encode7(|msg| % WORD) + msg
  }

  function Stream(msgs: seq<seq<byte>>): seq<byte> {
    if msgs == [] then [] else Frame(msgs[0]) + Stream(msgs[1..])
  }

  /** Bytes of a length, all with their high bit set, are only collected. */
  lemma {:induction false} LengthGrows(prefix: seq<byte>, s: seq<byte>)
    requires |prefix| + |s| <= MAX_LEN_SIZE && forall k :: 0 <= k < |s| ==> s[k] >= 128
    ensures Parse(Length(prefix), s) == Parsed(Length(prefix + s), [])
    decreases |s|
  {
    if s == [] {
      assert prefix + s == prefix;
    } else {
      assert prefix + [s[0]] + s[1..] == prefix + s;
      LengthGrows(prefix + [s[0]], s[1..]);
    }
  }

  lemma LengthRead(n: nat)
    requires n < WORD
    ensures Parse(START, Encode7(n))
         == Parsed(if n > MAX_PACKAGE_SIZE then Broken else if n == 0 then Stalled else Body([], n), [])
  {
    hide Encode7, Ends, Parse, Value7, AfterLength;
    EncodedEnds(n);
    EndRead(Encode7(n));
    AfterKnown(Encode7(n), n);
  }

  lemma EncodedEnds(n: nat)
    requires n < WORD
    ensures var s := Encode7(n);
            Ends(s, |s|) && |s| <= MAX_LEN_SIZE && Value7(s) == n
  {
    hide Encode7, Ends, Value7;
    RoundTrip(n, []);
    FiveBytes(n);
    assert Encode7(n) + [] == Encode7(n);
  }

  lemma AfterKnown(s: seq<byte>, n: nat)
    requires Value7(s) == n < WORD
    ensures AfterLength(s) == if n > MAX_PACKAGE_SIZE then Broken else if n == 0 then Stalled else Body([], n)
  {
  }

  lemma EndRead(s: seq<byte>)
    requires Ends(s, |s|) && |s| <= MAX_LEN_SIZE
    ensures Parse(START, s) == Parsed(AfterLength(s), [])
  {
    hide Parse, AfterLength;
    var front, last := s[..|s| - 1], s[|s| - 1];
    LengthGrows([], front);
    assert [] + front == front && s == front + [last];
    ParseAppend(START, front, [last]);
    ParseOne(Length(front), last);
  }

  lemma ParseOne(p: Parser, b: byte)
    ensures Parse(p, [b]) == Step(p, b)
  {
    var one := Step(p, b);
    assert Parse(one.state, []) == Parsed(one.state, []);
  }

  /** A message's bytes are collected, and the last one completes it. */
  lemma {:induction false} BodyRead(got: seq<byte>, need: nat, s: seq<byte>)
    requires 0 < |s| <= need
    ensures Parse(Body(got, need), s)
         == if |s| == need then Parsed(START, [got + s]) else Parsed(Body(got + s, need - |s|), [])
    decreases |s|
  {
    assert got + [s[0]] + s[1..] == got + s;
    if |s| == 1 {
      assert s == [s[0]];
      ParseOne(Body(got, need), s[0]);
    } else {
      BodyRead(got + [s[0]], need - 1, s[1..]);
    }
  }

  /** A whole frame. */
  lemma FrameRead(msg: seq<byte>)
    requires |msg| < WORD
    ensures Parse(START, Frame(msg))
         == if |msg| == 0 then Parsed(Stalled, []) else if |msg| <= MAX_PACKAGE_SIZE then Parsed(START, [msg])
             else Parsed(Broken, [])
  {
    hide Parse, Encode7;
    var n := |msg|;
    LengthRead(n);
    ParseAppend(START, Encode7(n), msg);
    if n == 0 {
      Silent(Stalled, msg);
    } else if n <= MAX_PACKAGE_SIZE {
      BodyRead([], n, msg);
      assert [] + msg == msg;
    } else {
      Silent(Broken, msg);
    }
  }

  /** A stalled receiver stays stalled, whatever comes. */
  lemma {:induction false} Silent(p: Parser, bytes: seq<byte>)
    requires p == Stalled || p == Broken
    ensures Parse(p, bytes) == Parsed(p, [])
  {
    if bytes != [] { Silent(p, bytes[1..]); }
  }

  /** Any encoding of a length is taken that ends within five bytes, also a longer one than necessary; no other is. */
  lemma AnyLengthRead(s: seq<byte>)
    requires Ends(s, |s|)
    ensures var n := Value7(s) % WORD;
            Parse(START, s) == Parsed(if |s| > 5 || n > MAX_PACKAGE_SIZE then Broken else if n == 0 then Stalled
                                      else Body([], n), [])
  {
    if |s| <= 5 {
      EndRead(s);
    } else {
      hide Parse, Ends, Value7;
      var first, rest := s[..5], s[6..];
      assert s == first + ([s[5]] + rest);
      FiveWithoutEnd(s);
      LengthGrows([], first);
      assert [] + first == first;
      ParseAppend(START, first, [s[5]] + rest);
      ParseOne(Length(first), s[5]);
      ParseAppend(Length(first), [s[5]], rest);
      Silent(Broken, rest);
    }
  }

  lemma FiveWithoutEnd(s: seq<byte>)
    requires Ends(s, |s|) && |s| > 5
    ensures forall k :: 0 <= k < |s[..5]| ==> s[..5][k] >= 128
  {
  }

  predicate Sendable(msg: seq<byte>) {
    0 < |msg| <= MAX_PACKAGE_SIZE
  }

  /** A stream delivers its messages, all of them and in order, exactly when none is empty or too long. */
  lemma {:induction false} DeliveredExactlyWhen(msgs: seq<seq<byte>>)
    requires forall k :: 0 <= k < |msgs| ==> |msgs[k]| < WORD
    ensures Parse(START, Stream(msgs)) == Parsed(START, msgs) <==> forall k :: 0 <= k < |msgs| ==> Sendable(msgs[k])
  {
    if msgs != [] {
      hide Parse, Frame;
      DeliveredExactlyWhen(msgs[1..]);
      FrameRead(msgs[0]);
      ParseAppend(START, Frame(msgs[0]), Stream(msgs[1..]));
      assert msgs == [msgs[0]] + msgs[1..];
      if Sendable(msgs[0]) {
        SameTail(msgs[0], Parse(START, Stream(msgs[1..])).msgs, msgs);
      } else {
        Silent(Stalled, Stream(msgs[1..]));
        Silent(Broken, Stream(msgs[1..]));
      }
    }
  }

  lemma SameTail<T>(x: T, s: seq<T>, t: seq<T>)
    requires |t| > 0 && t[0] == x
    ensures [x] + s == t <==> s == t[1..]
  {
    if [x] + s == t { assert s == ([x] + s)[1..]; }
  }

  /** An empty message silences the receiver for good: neither it nor anything after it is delivered. */
  lemma EmptyMessageStalls(before: seq<seq<byte>>, rest: seq<byte>)
    requires forall k :: 0 <= k < |before| ==> Sendable(before[k])
    ensures Parse(START, Stream(before) + (Frame([]) + rest)) == Parsed(Stalled, before)
  {
    hide Parse, Frame;
    DeliveredExactlyWhen(before);
    FrameRead([]);
    ParseAppend(START, Stream(before), Frame([]) + rest);
    ParseAppend(START, Frame([]), rest);
    Silent(Stalled, rest);
  }

  // ---- Receiving ----

  /** After i bytes the parser is in state p and the messages so far are delivered. */
  ghost predicate SoFar(p0: Parser, bytes: seq<byte>, i: nat, p: Parser, msgs: seq<seq<byte>>)
    requires i <= |bytes|
  {
    Parse(p0, bytes) == Parsed(Parse(p, bytes[i..]).state, msgs + Parse(p, bytes[i..]).msgs)
  }

  lemma AtFirst(p0: Parser, bytes: seq<byte>)
    ensures SoFar(p0, bytes, 0, p0, [])
  {
    assert bytes[0..] == bytes;
  }

  lemma Advance(p0: Parser, bytes: seq<byte>, i: nat, j: nat, p: Parser, p': Parser, msgs: seq<seq<byte>>,
                more: seq<seq<byte>>)
    requires i <= j <= |bytes| && SoFar(p0, bytes, i, p, msgs) && Parse(p, bytes[i..j]) == Parsed(p', more)
    ensures SoFar(p0, bytes, j, p', msgs + more)
  {
    hide Parse;
    assert bytes[i..] == bytes[i..j] + bytes[j..];
    ParseAppend(p, bytes[i..j], bytes[j..]);
    var rest := Parse(p', bytes[j..]).msgs;
    assert msgs + (more + rest) == msgs + more + rest;
  }

  lemma AtLast(p0: Parser, bytes: seq<byte>, i: nat, p: Parser, msgs: seq<seq<byte>>)
    requires i <= |bytes| && SoFar(p0, bytes, i, p, msgs) && (i == |bytes| || p == Stalled || p == Broken)
    ensures Parse(p0, bytes) == Parsed(p, msgs)
  {
    if i < |bytes| { Silent(p, bytes[i..]); }
    assert Parse(p, bytes[i..]) == Parsed(p, []);
  }

  class RecvBuffer {
    const lenBytes: array<byte>
    var inData: bool
    var lenBytesPosition: nat
    var needBytes: nat
    /** Next useful position of the buffer. */
    var position: nat
    var buffer: array?<byte>

    ghost predicate Valid()
      reads this, lenBytes, buffer
    {
      && lenBytes.Length == MAX_LEN_SIZE && buffer != lenBytes && lenBytesPosition <= MAX_LEN_SIZE
      && (forall k :: 0 <= k < lenBytesPosition ==> lenBytes[k] >= 128)
      && if inData then lenBytesPosition == 0 && buffer != null && position + needBytes == buffer.Length
         else needBytes == 1 && position == 0 && buffer == null
    }

    ghost function State(): Parser
      requires Valid()
      reads this, lenBytes, buffer
    {
      if needBytes == 0 then Stalled
      else if inData then Body(buffer[..position], needBytes)
      else Length(lenBytes[..lenBytesPosition])
    }

    constructor ()
      ensures Valid() && State() == START && fresh(lenBytes) && buffer == null
    {
      lenBytes := new byte[MAX_LEN_SIZE](_ => 0);
      inData, lenBytesPosition, needBytes, position, buffer := false, 0, 1, 0, null;
    }

    /** One byte of a length. `aborted` stands for a failed assertion, or a write past the five bytes. */
    method TakeLength(b: byte) returns (aborted: bool)
      requires Valid() && !inData
      modifies this, lenBytes
      ensures aborted <==> Step(old(State()), b).state == Broken
      ensures !aborted ==> Valid() && Parsed(State(), []) == Step(old(State()), b)
      ensures buffer == null || fresh(buffer)
    {
      hide Value7;
      ghost var prefix := lenBytes[..lenBytesPosition];
      if lenBytesPosition >= MAX_LEN_SIZE {
        return true;
      }
      lenBytes[lenBytesPosition] := b;
      lenBytesPosition := lenBytesPosition + 1;
      assert lenBytes[..lenBytesPosition] == prefix + [b];
      if b < 128 {
        needBytes := 0;
      }
      if needBytes == 0 {
        inData := true;
        ghost var n := lenBytesPosition;
        assert lenBytes[..][..n] == prefix + [b];
        var i;
        needBytes, i := Read7BitEncodedInt(lenBytes[..], n);
        lenBytesPosition := 0;
        if needBytes > MAX_PACKAGE_SIZE {
          return true;
        }
        buffer := new byte[needBytes];
      }
      aborted := false;
    }

    /** Some or all of the bytes a message still needs; `finished` holds the message if it is complete. */
    method TakeData(bytes: seq<byte>) returns (used: nat, finished: seq<seq<byte>>)
      requires Valid() && inData && needBytes > 0 && |bytes| > 0
      modifies this, buffer
      ensures Valid() && 0 < used <= |bytes| && Parse(old(State()), bytes[..used]) == Parsed(State(), finished)
      ensures buffer == old(buffer) || buffer == null
    {
      hide Parse;
      ghost var got, need := buffer[..position], needBytes;
      used := if |bytes| < needBytes then |bytes| else needBytes;
      BodyRead(got, need, bytes[..used]);
      Memcpy(buffer, position, bytes[..used]);
      ghost var all := buffer[..position + used];
      Glue(buffer[..], 0, position, position + used);
      assert all == buffer[..][..position + used] && all == got + bytes[..used];
      if |bytes| < needBytes {
        needBytes := needBytes - used;
        position := position + used;
        finished := [];
      } else {
        var msg := buffer[..position + needBytes];
        finished := [msg];
        inData := false;
        needBytes := 1;
        buffer := null;
        position := 0;
      }
    }

    /** Takes a piece of the stream and returns the messages it completes. */
    method Recv(bytes: seq<byte>) returns (msgs: seq<seq<byte>>, aborted: bool)
      requires Valid()
      modifies this, lenBytes, buffer
      ensures aborted <==> Parse(old(State()), bytes).state == Broken
      ensures !aborted ==> Valid() && Parse(old(State()), bytes) == Parsed(State(), msgs)
      ensures buffer == old(buffer) || buffer == null || fresh(buffer)
    {
      hide Parse, Step, SoFar;
      ghost var p0 := State();
      var n, bindex := |bytes|, 0;
      msgs := [];
      AtFirst(p0, bytes);
      while needBytes > 0 && bindex < n
        invariant Valid() && bindex <= n && SoFar(p0, bytes, bindex, State(), msgs)
        invariant buffer == old(buffer) || buffer == null || fresh(buffer)
        decreases n - bindex
      {
        ghost var p := State();
        if !inData {
          aborted := TakeLength(bytes[bindex]);
          ParseOne(p, bytes[bindex]);
          assert bytes[bindex..bindex + 1] == [bytes[bindex]];
          if aborted {
            StepMsgs(p, bytes[bindex]);
            Advance(p0, bytes, bindex, bindex + 1, p, Broken, msgs, []);
            AtLast(p0, bytes, bindex + 1, Broken, msgs + []);
            return;
          }
          Advance(p0, bytes, bindex, bindex + 1, p, State(), msgs, []);
          assert msgs + [] == msgs;
          bindex := bindex + 1;
        } else {
          var used, finished := TakeData(bytes[bindex..]);
          assert bytes[bindex..][..used] == bytes[bindex..bindex + used];
          Advance(p0, bytes, bindex, bindex + used, p, State(), msgs, finished);
          msgs := msgs + finished;
          bindex := bindex + used;
        }
      }
      AtLast(p0, bytes, bindex, State(), msgs);
      aborted := false;
    }
  }

  lemma StepMsgs(p: Parser, b: byte)
    requires p.Length?
    ensures Step(p, b).msgs == []
  {
  }

  // ---- Names and payloads ----

  function RawMessage(name: seq<byte>, payload: seq<byte>): seq<byte> {
    Encode7(|name| % WORD) + name + payload
  }

  /** How a message splits: into name and payload, or with an exception when the name takes more than there is,
      or without a defined result when no length ends within five bytes. */
  datatype Split = Split(name: seq<byte>, payload: seq<byte>) | OutOfRange | Undefined

  /** Where the first encoded number ends; 0 when it does not end within five bytes. */
  function LengthSize(s: seq<byte>): (n: nat)
    ensures n != 0 ==> n <= 5 && Ends(s, n)
    ensures n == 0 ==> forall m :: 1 <= m <= 5 ==> !Ends(s, m)
  {
    if |s| > 0 && s[0] < 128 then 1
    else if |s| > 1 && s[1] < 128 then 2
    else if |s| > 2 && s[2] < 128 then 3
    else if |s| > 3 && s[3] < 128 then 4
    else if |s| > 4 && s[4] < 128 then 5
    else 0
  }

  /** The message is followed by a zero byte in memory, so a length may even end there. */
  function SplitOf(msg: seq<byte>): Split {
    var n := LengthSize(msg + [0]);
    if n == 0 then Undefined
    else
      var size := Value7((msg + [0])[..n]) % WORD;
      if n + size > |msg| then OutOfRange else Split(msg[n..n + size], msg[n + size..])
  }

  /** Name and payload come apart as they were put together. */
  lemma SplitBack(name: seq<byte>, payload: seq<byte>)
    requires |name| < WORD
    ensures SplitOf(RawMessage(name, payload)) == Split(name, payload) && |RawMessage(name, payload)| > 0
  {
    var s, msg := Encode7(|name|), RawMessage(name, payload);
    RoundTrip(|name|, name + payload + [0]);
    FiveBytes(|name|);
    assert s + (name + payload + [0]) == msg + [0];
    EndsOnce(msg + [0], |s|, LengthSize(msg + [0]));
    assert (msg + [0])[..|s|] == s;
    assert msg[|s|..|s| + |name|] == name && msg[|s| + |name|..] == payload;
  }

  lemma SplitWhole(msg: seq<byte>)
    ensures var r := SplitOf(msg);
            r.Split? ==> msg == msg[..|msg| - |r.name| - |r.payload|] + r.name + r.payload
  {
    hide Value7, LengthSize, Ends;
  }

  /** A message splits exactly when a length ends within five bytes and the name of that length fits. */
  lemma SplitsExactlyWhen(msg: seq<byte>, n: nat)
    requires 0 < n <= 5 && Ends(msg + [0], n)
    ensures var size, r := Value7((msg + [0])[..n]) % WORD, SplitOf(msg);
            && (r.Split? <==> n + size <= |msg|) && (r == OutOfRange <==> n + size > |msg|)
            && (r.Split? ==> |r.name| == size && msg == msg[..n] + r.name + r.payload)
  {
    hide Value7;
    EndsOnce(msg + [0], n, LengthSize(msg + [0]));
  }

  /** Splits a message into name and payload. */
  method HandleMsg(msg: seq<byte>) returns (r: Split)
    ensures r == SplitOf(msg)
    ensures r.Split? ==> msg == msg[..|msg| - |r.name| - |r.payload|] + r.name + r.payload
  {
    SplitWhole(msg);
    hide Value7, Ends;
    var bytes := msg + [0];
    var n := LengthSize(bytes);
    if n == 0 {
      return Undefined;
    }
    var nameLength, i := Read7BitEncodedInt(bytes, n);
    var pos := i;
    if pos > |msg| {
      return OutOfRange;
    }
    var name := if pos + nameLength <= |msg| then msg[pos..pos + nameLength] else msg[pos..];
    pos := pos + nameLength;
    if pos > |msg| {
      return OutOfRange;
    }
    r := Split(name, msg[pos..]);
  }

  // ---- Sending ----

  /** What a connection has been given to write; its buffer limit is not in question here. */
  class Connection {
    var output: seq<byte>

    constructor ()
      ensures output == []
    {
      output := [];
    }

    method SendData(data: seq<byte>)
      modifies this
      ensures output == old(output) + data
    {
      output := output + data;
    }

    method SendMsg(msg: seq<byte>)
      modifies this
      ensures output == old(output) + Frame(msg)
    {
      var lenBytes := new byte[5](_ => 0);
      var n := Write7BitEncodedInt(|msg| % WORD, lenBytes);
      SendData(lenBytes[..n]);
      SendData(msg);
      assert old(output) + Encode7(|msg| % WORD) + msg == old(output) + Frame(msg);
    }

    method SendRawMsg(name: seq<byte>, payload: seq<byte>)
      modifies this
      ensures output == old(output) + Frame(RawMessage(name, payload))
    {
      var lenBytes := new byte[5](_ => 0);
      var n := Write7BitEncodedInt(|name| % WORD, lenBytes);
      var msg := lenBytes[..n];
      msg := msg + name;
      msg := msg + payload;
      SendMsg(msg);
    }
  }

  // ---- End to end ----

  datatype Message = Message(name: seq<byte>, payload: seq<byte>)

  function RawAll(messages: seq<Message>): (raw: seq<seq<byte>>)
    ensures |raw| == |messages|
  {
    seq(|messages|, k requires 0 <= k < |messages| => RawMessage(messages[k].name, messages[k].payload))
  }

  /** Names fit their length and messages fit a frame. */
  predicate Fits(m: Message) {
    |m.name| < WORD && |RawMessage(m.name, m.payload)| <= MAX_PACKAGE_SIZE
  }

  /** What is sent, cut into any pieces, arrives as the same messages with the same names and payloads. */
  lemma EndToEnd(messages: seq<Message>, pieces: seq<seq<byte>>)
    requires (forall k :: 0 <= k < |messages| ==> Fits(messages[k])) && Concat(pieces) == Stream(RawAll(messages))
    ensures ParsePieces(START, pieces) == Parsed(START, RawAll(messages))
    ensures forall k :: 0 <= k < |messages| ==> SplitOf(RawAll(messages)[k]) == Split(messages[k].name,
            messages[k].payload)
  {
    hide Parse, SplitOf, RawMessage;
    forall k | 0 <= k < |messages|
      ensures SplitOf(RawAll(messages)[k]) == Split(messages[k].name, messages[k].payload)
              && Sendable(RawAll(messages)[k])
    {
      SplitBack(messages[k].name, messages[k].payload);
    }
    PiecesDoNotMatter(START, pieces);
    DeliveredExactlyWhen(RawAll(messages));
  }

  lemma {:induction false} StreamMore(msgs: seq<seq<byte>>, msg: seq<byte>)
    ensures Stream(msgs + [msg]) == Stream(msgs) + Frame(msg)
  {
    hide Frame;
    if msgs == [] {
      assert msgs + [msg] == [msg];
      assert Stream([msg]) == Frame(msg) + Stream([]);
    } else {
      assert (msgs + [msg])[1..] == msgs[1..] + [msg];
      StreamMore(msgs[1..], msg);
    }
  }

  lemma {:induction false} ParsePiecesMore(p: Parser, pieces: seq<seq<byte>>, piece: seq<byte>)
    ensures var before := ParsePieces(p, pieces);
            var last := Parse(before.state, piece);
            ParsePieces(p, pieces + [piece]) == Parsed(last.state, before.msgs + last.msgs)
    decreases |pieces|
  {
    hide Parse;
    if pieces == [] {
      assert pieces + [piece] == [piece];
      var last := Parse(p, piece);
      assert ParsePieces(last.state, []) == Parsed(last.state, []);
    } else {
      assert (pieces + [piece])[1..] == pieces[1..] + [piece];
      ParsePiecesMore(Parse(p, pieces[0]).state, pieces[1..], piece);
    }
  }

  method SendAll(conn: Connection, messages: seq<Message>)
    modifies conn
    ensures conn.output == old(conn.output) + Stream(RawAll(messages))
  {
    hide Frame, RawMessage;
    for k := 0 to |messages|
      invariant conn.output == old(conn.output) + Stream(RawAll(messages[..k]))
    {
      var m := messages[k];
      conn.SendRawMsg(m.name, m.payload);
      StreamMore(RawAll(messages[..k]), RawMessage(m.name, m.payload));
      assert RawAll(messages[..k + 1]) == RawAll(messages[..k]) + [RawMessage(m.name, m.payload)];
    }
    assert messages[..|messages|] == messages;
  }

  /** Hands the receiver one piece after the other. */
  method ReceiveAll(buffer: RecvBuffer, pieces: seq<seq<byte>>) returns (msgs: seq<seq<byte>>, aborted: bool)
    requires buffer.Valid()
    modifies buffer, buffer.lenBytes, buffer.buffer
    ensures aborted <==> ParsePieces(old(buffer.State()), pieces).state == Broken
    ensures !aborted ==> buffer.Valid() && ParsePieces(old(buffer.State()), pieces) == Parsed(buffer.State(), msgs)
  {
    hide Parse, ParsePieces;
    ghost var p0 := buffer.State();
    msgs, aborted := [], false;
    NoPieces(p0);
    for k := 0 to |pieces|
      invariant buffer.Valid() && ParsePieces(p0, pieces[..k]) == Parsed(buffer.State(), msgs)
      invariant buffer.buffer == old(buffer.buffer) || buffer.buffer == null || fresh(buffer.buffer)
    {
      ghost var p := buffer.State();
      var more;
      more, aborted := buffer.Recv(pieces[k]);
      ParsePiecesMore(p0, pieces[..k], pieces[k]);
      assert pieces[..k + 1] == pieces[..k] + [pieces[k]];
      if aborted {
        BrokenForGood(p0, pieces, k + 1);
        return;
      }
      msgs := msgs + more;
    }
    NotBroken(buffer);
    assert pieces[..|pieces|] == pieces;
  }

  lemma NoPieces(p: Parser)
    ensures ParsePieces(p, []) == Parsed(p, [])
  {
  }

  lemma NotBroken(buffer: RecvBuffer)
    requires buffer.Valid()
    ensures buffer.State() != Broken
  {
  }

  lemma {:induction false} BrokenForGood(p: Parser, pieces: seq<seq<byte>>, k: nat)
    requires k <= |pieces| && ParsePieces(p, pieces[..k]).state == Broken
    ensures ParsePieces(p, pieces).state == Broken
    decreases |pieces| - k
  {
    hide ParsePieces;
    if k < |pieces| {
      assert pieces[..k + 1] == pieces[..k] + [pieces[k]];
      ParsePiecesMore(p, pieces[..k], pieces[k]);
      Silent(Broken, pieces[k]);
      BrokenForGood(p, pieces, k + 1);
    } else {
      assert pieces[..k] == pieces;
    }
  }

  /** A sender, a receiver, and between them a stream that may be cut anywhere. */
  method Transmit(messages: seq<Message>, pieces: seq<seq<byte>>) returns (received: seq<Message>)
    requires (forall k :: 0 <= k < |messages| ==> Fits(messages[k])) && Concat(pieces) == Stream(RawAll(messages))
    ensures received == messages
  {
    hide RawMessage, Frame, SplitOf, Fits;
    var conn := new Connection();
    SendAll(conn, messages);
    assert conn.output == Concat(pieces);
    var buffer := new RecvBuffer();
    var msgs, aborted := ReceiveAll(buffer, pieces);
    EndToEnd(messages, pieces);
    received := [];
    for k := 0 to |msgs|
      invariant received == messages[..k]
    {
      var split := HandleMsg(msgs[k]);
      received := received + [Message(split.name, split.payload)];
    }
  }
}
