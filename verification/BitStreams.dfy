/** Byte streams: an output buffer that grows by doubling, and a bounded input. */
module BitStreams {
  import opened Division
  import opened Sequences

  type byte = x: int | 0 <= x < 256

  /** Little-endian fields; a value that does not fit loses its high bytes. */
  function U16(n: nat): (s: seq<byte>)
    ensures |s| == 2
  {
    [n % 256, n / 256 % 256]
  }

  function U32(n: nat): (s: seq<byte>)
    ensures |s| == 4
  {
    U16(n % 0x1_0000) + U16(n / 0x1_0000 % 0x1_0000)
  }

  function FromU16(s: seq<byte>): (n: nat)
    requires |s| == 2
    ensures n < 0x1_0000
  {
    var low: int, high: int := s[0], s[1];
    low + 256 * high
  }

  function FromU32(s: seq<byte>): (n: nat)
    requires |s| == 4
  {
    FromU16(s[..2]) + 0x1_0000 * FromU16(s[2..])
  }

  lemma U16Back(n: nat)
    ensures FromU16(U16(n)) == n % 0x1_0000
  {
    Bytes(n);
  }

  lemma Bytes(n: nat)
    ensures n % 256 + 256 * (n / 256 % 256) == n % 0x1_0000
  {
    var low, high := n % 256, n / 256 % 256;
    var rest := n / 256 / 256;
    assert n / 256 == 256 * rest + high;
    assert n == 0x1_0000 * rest + (256 * high + low);
    QuotientUnique(n, 0x1_0000, rest);
  }

  /** Fields are little-endian: the first byte counts once, each further one 256 times the one before. */
  lemma LittleEndian(n: nat, s: seq<byte>)
    requires |s| == 4
    ensures U16(n)[0] as int + 256 * U16(n)[1] as int == n % 0x1_0000
    ensures FromU32(s) == s[0] as int + 0x100 * s[1] as int + 0x1_0000 * s[2] as int + 0x100_0000 * s[3] as int
    ensures FromU32(U32(n)) == n % 0x1_0000_0000
  {
    Bytes(n);
    U32Back(n);
  }

  lemma U32Back(n: nat)
    ensures FromU32(U32(n)) == n % 0x1_0000_0000
  {
    var s := U32(n);
    assert s[..2] == U16(n % 0x1_0000) && s[2..] == U16(n / 0x1_0000 % 0x1_0000);
    U16Back(n % 0x1_0000);
    U16Back(n / 0x1_0000 % 0x1_0000);
    Halves(n);
  }

  lemma Halves(n: nat)
    ensures n % 0x1_0000 + 0x1_0000 * (n / 0x1_0000 % 0x1_0000) == n % 0x1_0000_0000
  {
    var low, high := n % 0x1_0000, n / 0x1_0000 % 0x1_0000;
    var rest := n / 0x1_0000 / 0x1_0000;
    assert n / 0x1_0000 == 0x1_0000 * rest + high;
    assert n == 0x1_0000_0000 * rest + (0x1_0000 * high + low);
    QuotientUnique(n, 0x1_0000_0000, rest);
  }

  class OutputBitStream {
    /** As long as the capacity; only the first `pos` bytes mean anything. */
    var buffer: array<byte>
    var pos: nat

    ghost predicate Valid()
      reads this
    {
      pos <= buffer.Length
    }

    ghost function Contents(): seq<byte>
      requires Valid()
      reads this, buffer
    {
      buffer[..pos]
    }

    constructor ()
      ensures Valid() && Contents() == [] && fresh(buffer) && buffer.Length == 0
    {
      buffer := new byte[0];
      pos := 0;
    }

    method Seekp(pos: nat)
      requires pos <= buffer.Length
      modifies this`pos
      ensures Valid() && this.pos == pos
    {
      this.pos := pos;
    }

    method ReallocBuffer(newLength: nat)
      requires Valid() && buffer.Length <= newLength
      modifies this`buffer
      ensures Valid() && buffer.Length == newLength && fresh(buffer) && Contents() == old(Contents())
      ensures buffer[..old(buffer.Length)] == old(buffer[..])
    {
      var oldBuffer, newBuffer := buffer, new byte[newLength];
      for k := 0 to oldBuffer.Length
        invariant buffer == oldBuffer && oldBuffer[..] == old(buffer[..]) && newBuffer[..k] == oldBuffer[..k]
      {
        newBuffer[k] := oldBuffer[k];
      }
      assert oldBuffer[..pos] == newBuffer[..oldBuffer.Length][..pos];
      buffer := newBuffer;
    }

    /** Appends bytes at the position, growing the buffer when they do not fit. */
    method Write(data: seq<byte>)
      requires Valid()
      modifies this, buffer
      ensures Valid() && Contents() == old(Contents()) + data
      ensures var need := old(pos) + |data|;
              if need <= old(buffer.Length) then buffer == old(buffer)
              else
                && fresh(buffer)
                && buffer.Length == if need > 2 * old(buffer.Length) then need else 2 * old(buffer.Length)
      ensures forall k :: old(pos) + |data| <= k < old(buffer.Length) ==> buffer[k] == old(buffer[k])
    {
      ghost var before := Contents();
      if pos + |data| > buffer.Length {
        var twice := buffer.Length * 2;
        ReallocBuffer(if pos + |data| > twice then pos + |data| else twice);
      }
      Memcpy(buffer, pos, data);
      Glue(buffer[..], 0, pos, pos + |data|);
      assert buffer[..pos] == before && buffer[..pos + |data|] == buffer[..][..pos + |data|];
      pos := pos + |data|;
    }
  }

  method Memcpy(target: array<byte>, start: nat, data: seq<byte>)
    requires start + |data| <= target.Length
    modifies target
    ensures target[..start] == old(target[..start]) && target[start..start + |data|] == data
    ensures forall k :: start + |data| <= k < target.Length ==> target[k] == old(target[k])
  {
    for k := 0 to |data|
      invariant target[..start] == old(target[..start])
      invariant forall j :: 0 <= j < k ==> target[start + j] == data[j]
      invariant forall j :: start + |data| <= j < target.Length ==> target[j] == old(target[j])
    {
      target[start + k] := data[k];
    }
  }

  datatype Read = Got(bytes: seq<byte>) | Short

  /** What a bounded read of n bytes gives. */
  function Peek(data: seq<byte>, pos: nat, n: nat): (r: Read)
    ensures r.Got? ==> |r.bytes| == n && pos + n <= |data| && r.bytes <= data[pos..]
    ensures r.Short? <==> pos + n > |data|
  {
    if pos + n > |data| then Short else Got(data[pos..pos + n])
  }

  class InputBitStream {
    const data: seq<byte>
    var pos: nat

    constructor (data: seq<byte>)
      ensures this.data == data && pos == 0
    {
      this.data := data;
      pos := 0;
    }

    /** Reads n bytes, or fails and stays where it is. */
    method Read(n: nat) returns (r: Read)
      modifies this
      ensures r == Peek(data, old(pos), n) && pos == old(pos) + if r.Got? then n else 0
    {
      if pos + n > |data| {
        return Short;
      }
      r := Got(data[pos..pos + n]);
      pos := pos + n;
    }
  }
}
