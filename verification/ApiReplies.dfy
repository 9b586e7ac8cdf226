/** What a client can tell from the answers of src/api.c, and what the blocks it writes
    and reads make up. */
module ApiReplies {
  import opened Bytes
  import opened Config
  import opened ApiState
  import opened ApiSpec

  // --------------------------------------------------------------------- blocks

  /** Block `k` of a buffer. */
  function Block(d: buffer, k: byte): seq<byte>
    requires k < DATA_BLOCK_COUNT
  {
    d[k * DATA_BLOCK_SIZE..k * DATA_BLOCK_SIZE + DATA_BLOCK_SIZE]
  }

  /** A buffer is its blocks. */
  lemma BlocksDetermine(d: buffer, e: buffer)
    requires forall k: byte :: k < DATA_BLOCK_COUNT ==> Block(d, k) == Block(e, k)
    ensures d == e
  {
    forall i | 0 <= i < API_BUFFER_SIZE_BYTES
      ensures d[i] == e[i]
    {
      var k := i / DATA_BLOCK_SIZE;
      assert Block(d, k)[i - k * DATA_BLOCK_SIZE] == Block(e, k)[i - k * DATA_BLOCK_SIZE];
    }
  }

  predicate AllBlocks(ps: seq<byte>) { forall i :: 0 <= i < |ps| ==> ps[i] < DATA_BLOCK_COUNT }

  /** The context after the client has written the blocks `ps` of `d`, in this order. */
  function BlocksWritten(a: Api, d: buffer, ps: seq<byte>): Api
    requires AllBlocks(ps)
  {
    if |ps| == 0 then a
    else
      var p := ps[|ps|-1];
      WriteDataBlock(BlocksWritten(a, d, ps[..|ps|-1]), p, Block(d, p)).api
  }

  lemma OneBlock(a: Api, p: byte, data: seq<byte>)
    requires a.dataType == EMPTY && p < DATA_BLOCK_COUNT && |data| == DATA_BLOCK_SIZE
    ensures var s := WriteDataBlock(a, p, data);
            s.out == Reply([], SW_OK) && s.api == a.(buffer := s.api.buffer)
            && forall k: byte :: k < DATA_BLOCK_COUNT ==>
              Block(s.api.buffer, k) == if k == p then data else Block(a.buffer, k)
  {
    var b := WriteDataBlock(a, p, data).api.buffer;
    forall k: byte | k < DATA_BLOCK_COUNT
      ensures Block(b, k) == if k == p then data else Block(a.buffer, k)
    {
      var o, q := p * DATA_BLOCK_SIZE, k * DATA_BLOCK_SIZE;
      assert forall i :: q <= i < q + DATA_BLOCK_SIZE ==> b[i] == if k == p then data[i - o] else a.buffer[i];
    }
  }

  /** Blocks written in any order, also repeatedly: each written block is the client's,
      every other one is what it was. */
  lemma {:induction false} WritesInAnyOrder(a: Api, d: buffer, ps: seq<byte>)
    requires a.dataType == EMPTY && AllBlocks(ps)
    ensures var b := BlocksWritten(a, d, ps);
            b == a.(buffer := b.buffer)
            && (forall k: byte :: k < DATA_BLOCK_COUNT ==>
                  Block(b.buffer, k) == Block(if k in ps then d else a.buffer, k))
            && ((forall k: byte :: k < DATA_BLOCK_COUNT ==> k in ps) ==> b.buffer == d)
  {
    hide Block, WriteDataBlock;
    if |ps| == 0 {
    } else {
      var qs, p := ps[..|ps|-1], ps[|ps|-1];
      WritesInAnyOrder(a, d, qs);
      BlockLength(d, p);
      OneBlock(BlocksWritten(a, d, qs), p, Block(d, p));
      assert ps == qs + [p];
    }
    if forall k: byte :: k < DATA_BLOCK_COUNT ==> k in ps {
      var b := BlocksWritten(a, d, ps).buffer;
      forall k: byte | k < DATA_BLOCK_COUNT
        ensures Block(b, k) == Block(d, k)
      {
        assert k in ps;
      }
      BlocksDetermine(b, d);
    }
  }

  lemma BlockLength(d: buffer, k: byte)
    requires k < DATA_BLOCK_COUNT
    ensures |Block(d, k)| == DATA_BLOCK_SIZE
  {}

  /** What the client has after reading the first `n` blocks. */
  function BlocksRead(a: Api, n: byte): seq<byte>
    requires a.dataType == GENERATED_ADDRESSES && n <= DATA_BLOCK_COUNT
  {
    if n == 0 then [] else BlocksRead(a, n - 1) + ReadDataBlock(a, n - 1).out.data
  }

  /** Reading all blocks one after the other gives the whole buffer. */
  lemma {:induction false} ReadsMakeBuffer(a: Api, n: byte)
    requires a.dataType == GENERATED_ADDRESSES && n <= DATA_BLOCK_COUNT
    ensures BlocksRead(a, n) == a.buffer[..n * DATA_BLOCK_SIZE]
    ensures n == DATA_BLOCK_COUNT ==> BlocksRead(a, n) == a.buffer
  {
    if n == 0 {
    } else {
      ReadsMakeBuffer(a, n - 1);
      var o := (n - 1) * DATA_BLOCK_SIZE;
      assert a.buffer[..o] + a.buffer[o..o+DATA_BLOCK_SIZE] == a.buffer[..o+DATA_BLOCK_SIZE];
    }
  }

  // --------------------------------------------------------- state and settings

  /** The client's table of type codes. */
  function TypeOfCode(code: byte): Option<DataType> {
    if code == 0 then Some(EMPTY)
    else if code == 1 then Some(GENERATED_ADDRESSES)
    else if code == 2 then Some(VALIDATED_ESSENCE)
    else if code == 3 then Some(USER_CONFIRMED_ESSENCE)
    else if code == 4 then Some(SIGNATURES)
    else if code == 5 then Some(LOCKED)
    else None
  }

  /** The state answer tells the data length, the type, and the size of the buffer. */
  lemma StateReplyDecodes(a: Api)
    ensures var r := GetDataBufferState(a).out.data;
            |r| == 5 && U16(r, 0) == a.dataLength && TypeOfCode(r[2]) == Some(a.dataType)
            && r[3] == DATA_BLOCK_SIZE && r[3] as int * r[4] as int == API_BUFFER_SIZE_BYTES
  {
    hide U16, ToLe;
    var r := GetDataBufferState(a).out.data;
    assert r[0..2] == ToLe(a.dataLength, 2);
    FieldWritten(r, a.dataLength);
  }

  lemma FieldWritten(r: seq<byte>, v: u16)
    requires |r| >= 2 && r[0..2] == ToLe(v, 2)
    ensures U16(r, 0) == v
  {
    Powers();
    LeOfToLe(v, 2);
  }

  /** Bit `i` of a byte. */
  predicate Bit(b: byte, i: nat)
    requires i < 8
  {
    (b as bv8 >> i) & 1 == 1
  }

  function TargetOfCode(device: byte): Option<Target> {
    if device == 0 then Some(NanoS)
    else if device == 1 then Some(NanoX)
    else if device == 2 then Some(NanoSPlus)
    else None
  }

  /** The configuration answer tells whether the device is locked, whether blind signing
      is enabled, which of the two apps runs, and on which device. */
  lemma ConfigReplyDecodes(a: Api, locked: bool, blindEnabled: bool)
    ensures var r := GetAppConfig(a, locked, blindEnabled).out.data;
            |r| == 6 && r[..3] == [0, 8, 6] && r[5] == 0
            && (Bit(r[3], 0) <==> locked) && (Bit(r[3], 1) <==> blindEnabled)
            && (Bit(r[3], 2) <==> APP == ShimmerApp) && (forall i :: 3 <= i < 8 ==> !Bit(r[3], i))
            && TargetOfCode(r[4]) == Some(TARGET)
  {}
}
