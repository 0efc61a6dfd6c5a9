/** `read_from_can` (ReadWriteCanImpl/ReadCan.c): reassembles a buffer from
    frames in the format `write_to_can` produces, validating each frame. */
module ReadCan {
  import opened CanFrame
  import opened WriteCan

  /** What a call leaves behind: the return value (-1 or the bytes read), the
      bytes copied into the caller's buffer from offset 0 (also on failure),
      and how many frames of the input it consumed. */
  datatype Outcome = Outcome(status: int, bytes: seq<bv8>, used: nat)

  /** Payload size announced in control bits 0-2. */
  function SizeField(f: Frame): int
  {
    (Control(f) & 7) as int
  }

  /** Sequence number in control bits 3-7. */
  function SeqField(f: Frame): int
  {
    (Control(f) >> 3) as int
  }

  /** The checks a frame must pass before its sequence number is looked at:
      the size field matches `dlc - 1`, is not 0, and fits the capacity left. */
  predicate SizeOk(f: Frame, len: int)
  {
    f.dlc - 1 == SizeField(f) && SizeField(f) != 0 && SizeField(f) <= len
  }

  /** The reading loop from the point where frames `input[..pos]` have been
      read, `len` bytes of capacity remain, `i` frames have been accepted and
      `acc` has been copied. Running out of frames stands for a failing `read`. */
  function Reassemble(input: seq<Frame>, pos: nat, len: int, i: nat, acc: seq<bv8>): (o: Outcome)
    requires AllWellFormed(input) && pos <= |input|
    decreases |input| - pos
  {
    if len <= 0 then Outcome(|acc|, acc, pos)
    else if pos == |input| then Outcome(-1, acc, pos)
    else
      var f := input[pos];
      if !SizeOk(f, len) then Outcome(-1, acc, pos + 1)
      else if SeqField(f) != i && SeqField(f) != 31 then Outcome(-1, acc, pos + 1)
      else if SeqField(f) == 31 then Outcome(|acc| + SizeField(f), acc + Payload(f), pos + 1)
      else Reassemble(input, pos + 1, len - SizeField(f), i + 1, acc + Payload(f))
  }

  /** `read_from_can(buffer, len)` over the frames `input`. */
  function ReadFromCanSpec(input: seq<Frame>, len: int): (o: Outcome)
    requires AllWellFormed(input)
    ensures len <= 0 ==> o.status == -1 && o.used == 0
    ensures o.status != -1 ==> 0 < o.status == |o.bytes| <= len
  {
    if len <= 0 then Outcome(-1, [], 0)
    else
      ReassembleBounds(input, 0, len, 0, []);
      Reassemble(input, 0, len, 0, [])
  }

  /** The loop only appends to what it has copied, reads at least one frame
      per step, and on success has copied at least one and at most `len`
      more bytes and returns their total. */
  lemma {:induction false} ReassembleBounds(input: seq<Frame>, pos: nat, len: int, i: nat, acc: seq<bv8>)
    requires AllWellFormed(input) && pos <= |input|
    ensures pos <= Reassemble(input, pos, len, i, acc).used <= |input|
    ensures acc <= Reassemble(input, pos, len, i, acc).bytes
    ensures Reassemble(input, pos, len, i, acc).status != -1 ==>
      Reassemble(input, pos, len, i, acc).status == |Reassemble(input, pos, len, i, acc).bytes|
    ensures Reassemble(input, pos, len, i, acc).status != -1 && len > 0 ==>
      |acc| < |Reassemble(input, pos, len, i, acc).bytes| <= |acc| + len
    decreases |input| - pos
  {
    if len > 0 && pos < |input| {
      var f := input[pos];
      if SizeOk(f, len) && SeqField(f) == i && i != 31 {
        ReassembleBounds(input, pos + 1, len - SizeField(f), i + 1, acc + Payload(f));
      }
    }
  }

  /** The call returned `status`, read `used` frames and turned the caller's
      buffer from `before` into `after`, as the outcome `o` says. */
  predicate Leaves(o: Outcome, status: int, used: nat, after: seq<bv8>, before: seq<bv8>)
  {
    status == o.status && used == o.used && |o.bytes| <= |before| &&
    after == o.bytes + before[|o.bytes|..]
  }

  /** The loop itself, copying payloads into `buffer` in place; `used` is the
      number of frames it read. */
  method ReadFromCan(buffer: array<bv8>, len: int, input: seq<Frame>) returns (readFromCan: int, used: nat)
    requires AllWellFormed(input) && len <= buffer.Length
    modifies buffer
    ensures Leaves(ReadFromCanSpec(input, len), readFromCan, used, buffer[..], old(buffer[..]))
  {
    if len <= 0 {
      return -1, 0;
    }
    ghost var goal := ReadFromCanSpec(input, len);
    ghost var start := buffer[..];
    var remaining := len;
    var offset := 0;
    var i := 0;
    var pos := 0;
    ghost var acc: seq<bv8> := [];
    readFromCan := 0;
    while remaining > 0
      invariant 0 <= pos <= |input| && 0 <= remaining && |acc| + remaining == len
      invariant readFromCan == offset == |acc|
      invariant buffer[..] == acc + start[offset..]
      invariant Reassemble(input, pos, remaining, i, acc) == goal
      decreases |input| - pos
    {
      if pos == |input| {
        readFromCan := -1;
        break;
      }
      var frame := input[pos];
      assert WellFormed(frame);
      if frame.dlc - 1 != SizeField(frame) || SizeField(frame) == 0 || remaining < SizeField(frame)
        || (SeqField(frame) != i && SeqField(frame) != 31) {
        pos := pos + 1;
        readFromCan := -1;
        break;
      }
      var n := frame.dlc - 1;
      CopyPayload(buffer, offset, acc, start, Payload(frame));
      acc := acc + Payload(frame);
      pos := pos + 1;
      readFromCan := readFromCan + n;
      offset := offset + n;
      remaining := remaining - n;
      i := i + 1;
      if SeqField(frame) == 31 {
        break;
      }
    }
    used := pos;
  }

  /** Copies `bytes` right after the `acc` already copied over `start`. */
  method CopyPayload(buffer: array<bv8>, offset: nat, ghost acc: seq<bv8>, ghost start: seq<bv8>, bytes: seq<bv8>)
    requires offset == |acc| && offset + |bytes| <= |start| && buffer[..] == acc + start[offset..]
    modifies buffer
    ensures buffer[..] == (acc + bytes) + start[|acc| + |bytes|..]
  {
    Memcpy(buffer, offset, bytes);
    Splice(acc, start, bytes);
  }

  /** A frame whose size field disagrees with its `dlc`, announces no bytes,
      or announces more than the capacity left ends the call with -1, and so
      does a well-sized frame whose sequence number is neither the expected
      one nor 31. */
  lemma RejectsFrame(input: seq<Frame>, pos: nat, len: int, i: nat, acc: seq<bv8>)
    requires AllWellFormed(input) && pos < |input| && len > 0
    requires !SizeOk(input[pos], len) || (SeqField(input[pos]) != i && SeqField(input[pos]) != 31)
    ensures Reassemble(input, pos, len, i, acc) == Outcome(-1, acc, pos + 1)
  {
  }

  /** A well-sized frame with sequence 31 ends the call, adding its bytes. */
  lemma AcceptFinal(input: seq<Frame>, pos: nat, len: int, i: nat, acc: seq<bv8>)
    requires AllWellFormed(input) && pos < |input| && len > 0 && SizeOk(input[pos], len)
    requires SeqField(input[pos]) == 31
    ensures var f := input[pos];
      Reassemble(input, pos, len, i, acc) == Outcome(|acc| + f.dlc - 1, acc + Payload(f), pos + 1)
  {
  }

  /** A well-sized frame with the expected sequence number adds exactly its
      `dlc - 1` bytes and reading goes on with one frame more accepted. */
  lemma AcceptNext(input: seq<Frame>, pos: nat, len: int, i: nat, acc: seq<bv8>)
    requires AllWellFormed(input) && pos < |input| && len > 0 && SizeOk(input[pos], len)
    requires SeqField(input[pos]) == i && i != 31
    ensures var f := input[pos];
      Reassemble(input, pos, len, i, acc) == Reassemble(input, pos + 1, len - (f.dlc - 1), i + 1, acc + Payload(f))
  {
  }

  /** The round trip: the frames `write_to_can(b, n)` sends, followed by
      anything, are read back by `read_from_can` into exactly `b[..n]` when
      0 < n <= 224 and the reader's capacity is at least n. */
  lemma ReadAfterWrite(b: seq<bv8>, n: int, capacity: int, rest: seq<Frame>)
    requires 0 < n <= 224 && n <= |b| && n <= capacity && AllWellFormed(rest)
    ensures AllWellFormed(WriterFrames(b, n) + rest)
    ensures ReadFromCanSpec(WriterFrames(b, n) + rest, capacity) == Outcome(n, b[..n], FrameCount(n))
  {
    WriterFramesWellFormed(b, n, rest);
    ReadFrom(b, n, capacity, rest, 0);
  }

  lemma WriterFramesWellFormed(b: seq<bv8>, n: int, rest: seq<Frame>)
    requires n <= |b| && AllWellFormed(rest)
    ensures AllWellFormed(WriterFrames(b, n) + rest)
  {
    var fs := WriterFrames(b, n);
    forall k | 0 <= k < |fs + rest| ensures WellFormed((fs + rest)[k]) {
      if k < |fs| {
        assert fs[k] == WriterFrame(b, n, k);
        FrameShape(b, n, k);
      } else {
        assert (fs + rest)[k] == rest[k - |fs|];
      }
    }
  }

  lemma {:induction false} ReadFrom(b: seq<bv8>, n: int, capacity: int, rest: seq<Frame>, k: nat)
    requires 0 < n <= 224 && n <= |b| && n <= capacity && AllWellFormed(rest)
    requires k < FrameCount(n)
    ensures AllWellFormed(WriterFrames(b, n) + rest)
    ensures Reassemble(WriterFrames(b, n) + rest, k, capacity - 7 * k, k, b[..7 * k])
      == Outcome(n, b[..n], FrameCount(n))
    decreases FrameCount(n) - k
  {
    var input := WriterFrames(b, n) + rest;
    WriterFramesWellFormed(b, n, rest);
    assert input[k] == WriterFrame(b, n, k);
    if n - 7 * k <= 7 {
      ReadLast(b, n, capacity, input, k);
    } else {
      ReadNext(b, n, capacity, input, k);
      ReadFrom(b, n, capacity, rest, k + 1);
    }
  }

  /** Writer frame `k`, the last one, completes the read with all `n` bytes. */
  lemma ReadLast(b: seq<bv8>, n: int, capacity: int, input: seq<Frame>, k: nat)
    requires 0 < n <= 224 && n <= |b| && n <= capacity && k < FrameCount(n) && n - 7 * k <= 7
    requires AllWellFormed(input) && k < |input| && input[k] == WriterFrame(b, n, k)
    ensures Reassemble(input, k, capacity - 7 * k, k, b[..7 * k]) == Outcome(n, b[..n], FrameCount(n))
  {
    WriterFrameReads(b, n, capacity, k);
    PrefixSplit(b, 7 * k, n);
    AcceptFinal(input, k, capacity - 7 * k, k, b[..7 * k]);
  }

  /** Writer frame `k`, a full one, is accepted and adds the next 7 bytes. */
  lemma ReadNext(b: seq<bv8>, n: int, capacity: int, input: seq<Frame>, k: nat)
    requires 0 < n <= 224 && n <= |b| && n <= capacity && k < FrameCount(n) && n - 7 * k > 7
    requires AllWellFormed(input) && k < |input| && input[k] == WriterFrame(b, n, k)
    ensures Reassemble(input, k, capacity - 7 * k, k, b[..7 * k])
      == Reassemble(input, k + 1, capacity - 7 * (k + 1), k + 1, b[..7 * (k + 1)])
  {
    WriterFrameReads(b, n, capacity, k);
    PrefixSplit(b, 7 * k, 7 * k + 7);
    AcceptNext(input, k, capacity - 7 * k, k, b[..7 * k]);
  }

  /** What the reader sees in writer frame `k` when `7 k` bytes are already in. */
  lemma WriterFrameReads(b: seq<bv8>, n: int, capacity: int, k: nat)
    requires 0 < n <= 224 && n <= |b| && n <= capacity && k < FrameCount(n)
    ensures (n - 7 * k <= 7) == (k + 1 == FrameCount(n))
    ensures SizeOk(WriterFrame(b, n, k), capacity - 7 * k) && capacity - 7 * k > 0
    ensures n - 7 * k <= 7 ==>
      SeqField(WriterFrame(b, n, k)) == 31 && WriterFrame(b, n, k).dlc - 1 == n - 7 * k &&
      Payload(WriterFrame(b, n, k)) == b[7 * k .. n]
    ensures n - 7 * k > 7 ==>
      SeqField(WriterFrame(b, n, k)) == k && k != 31 && WriterFrame(b, n, k).dlc - 1 == 7 &&
      Payload(WriterFrame(b, n, k)) == b[7 * k .. 7 * k + 7]
  {
    FrameShape(b, n, k);
    if n - 7 * k <= 7 {
      FinalFrame(b, n, k);
    } else {
      FullFrame(b, n, k);
    }
  }
}
