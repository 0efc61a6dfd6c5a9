/** The transmitter of CanRxTx/CanTx.c: a leading control frame `0xF<count>`
    announces how many data frames `0xC<seq>` follow, each carrying up to 7
    bytes of the message. The program sends a fixed 46-byte string; the model
    sends any byte sequence. */
module CanTx {
  import opened CanFrame

  /** `client_id`, the identifier of every frame. */
  const ClientId: bv32 := 0x92e80200
  /** `AJ_CONTROL_FRAME`, `AJ_DATA_FRAME`, `AJ_ERROR_FRAME`: frame types in the high nibble. */
  const ControlType: bv8 := 0xF
  const DataType: bv8 := 0xC
  const ErrorType: bv8 := 0x7

  /** Number of data frames for an `n`-byte message: one per started block
      of 7 bytes. */
  function SeriesLength(n: nat): nat
  {
    if n == 0 then 0 else if n <= 7 then 1 else 1 + SeriesLength(n - 7)
  }

  /** The program computes the count as `n / 7`, plus one when `n % 7` is
      not 0: the same number. */
  lemma {:induction false} SeriesLengthByDivision(n: nat)
    ensures SeriesLength(n) == if n % 7 != 0 then n / 7 + 1 else n / 7
  {
    if n > 7 {
      SeriesLengthByDivision(n - 7);
      assert (n - 7) / 7 == n / 7 - 1 && (n - 7) % 7 == n % 7;
    }
  }

  /** `(type << 4) | v` stored into the 8-bit data byte: only the low 8 bits
      of `v` survive, and a `v` above 15 spills into the type nibble. */
  function TypeByte(t: bv8, v: nat): bv8
  {
    (t << 4) | ((v % 256) as bv8)
  }

  /** The control frame announcing `SeriesLength(n)` data frames. */
  function ControlFrame(n: nat): Frame
  {
    Frame(ClientId, 1, [TypeByte(ControlType, SeriesLength(n))])
  }

  /** Data frame `iter`: bytes `7 iter ..` of the message, 7 of them except in
      a partial last frame. */
  function DataFrame(source: seq<bv8>, iter: nat): Frame
    requires iter < SeriesLength(|source|)
  {
    var size := FrameSize(|source|, iter);
    FrameBounds(|source|, iter);
    Frame(ClientId, size + 1, [TypeByte(DataType, iter)] + source[7 * iter .. 7 * iter + size])
  }

  /** Bytes in data frame `iter`: what is left in the last frame, else 7. */
  function FrameSize(n: nat, iter: nat): int
    requires iter < SeriesLength(n)
  {
    if iter + 1 == SeriesLength(n) then n - 7 * iter else 7
  }

  /** Where frame `iter` sits in an `n`-byte message. */
  lemma {:induction false} FrameBounds(n: nat, iter: nat)
    requires iter < SeriesLength(n)
    ensures 1 <= FrameSize(n, iter) <= 7
    ensures iter + 1 < SeriesLength(n) ==> 7 * iter + 7 < n
    ensures iter + 1 == SeriesLength(n) ==> 7 * iter + FrameSize(n, iter) == n
  {
    if iter > 0 {
      FrameBounds(n - 7, iter - 1);
    }
  }

  function DataFrames(source: seq<bv8>): (fs: seq<Frame>)
    ensures |fs| == SeriesLength(|source|)
  {
    seq(SeriesLength(|source|), iter requires 0 <= iter < SeriesLength(|source|) => DataFrame(source, iter))
  }

  /** The body of `main` after the socket is set up: the frames written, in
      order, and the contents of `cutTest`, which receives a copy of every
      byte sent. */
  method Transmit(source: seq<bv8>) returns (sent: seq<Frame>, cutTest: seq<bv8>)
    ensures sent == [ControlFrame(|source|)] + DataFrames(source)
    ensures cutTest == source
  {
    var n := |source|;
    var count: nat;
    var lastFrameDataNumber := n % 7;
    if lastFrameDataNumber != 0 {
      count := n / 7 + 1;
    } else {
      count := n / 7;
    }
    SeriesLengthByDivision(n);
    var control := Frame(ClientId, 1, [TypeByte(ControlType, count)]);
    sent := [control];
    var cut := new bv8[n];
    ghost var all := DataFrames(source);
    var iter := 0;
    var offset := 0;
    ghost var copied := 0;
    while iter < count
      invariant 0 <= iter <= count && offset == 7 * iter
      invariant sent == [control] + all[..iter]
      invariant copied == Sent(n, iter) <= n
      invariant forall j :: 0 <= j < copied ==> cut[j] == source[j]
    {
      var frame, bytesToCopy := NextDataFrame(source, iter, count, lastFrameDataNumber);
      assert frame == all[iter];
      CopyInto(cut, offset, source, bytesToCopy);
      copied := offset + bytesToCopy;
      offset := offset + 7;
      assert all[..iter + 1] == all[..iter] + [frame];
      sent := sent + [frame];
      iter := iter + 1;
    }
    assert all[..iter] == all;
    assert cut[..] == source;
    cutTest := cut[..];
  }

  /** One turn of the loop: data frame `iter` and the number of bytes it
      copies. */
  method NextDataFrame(source: seq<bv8>, iter: nat, count: nat, lastFrameDataNumber: nat)
    returns (frame: Frame, bytesToCopy: nat)
    requires count == SeriesLength(|source|) && iter < count && lastFrameDataNumber == |source| % 7
    ensures frame == DataFrame(source, iter) && bytesToCopy == frame.dlc - 1
    ensures Sent(|source|, iter) == 7 * iter && Sent(|source|, iter + 1) == 7 * iter + bytesToCopy <= |source|
  {
    var dlc;
    FrameBounds(|source|, iter);
    if iter + 1 == count {
      LastFrameSize(|source|, iter);
    }
    if iter + 1 == count && lastFrameDataNumber != 0 {
      dlc, bytesToCopy := lastFrameDataNumber + 1, lastFrameDataNumber;
    } else {
      dlc, bytesToCopy := 8, 7;
    }
    FrameBounds(|source|, iter);
    frame := Frame(ClientId, dlc, [TypeByte(DataType, iter)] + source[7 * iter .. 7 * iter + bytesToCopy]);
  }

  /** The last frame carries `n % 7` bytes, or 7 when 7 divides `n`. */
  lemma LastFrameSize(n: nat, iter: nat)
    requires iter + 1 == SeriesLength(n)
    ensures FrameSize(n, iter) == if n % 7 != 0 then n % 7 else 7
  {
    FrameBounds(n, iter);
    assert n == 7 * iter + FrameSize(n, iter);
    assert (7 * iter + FrameSize(n, iter)) % 7 == FrameSize(n, iter) % 7;
  }

  /** Bytes carried by the first `k` data frames. */
  function Sent(n: nat, k: nat): nat
  {
    if k == SeriesLength(n) then n else 7 * k
  }

  /** `memcpy(cut + offset, source + offset, size)`; other bytes are kept. */
  method CopyInto(cut: array<bv8>, offset: nat, source: seq<bv8>, size: nat)
    requires offset + size <= cut.Length && offset + size <= |source|
    modifies cut
    ensures forall j :: 0 <= j < cut.Length ==>
      cut[j] == if offset <= j < offset + size then source[j] else old(cut[j])
  {
    var k := 0;
    while k < size
      invariant 0 <= k <= size
      invariant forall j :: 0 <= j < cut.Length ==>
        cut[j] == if offset <= j < offset + k then source[j] else old(cut[j])
    {
      cut[offset + k] := source[offset + k];
      k := k + 1;
    }
  }

  /** The frame count is ceil(n / 7): the frames hold all `n` bytes and the
      last one is not empty. */
  lemma {:induction false} SeriesLengthIsCeiling(n: nat)
    ensures 7 * SeriesLength(n) >= n
    ensures n > 0 ==> 7 * (SeriesLength(n) - 1) < n
    ensures n == 0 <==> SeriesLength(n) == 0
  {
    if n > 7 {
      SeriesLengthIsCeiling(n - 7);
    }
  }

  /** The control frame has dlc 1; while the count fits a nibble (n <= 105)
      its high nibble is the control type and its low nibble the count. */
  lemma ControlFrameShape(n: nat)
    requires n <= 105
    ensures var f := ControlFrame(n);
      WellFormed(f) && f.canId == ClientId && f.dlc == 1 &&
      Control(f) >> 4 == ControlType && (Control(f) & 0xF) as int == SeriesLength(n)
  {
    var c := SeriesLength(n);
    SeriesLengthIsCeiling(n);
    NibblePack(ControlType, c);
  }

  /** Above 105 bytes the count no longer fits: 16 frames announce themselves
      as a control frame for 0 frames. */
  lemma CountOverflow()
    ensures SeriesLength(106) == 16 && Control(ControlFrame(106)) == 0xF0
  {
    assert SeriesLength(106) == 16 by {
      SeriesLengthIsCeiling(106);
    }
    assert TypeByte(ControlType, 16) == 0xF0 by {
      assert (16 % 256) as bv8 == 0x10;
    }
  }

  lemma NibblePack(t: bv8, v: nat)
    requires t < 16 && v < 16
    ensures TypeByte(t, v) >> 4 == t && (TypeByte(t, v) & 0xF) as int == v
  {
    var b := (v % 256) as bv8;
    assert b < 16;
    assert ((t << 4) | b) >> 4 == t && ((t << 4) | b) & 0xF == b by {
      NibbleFields(t, b);
    }
  }

  lemma NibbleFields(t: bv8, b: bv8)
    requires t < 16 && b < 16
    ensures ((t << 4) | b) >> 4 == t && ((t << 4) | b) & 0xF == b
  {
  }

  /** Data frame `iter` has dlc 8 and 7 bytes, except the last, which has
      what remains (`LastFrameSize`), and carries the message bytes from
      offset `7 iter`. */
  lemma DataFrameShape(source: seq<bv8>, iter: nat)
    requires iter < SeriesLength(|source|)
    ensures WellFormed(DataFrame(source, iter)) && DataFrame(source, iter).canId == ClientId
    ensures DataFrame(source, iter).dlc == FrameSize(|source|, iter) + 1 >= 2
    ensures iter + 1 < SeriesLength(|source|) ==> DataFrame(source, iter).dlc == 8
    ensures 7 * iter + DataFrame(source, iter).dlc - 1 <= |source|
    ensures Payload(DataFrame(source, iter)) ==
      source[7 * iter .. 7 * iter + DataFrame(source, iter).dlc - 1]
  {
    DataFrameSize(source, iter);
    DataFramePayload(source, iter);
  }

  /** Within 16 frames, data frame `iter` has the data type in its high nibble
      and `iter` in its low nibble. */
  lemma DataFrameNibbles(source: seq<bv8>, iter: nat)
    requires iter < SeriesLength(|source|) && iter < 16
    ensures Control(DataFrame(source, iter)) >> 4 == DataType
    ensures (Control(DataFrame(source, iter)) & 0xF) as int == iter
  {
    DataFrameControl(source, iter);
    NibblePack(DataType, iter);
  }

  /** Data frame `iter` is well formed and has dlc `FrameSize + 1`. */
  lemma DataFrameSize(source: seq<bv8>, iter: nat)
    requires iter < SeriesLength(|source|)
    ensures WellFormed(DataFrame(source, iter)) && DataFrame(source, iter).canId == ClientId
    ensures DataFrame(source, iter).dlc == FrameSize(|source|, iter) + 1
  {
    FrameBounds(|source|, iter);
  }

  /** The first byte of data frame `iter` is the data type and `iter`. */
  lemma DataFrameControl(source: seq<bv8>, iter: nat)
    requires iter < SeriesLength(|source|)
    ensures Control(DataFrame(source, iter)) == TypeByte(DataType, iter)
  {
    FrameBounds(|source|, iter);
  }

  /** Data frame `iter` carries `FrameSize` bytes from offset `7 iter`. */
  lemma DataFramePayload(source: seq<bv8>, iter: nat)
    requires iter < SeriesLength(|source|)
    ensures 1 <= FrameSize(|source|, iter) && 7 * iter + FrameSize(|source|, iter) <= |source|
    ensures Payload(DataFrame(source, iter)) == source[7 * iter .. 7 * iter + FrameSize(|source|, iter)]
  {
    FrameBounds(|source|, iter);
  }

  /** The data frames carry the whole message, in order. */
  lemma {:induction false} PayloadsAreSource(source: seq<bv8>)
    ensures Payloads(DataFrames(source)) == source
  {
    var fs := DataFrames(source);
    PayloadsUpTo(source, |fs|);
    assert fs[..|fs|] == fs;
  }

  lemma {:induction false} PayloadsUpTo(source: seq<bv8>, k: nat)
    requires k <= SeriesLength(|source|)
    ensures Sent(|source|, k) <= |source|
    ensures Payloads(DataFrames(source)[..k]) == source[..Sent(|source|, k)]
  {
    var n := |source|;
    var fs := DataFrames(source);
    if k > 0 {
      PayloadsUpTo(source, k - 1);
      var f := fs[k - 1];
      assert f == DataFrame(source, k - 1);
      assert Sent(n, k - 1) == 7 * (k - 1) && Sent(n, k) == 7 * (k - 1) + FrameSize(n, k - 1) by {
        FrameBounds(n, k - 1);
      }
      assert Payloads(fs[..k]) == Payloads(fs[..k - 1]) + Payload(f) by {
        TakeLast(fs, k);
        PayloadsAppend(fs[..k - 1], [f]);
        PayloadsOne(f);
      }
      assert Payload(f) == source[7 * (k - 1) .. Sent(n, k)] by {
        DataFramePayload(source, k - 1);
      }
      PrefixSplit(source, 7 * (k - 1), Sent(n, k));
    } else {
      assert fs[..0] == [];
    }
  }
}
