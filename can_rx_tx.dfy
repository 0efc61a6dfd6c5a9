/** The two programs of CanRxTx together: what CanRx.c receives and lays out
    when its input is what CanTx.c sends. */
module CanRxTx {
  import opened CanFrame
  import CanTx
  import opened CanRx

  lemma HighNibble(c: bv8)
    ensures (c & 0xF0) >> 4 == c >> 4
  {
  }

  /** Up to 70 bytes, the transmitter's control frame starts a series whose
      count is the number of data frames and fits the receiver's buffer. */
  lemma ControlStarts(n: nat)
    requires n <= 7 * BufferSlots
    ensures IsStart(CanTx.ControlFrame(n))
    ensures Nibble(CanTx.ControlFrame(n)) == CanTx.SeriesLength(n) <= BufferSlots
  {
    CanTx.ControlFrameShape(n);
    CanTx.SeriesLengthIsCeiling(n);
    HighNibble(Control(CanTx.ControlFrame(n)));
  }

  /** Data frame `iter` is accepted as frame `iter` of a series and is not a
      control frame. */
  lemma DataAccepted(source: seq<bv8>, iter: nat)
    requires iter < CanTx.SeriesLength(|source|) && iter < 16
    ensures Accepts(CanTx.DataFrame(source, iter), iter) && !IsStart(CanTx.DataFrame(source, iter))
  {
    CanTx.DataFrameNibbles(source, iter);
    HighNibble(Control(CanTx.DataFrame(source, iter)));
  }

  /** The data frames, wherever they appear in the input, are read in order. */
  lemma DataInOrder(source: seq<bv8>, input: seq<Frame>, pos: nat)
    requires CanTx.SeriesLength(|source|) < 16
    requires pos + CanTx.SeriesLength(|source|) <= |input|
    requires input[pos .. pos + CanTx.SeriesLength(|source|)] == CanTx.DataFrames(source)
    ensures ReadInOrder(input, pos, 0, CanTx.DataFrames(source))
  {
    DataFramesAccepted(source);
  }

  /** Data frame `k` carries index `k`, for a series of fewer than 16 frames. */
  lemma DataFramesAccepted(source: seq<bv8>)
    requires CanTx.SeriesLength(|source|) < 16
    ensures forall k :: 0 <= k < |CanTx.DataFrames(source)| ==> Accepts(CanTx.DataFrames(source)[k], k)
  {
    var fs := CanTx.DataFrames(source);
    forall k | 0 <= k < |fs| ensures Accepts(fs[k], k) {
      assert fs[k] == CanTx.DataFrame(source, k);
      DataAccepted(source, k);
    }
  }

  /** The transmission announces at most 10 frames, so the receiver's
      precondition holds for it followed by any such input. */
  lemma TransmissionFits(source: seq<bv8>, rest: seq<Frame>)
    requires |source| <= 7 * BufferSlots && StartCountsFit(rest)
    ensures StartCountsFit([CanTx.ControlFrame(|source|)] + CanTx.DataFrames(source) + rest)
  {
    var fs := CanTx.DataFrames(source);
    var input := [CanTx.ControlFrame(|source|)] + fs + rest;
    ControlStarts(|source|);
    CanTx.SeriesLengthIsCeiling(|source|);
    forall k | 0 <= k < |input| && IsStart(input[k]) ensures Nibble(input[k]) <= BufferSlots {
      if k == 0 {
        assert input[k] == CanTx.ControlFrame(|source|);
      } else if k <= |fs| {
        assert input[k] == fs[k - 1] == CanTx.DataFrame(source, k - 1);
        DataAccepted(source, k - 1);
      } else {
        assert input[k] == rest[k - 1 - |fs|];
      }
    }
  }

  /** The round trip: after what CanTx.c sends for a message of at most 70
      bytes, `waitAndReceiveSession` returns at once with the data frames in
      the first slots, their number as the count, the ID and SID taken from
      `client_id`, and exactly the transmission read. */
  lemma ReceiveAfterTransmit(source: seq<bv8>, rest: seq<Frame>, s: SessionState)
    requires |source| <= 7 * BufferSlots && |s.frames| == BufferSlots && StartCountsFit(rest)
    ensures CanTx.SeriesLength(|source|) <= BufferSlots
    ensures StartCountsFit([CanTx.ControlFrame(|source|)] + CanTx.DataFrames(source) + rest)
    ensures Wait([CanTx.ControlFrame(|source|)] + CanTx.DataFrames(source) + rest, 0, None, s)
      == Reception(Done,
           SessionState(0x4BA, 0x200, Store(s.frames, CanTx.DataFrames(source)), CanTx.SeriesLength(|source|)),
           1 + CanTx.SeriesLength(|source|))
  {
    var fs := CanTx.DataFrames(source);
    var input := [CanTx.ControlFrame(|source|)] + fs + rest;
    TransmissionFits(source, rest);
    ControlStarts(|source|);
    assert input[0] == CanTx.ControlFrame(|source|);
    assert input[1 .. 1 + |fs|] == fs;
    DataInOrder(source, input, 1);
    SeriesOfRun(input, 1, fs, 0);
    assert fs[0..] == fs;
    StartsSeries(input, 0, s);
    assert IdOf(CanTx.ClientId) == 0x4BA && SidOf(CanTx.ClientId) == 0x200;
  }

  /** Up to 21 bytes, the received frames fit `buf` and the reassembly loop of
      `main` lays their payloads back into the message. */
  lemma ReassemblesSource(source: seq<bv8>, b: seq<bv8>)
    requires |source| <= BufSize && |b| == BufSize
    ensures Fits(CanTx.DataFrames(source), |b|)
    ensures Layout(b, CanTx.DataFrames(source), 0)[..|source|] == source
  {
    DataFramesFit(source, |b|);
    LayoutFrom(source, b, 0);
    CanTx.SeriesLengthIsCeiling(|source|);
    assert CanTx.Sent(|source|, 0) == 0;
  }

  /** Data frame `k` of an `n`-byte message placed at `7 k` ends by byte `n`. */
  lemma DataFramesFit(source: seq<bv8>, cap: int)
    requires |source| <= cap
    ensures Fits(CanTx.DataFrames(source), cap)
  {
    var fs := CanTx.DataFrames(source);
    forall i | 0 <= i < |fs| ensures WellFormed(fs[i]) && 1 <= fs[i].dlc && 7 * i + fs[i].dlc - 1 <= cap {
      assert fs[i] == CanTx.DataFrame(source, i);
      CanTx.DataFrameShape(source, i);
    }
  }

  /** After frames `i..` have been copied, `b` is kept below the bytes of the
      first `i` frames and the message fills the rest up to its length. */
  lemma {:induction false} LayoutFrom(source: seq<bv8>, b: seq<bv8>, i: nat)
    requires |source| <= |b| && Fits(CanTx.DataFrames(source), |b|) && i <= CanTx.SeriesLength(|source|)
    ensures CanTx.Sent(|source|, i) <= |source|
    ensures forall j :: 0 <= j < CanTx.Sent(|source|, i) ==> Layout(b, CanTx.DataFrames(source), i)[j] == b[j]
    ensures forall j :: CanTx.Sent(|source|, i) <= j < |source| ==>
      Layout(b, CanTx.DataFrames(source), i)[j] == source[j]
    decreases CanTx.SeriesLength(|source|) - i
  {
    var n := |source|;
    var fs := CanTx.DataFrames(source);
    if i < |fs| {
      var p := fs[i].data[1..];
      var b' := Overwrite(b, 7 * i, p);
      assert fs[i] == CanTx.DataFrame(source, i);
      assert p == source[7 * i .. CanTx.Sent(n, i + 1)] && CanTx.Sent(n, i) == 7 * i by {
        CanTx.DataFramePayload(source, i);
        CanTx.FrameBounds(n, i);
      }
      LayoutStep(b, fs, i);
      LayoutFrom(source, b', i + 1);
      Underneath(b, Layout(b', fs, i + 1), source, 7 * i, CanTx.Sent(n, i + 1), n);
    } else {
      CanTx.SeriesLengthIsCeiling(n);
    }
  }

  /** If `l` agrees with `b` after `src[lo..mid]` was written over it, below
      `mid`, and with `src` from `mid` to `n`, then it agrees with `b` below
      `lo` and with `src` from `lo` to `n`. */
  lemma Underneath(b: seq<bv8>, l: seq<bv8>, src: seq<bv8>, lo: nat, mid: nat, n: nat)
    requires lo <= mid <= n <= |src| && n <= |b| == |l|
    requires forall j :: 0 <= j < mid ==> l[j] == Overwrite(b, lo, src[lo..mid])[j]
    requires forall j :: mid <= j < n ==> l[j] == src[j]
    ensures forall j :: 0 <= j < lo ==> l[j] == b[j]
    ensures forall j :: lo <= j < n ==> l[j] == src[j]
  {
    forall j | 0 <= j < mid ensures l[j] == if lo <= j then src[j] else b[j] {
      OverwriteAt(b, lo, src[lo..mid], j);
    }
  }

  /** The 46-byte message CanTx.c sends takes 7 frames, and `buf` cannot hold
      them: frame 3 would end at byte 28 of 21. */
  lemma MessageOverflowsBuf(source: seq<bv8>)
    requires |source| == 46
    ensures CanTx.SeriesLength(|source|) == 7
    ensures !Fits(CanTx.DataFrames(source), BufSize)
  {
    CanTx.SeriesLengthIsCeiling(46);
    var fs := CanTx.DataFrames(source);
    assert fs[3] == CanTx.DataFrame(source, 3);
    CanTx.DataFrameShape(source, 3);
  }
}
