/** The receiver of CanRxTx/CanRx.c: it waits for a control frame `0xF<count>`,
    collects the `count` data frames that follow into a session, and finally
    lays their payloads out side by side, 7 bytes apart, in a 21-byte buffer. */
module CanRx {
  import opened CanFrame
  import CanTx

  /** `AJ_CONTROL_FRAME`, `AJ_ERROR_FRAME`: frame types in the high nibble. */
  const ControlType: bv8 := 0xF
  const ErrorType: bv8 := 0x7
  /** Slots in `struct Session`'s `buffer`. */
  const BufferSlots := 10
  /** Size of the reassembly buffer `buf` in `main`. */
  const BufSize := 21

  /** The frame type: the high nibble of data byte 0. */
  function FrameType(f: Frame): bv8
  {
    (Control(f) & 0xF0) >> 4
  }

  /** The low nibble of data byte 0: the count of a control frame, the
      sequence number of a data frame. */
  function Nibble(f: Frame): int
  {
    (Control(f) & 0xF) as int
  }

  predicate IsStart(f: Frame)
  {
    FrameType(f) == ControlType
  }

  /** Bits 18-28 of the identifier: the client's tag. */
  function IdOf(canId: bv32): bv32
  {
    (canId & (0x7FF << 18)) >> 18
  }

  /** Bits 0-17 of the identifier: the session. */
  function SidOf(canId: bv32): bv32
  {
    canId & 0x3FFFF
  }

  /** Every control frame announces at most as many frames as `buffer` holds. */
  predicate StartCountsFit(input: seq<Frame>)
  {
    forall k :: 0 <= k < |input| && IsStart(input[k]) ==> Nibble(input[k]) <= BufferSlots
  }

  /** The results of `getSeries` (`AJ_SERIES_SUCCESS`, `AJ_SERIES_FAILURE`,
      `AJ_SERIES_RESTART`), plus `Blocked`: the input ended while `read` waits. */
  datatype SeriesResult = Success | Failure | Restart | Blocked

  /** The C return code of a result that has one. */
  function Code(r: SeriesResult): int
    requires r != Blocked
  {
    match r
    case Success => 0xFF
    case Failure => 0x0
    case Restart => 0xfb
  }

  /** What `getSeries` did: its result, the frames it stored (from slot 0), and
      where reading stopped. */
  datatype Series = Series(result: SeriesResult, accepted: seq<Frame>, next: nat)

  /** Data frame `i` of a series is accepted: its sequence nibble is `i` and it
      is neither an error frame nor a new control frame. */
  predicate Accepts(f: Frame, i: int)
  {
    Nibble(f) == i && FrameType(f) != ErrorType && FrameType(f) != ControlType
  }

  /** `getSeries` from the point where frames `input[..pos]` have been read and
      `i` of the `count` frames accepted. */
  function SeriesFrom(input: seq<Frame>, pos: nat, count: int, i: nat): (r: Series)
    requires pos <= |input|
    ensures pos <= r.next <= |input|
    ensures r.accepted == [] || i + |r.accepted| <= count
    ensures r.result == Restart ==> pos < r.next
    decreases |input| - pos
  {
    if i >= count then Series(Success, [], pos)
    else if pos == |input| then Series(Blocked, [], pos)
    else
      var f := input[pos];
      if Verdict(f, i) != Success then Series(Verdict(f, i), [], pos + 1)
      else
        var r := SeriesFrom(input, pos + 1, count, i + 1);
        Series(r.result, [f] + r.accepted, r.next)
  }

  /** The checks `getSeries` makes on frame `i`, in order: a wrong sequence
      nibble or an error frame fails the series, a new control frame restarts
      it, anything else is stored (`Success`). */
  function Verdict(f: Frame, i: int): (v: SeriesResult)
    ensures v == Success <==> Accepts(f, i)
    ensures v != Blocked
  {
    if Nibble(f) != i then Failure
    else if FrameType(f) == ErrorType then Failure
    else if FrameType(f) == ControlType then Restart
    else Success
  }

  /** `frames` are the frames read from `pos` on, and frame `k` of them carries
      index `i + k`. */
  predicate ReadInOrder(input: seq<Frame>, pos: nat, i: nat, frames: seq<Frame>)
  {
    pos + |frames| <= |input| && frames == input[pos .. pos + |frames|] &&
    forall k :: 0 <= k < |frames| ==> Accepts(frames[k], i + k)
  }

  /** The frames a series stores are the frames it read, in order, each with
      its own index in the sequence nibble. */
  lemma {:induction false} SeriesStores(input: seq<Frame>, pos: nat, count: int, i: nat)
    requires pos <= |input|
    ensures ReadInOrder(input, pos, i, SeriesFrom(input, pos, count, i).accepted)
    decreases |input| - pos
  {
    if i < count && pos < |input| && Accepts(input[pos], i) {
      SeriesStores(input, pos + 1, count, i + 1);
      ReadOneMore(input, pos, i, SeriesFrom(input, pos + 1, count, i + 1).accepted);
    }
  }

  lemma ReadOneMore(input: seq<Frame>, pos: nat, i: nat, frames: seq<Frame>)
    requires pos < |input| && Accepts(input[pos], i) && ReadInOrder(input, pos + 1, i + 1, frames)
    ensures ReadInOrder(input, pos, i, [input[pos]] + frames)
  {
    assert [input[pos]] + input[pos + 1 .. pos + 1 + |frames|] == input[pos .. pos + 1 + |frames|];
    forall k | 0 <= k < |frames| + 1 ensures Accepts(([input[pos]] + frames)[k], i + k) {
      if k > 0 {
        assert ([input[pos]] + frames)[k] == frames[k - 1];
      }
    }
  }

  /** A series succeeds exactly when it has stored all `count` frames and read
      nothing else. */
  lemma {:induction false} SeriesSucceeds(input: seq<Frame>, pos: nat, count: int, i: nat)
    requires pos <= |input|
    ensures SeriesFrom(input, pos, count, i).result == Success <==>
      i + |SeriesFrom(input, pos, count, i).accepted| >= count &&
      SeriesFrom(input, pos, count, i).next == pos + |SeriesFrom(input, pos, count, i).accepted|
    decreases |input| - pos
  {
    if i < count && pos < |input| && Accepts(input[pos], i) {
      SeriesSucceeds(input, pos + 1, count, i + 1);
    }
  }

  /** A series that fails or restarts stopped at the frame it read last, the
      one after the frames it stored, and that frame's verdict is the result;
      a blocked series read all the input. */
  lemma {:induction false} SeriesStops(input: seq<Frame>, pos: nat, count: int, i: nat)
    requires pos <= |input|
    ensures SeriesFrom(input, pos, count, i).result in {Failure, Restart} ==>
      SeriesFrom(input, pos, count, i).next == pos + |SeriesFrom(input, pos, count, i).accepted| + 1 &&
      Verdict(input[SeriesFrom(input, pos, count, i).next - 1], i + |SeriesFrom(input, pos, count, i).accepted|)
        == SeriesFrom(input, pos, count, i).result
    ensures SeriesFrom(input, pos, count, i).result == Blocked ==> SeriesFrom(input, pos, count, i).next == |input|
    decreases |input| - pos
  {
    if i < count && pos < |input| && Accepts(input[pos], i) {
      SeriesStops(input, pos + 1, count, i + 1);
    }
  }

  /** Conversely, `count` frames read in order, each carrying its own index,
      make a series that succeeds and stores exactly them; with `count` 0 the
      series succeeds at once. */
  lemma {:induction false} SeriesOfRun(input: seq<Frame>, pos: nat, frames: seq<Frame>, i: nat)
    requires ReadInOrder(input, pos, 0, frames) && i <= |frames|
    ensures SeriesFrom(input, pos + i, |frames|, i) == Series(Success, frames[i..], pos + |frames|)
    decreases |frames| - i
  {
    if i < |frames| {
      SeriesOfRun(input, pos, frames, i + 1);
      assert input[pos + i] == frames[i] && Accepts(frames[i], i);
      assert frames[i..] == [frames[i]] + frames[i + 1..];
    }
  }

  /** The ID is 11 bits and the SID 18 bits, and together they give back the
      29-bit identifier without the flag bits. */
  lemma IdSid(canId: bv32)
    ensures IdOf(canId) < 0x800 && SidOf(canId) < 0x40000
    ensures (IdOf(canId) << 18) | SidOf(canId) == canId & 0x1FFF_FFFF
  {
  }

  /** `r` with the frames `acc` stored before it. */
  function Prepend(acc: seq<Frame>, r: Series): Series
  {
    Series(r.result, acc + r.accepted, r.next)
  }

  /** Accepting frame `i` moves it from the rest of the series to the frames
      already stored. */
  lemma SeriesStep(input: seq<Frame>, pos: nat, count: int, i: nat, acc: seq<Frame>)
    requires pos < |input| && i < count && Accepts(input[pos], i)
    ensures Prepend(acc, SeriesFrom(input, pos, count, i)) ==
      Prepend(acc + [input[pos]], SeriesFrom(input, pos + 1, count, i + 1))
  {
    var r := SeriesFrom(input, pos + 1, count, i + 1);
    assert acc + ([input[pos]] + r.accepted) == acc + [input[pos]] + r.accepted;
  }

  /** `buf` after `acc` has been written to its first slots. */
  function Store(buf: seq<Frame>, acc: seq<Frame>): (b: seq<Frame>)
    requires |acc| <= |buf|
    ensures |b| == |buf|
  {
    acc + buf[|acc|..]
  }

  lemma StoreNext(buf: seq<Frame>, acc: seq<Frame>, f: Frame)
    requires |acc| < |buf|
    ensures Store(buf, acc)[|acc| := f] == Store(buf, acc + [f])
  {
    assert Store(buf, acc)[|acc| := f] == acc + [f] + buf[|acc| + 1..];
  }

  /** The fields of `struct Session` as values. */
  datatype SessionState = SessionState(id: bv32, sid: bv32, frames: seq<Frame>, numberOfFrames: int)

  /** How `waitAndReceiveSession` ends: `Done` returns, `Failed` is the
      `exit(1)` on a failed series, `Stuck` is a `read` waiting for input that
      never comes. */
  datatype Ending = Done | Failed | Stuck

  datatype Reception = Reception(ending: Ending, state: SessionState, next: nat)

  /** `waitAndReceiveSession` from the point where `input[..pos]` has been
      read. `replay` is the control frame the loop processes again, without
      reading, after a series was interrupted by a new control frame. */
  function Wait(input: seq<Frame>, pos: nat, replay: Option<Frame>, s: SessionState): (r: Reception)
    requires pos <= |input| && |s.frames| == BufferSlots && StartCountsFit(input)
    requires replay.Some? ==> IsStart(replay.value) && Nibble(replay.value) <= BufferSlots
    ensures pos <= r.next <= |input| && |r.state.frames| == |s.frames|
    decreases |input| - pos
  {
    if replay.None? && pos == |input| then Reception(Stuck, s, pos)
    else
      var f := if replay.Some? then replay.value else input[pos];
      var p := if replay.Some? then pos else pos + 1;
      if !IsStart(f) then Wait(input, p, None, s)
      else
        var count := Nibble(f);
        var r := SeriesFrom(input, p, count, 0);
        var s' := Begin(f, s.frames, r.accepted);
        match r.result
        case Restart => Wait(input, r.next, Some(f), s')
        case Success => Reception(Done, s', r.next)
        case Failure => Reception(Failed, s', r.next)
        case Blocked => Reception(Stuck, s', r.next)
  }

  /** The session a control frame `f` sets up: ID and SID from its
      identifier, the count from its low nibble, and the frames its series
      stored over the old `frames`. */
  function Begin(f: Frame, frames: seq<Frame>, accepted: seq<Frame>): SessionState
    requires |accepted| <= |frames|
  {
    SessionState(IdOf(f.canId), SidOf(f.canId), Store(frames, accepted), Nibble(f))
  }

  /** A frame that is not a control frame is read and dropped; nothing else
      changes. */
  lemma SkipsOther(input: seq<Frame>, pos: nat, s: SessionState)
    requires pos < |input| && |s.frames| == BufferSlots && StartCountsFit(input) && !IsStart(input[pos])
    ensures Wait(input, pos, None, s) == Wait(input, pos + 1, None, s)
  {
  }

  /** A control frame whose series succeeds ends the wait with the session it
      set up. */
  lemma StartsSeries(input: seq<Frame>, pos: nat, s: SessionState)
    requires pos < |input| && |s.frames| == BufferSlots && StartCountsFit(input) && IsStart(input[pos])
    requires SeriesFrom(input, pos + 1, Nibble(input[pos]), 0).result == Success
    ensures Wait(input, pos, None, s) == Reception(Done,
      Begin(input[pos], s.frames, SeriesFrom(input, pos + 1, Nibble(input[pos]), 0).accepted),
      SeriesFrom(input, pos + 1, Nibble(input[pos]), 0).next)
  {
  }

  /** A control frame that interrupts a series is consumed, and the series
      starts over from the earlier control frame: the count, ID and SID of
      the interrupting frame are never used. */
  lemma RestartReplays(input: seq<Frame>, pos: nat, s: SessionState)
    requires pos < |input| && |s.frames| == BufferSlots && StartCountsFit(input) && IsStart(input[pos])
    requires SeriesFrom(input, pos + 1, Nibble(input[pos]), 0).result == Restart
    ensures IsStart(input[SeriesFrom(input, pos + 1, Nibble(input[pos]), 0).next - 1])
    ensures Wait(input, pos, None, s) == Wait(input, SeriesFrom(input, pos + 1, Nibble(input[pos]), 0).next,
      Some(input[pos]), Begin(input[pos], s.frames, SeriesFrom(input, pos + 1, Nibble(input[pos]), 0).accepted))
  {
    SeriesStops(input, pos + 1, Nibble(input[pos]), 0);
  }

  /** A received session holds the last `numberOfFrames` frames read, in
      order, each carrying its own index, and fits the buffer. */
  predicate HoldsSeries(input: seq<Frame>, r: Reception)
  {
    0 <= r.state.numberOfFrames <= r.next <= |input| && r.state.numberOfFrames <= |r.state.frames| &&
    r.state.frames[..r.state.numberOfFrames] == input[r.next - r.state.numberOfFrames .. r.next] &&
    forall k :: 0 <= k < r.state.numberOfFrames ==> Accepts(r.state.frames[k], k)
  }

  /** Whenever `waitAndReceiveSession` returns, the session holds a whole
      series. */
  lemma {:induction false} WaitDone(input: seq<Frame>, pos: nat, replay: Option<Frame>, s: SessionState)
    requires pos <= |input| && |s.frames| == BufferSlots && StartCountsFit(input)
    requires replay.Some? ==> IsStart(replay.value) && Nibble(replay.value) <= BufferSlots
    ensures Wait(input, pos, replay, s).ending == Done ==> HoldsSeries(input, Wait(input, pos, replay, s))
    decreases |input| - pos
  {
    if replay.Some? || pos < |input| {
      var f := if replay.Some? then replay.value else input[pos];
      var p := if replay.Some? then pos else pos + 1;
      if !IsStart(f) {
        WaitDone(input, p, None, s);
      } else {
        var r := SeriesFrom(input, p, Nibble(f), 0);
        if r.result == Restart {
          WaitDone(input, r.next, Some(f), Begin(f, s.frames, r.accepted));
        } else if r.result == Success {
          SuccessHolds(input, p, f, s.frames);
        }
      }
    }
  }

  /** The session a control frame sets up when its series succeeds holds
      that series. */
  lemma SuccessHolds(input: seq<Frame>, p: nat, f: Frame, frames: seq<Frame>)
    requires p <= |input| && Nibble(f) <= |frames|
    requires SeriesFrom(input, p, Nibble(f), 0).result == Success
    ensures HoldsSeries(input, Reception(Done,
      Begin(f, frames, SeriesFrom(input, p, Nibble(f), 0).accepted), SeriesFrom(input, p, Nibble(f), 0).next))
  {
    var r := SeriesFrom(input, p, Nibble(f), 0);
    SeriesStores(input, p, Nibble(f), 0);
    SeriesSucceeds(input, p, Nibble(f), 0);
    assert Store(frames, r.accepted)[..Nibble(f)] == r.accepted;
  }

  /** `struct Session`; `src` is never used and is left out. */
  class Session {
    var id: bv32
    var sid: bv32
    const buffer: array<Frame>
    var numberOfFrames: int

    /** The zero-initialised global `session_struct`. */
    constructor ()
      ensures State() == SessionState(0, 0, seq(BufferSlots, _ => Frame(0, 0, [])), 0)
    {
      id, sid, numberOfFrames := 0, 0, 0;
      buffer := new Frame[BufferSlots](_ => Frame(0, 0, []));
    }

    function State(): SessionState
      reads this, buffer
    {
      SessionState(id, sid, buffer[..], numberOfFrames)
    }

    /** `getSeries(session, s)`: reads `numberOfFrames` frames into `buffer`. */
    method GetSeries(input: seq<Frame>, pos: nat) returns (result: SeriesResult, next: nat)
      requires pos <= |input| && buffer.Length == BufferSlots && numberOfFrames <= BufferSlots
      modifies buffer
      ensures result == SeriesFrom(input, pos, numberOfFrames, 0).result
      ensures next == SeriesFrom(input, pos, numberOfFrames, 0).next
      ensures buffer[..] == Store(old(buffer[..]), SeriesFrom(input, pos, numberOfFrames, 0).accepted)
    {
      var count := numberOfFrames;
      ghost var goal := SeriesFrom(input, pos, count, 0);
      ghost var acc: seq<Frame> := [];
      ghost var start := buffer[..];
      var i := 0;
      next := pos;
      while i < count
        invariant i == |acc| <= BufferSlots && (i > 0 ==> i <= count)
        invariant next == pos + i <= |input|
        invariant buffer[..] == Store(start, acc)
        invariant goal == Prepend(acc, SeriesFrom(input, next, count, i))
        decreases count - i
      {
        if next == |input| {
          result := Blocked;
          break;
        }
        var frame := input[next];
        next := next + 1;
        var verdict := Verdict(frame, i);
        if verdict != Success {
          result := verdict;
          break;
        }
        SeriesStep(input, next - 1, count, i, acc);
        StoreNext(start, acc, frame);
        buffer[i] := frame;
        acc := acc + [frame];
        i := i + 1;
      }
      if i >= count {
        result := Success;
      }
      assert goal == Series(result, acc, next);
    }

    /** `waitAndReceiveSession(session, s)` over the frames `input` from `pos0`. */
    method WaitAndReceiveSession(input: seq<Frame>, pos0: nat) returns (ending: Ending, next: nat)
      requires pos0 <= |input| && buffer.Length == BufferSlots && StartCountsFit(input)
      modifies this, buffer
      ensures Wait(input, pos0, None, old(State())) == Reception(ending, State(), next)
    {
      ghost var goal := Wait(input, pos0, None, State());
      var restart := 0;
      var done := false;
      var frame := Frame(0, 0, []);
      var pos := pos0;
      ending := Done;
      while !done
        invariant pos0 <= pos <= |input| && (restart == 0 || restart == 1)
        invariant restart == 1 ==> IsStart(frame) && Nibble(frame) <= BufferSlots
        invariant !done ==> goal == Wait(input, pos, if restart == 1 then Some(frame) else None, State())
        invariant done ==> goal == Reception(Done, State(), pos)
        decreases |input| - pos, if done then 0 else 1
      {
        if restart == 0 {
          if pos == |input| {
            return Stuck, pos;
          }
          frame := input[pos];
          pos := pos + 1;
        } else {
          restart := restart - 1;
        }
        if IsStart(frame) {
          numberOfFrames := Nibble(frame);
          id := IdOf(frame.canId);
          sid := SidOf(frame.canId);
          var getSeriesResult;
          getSeriesResult, pos := GetSeries(input, pos);
          if getSeriesResult == Restart {
            restart := restart + 1;
          }
          if getSeriesResult == Success {
            done := true;
          }
          if getSeriesResult == Failure {
            return Failed, pos;
          }
          if getSeriesResult == Blocked {
            return Stuck, pos;
          }
        }
      }
      next := pos;
    }

    /** The reassembly loop of `main`: frame `i`'s payload goes to `buf + 7 i`. */
    method CopyOut(buf: array<bv8>)
      requires buf.Length == BufSize && 0 <= numberOfFrames <= buffer.Length
      requires Fits(buffer[..numberOfFrames], buf.Length)
      modifies buf
      ensures buf[..] == Layout(old(buf[..]), old(buffer[..numberOfFrames]), 0)
    {
      var frames := buffer[..numberOfFrames];
      ghost var goal := Layout(buf[..], frames, 0);
      var i := 0;
      var offset := 0;
      while i < numberOfFrames
        invariant 0 <= i <= numberOfFrames && offset == 7 * i
        invariant Layout(buf[..], frames, i) == goal
      {
        ghost var before := buf[..];
        LayoutStep(before, frames, i);
        Memcpy(buf, offset, frames[i].data[1..]);
        i := i + 1;
        offset := offset + 7;
      }
    }
  }

  /** Frames that can be copied out: well formed, not empty, and payload `i`
      ends within `cap` bytes when placed at `7 i`. */
  predicate Fits(frames: seq<Frame>, cap: int)
  {
    forall i :: 0 <= i < |frames| ==>
      WellFormed(frames[i]) && 1 <= frames[i].dlc && 7 * i + frames[i].dlc - 1 <= cap
  }

  lemma LayoutStep(b: seq<bv8>, frames: seq<Frame>, i: nat)
    requires Fits(frames, |b|) && i < |frames|
    ensures 7 * i + |frames[i].data[1..]| <= |b|
    ensures Layout(b, frames, i) == Layout(Overwrite(b, 7 * i, frames[i].data[1..]), frames, i + 1)
  {
  }

  /** `b` after the payloads of `frames[i..]` have been written at `7 i`,
      `7 (i + 1)`, ... */
  function Layout(b: seq<bv8>, frames: seq<Frame>, i: nat): (r: seq<bv8>)
    requires Fits(frames, |b|) && i <= |frames|
    ensures |r| == |b|
    decreases |frames| - i
  {
    if i == |frames| then b
    else
      var f := frames[i];
      assert Payload(f) == f.data[1..];
      Layout(Overwrite(b, 7 * i, f.data[1..]), frames, i + 1)
  }
}
