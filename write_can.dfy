/** `write_to_can` (ReadWriteCanImpl/WriteCan.c): a buffer is cut into at most
    32 frames. Control byte 0 carries the payload size in bits 0-2 and the
    sequence number in bits 3-7; sequence 31 marks the final frame. */
module WriteCan {
  import opened CanFrame

  /** The identifier every frame is sent with. */
  const WriterId: bv32 := 0x4BA

  /** Frames the writer emits for `len` bytes: ceil(len / 7), at most 32. */
  function FrameCount(len: int): nat
  {
    if len <= 0 then 0 else if len <= 224 then (len + 6) / 7 else 32
  }

  /** The value `write_to_can` returns when every write succeeds. */
  function Written(len: int): int
  {
    if len <= 0 then -1 else if len <= 224 then len else 224
  }

  /** Frame `k` of the segmentation of `buffer[..len]`: a final frame
      (`len | 0xF8`) once at most 7 bytes remain, a full frame
      (`7 | k << 3`) otherwise. */
  function WriterFrame(buffer: seq<bv8>, len: int, k: nat): Frame
    requires k < FrameCount(len) && len <= |buffer|
  {
    var rem := len - 7 * k;
    if rem <= 7 then
      Frame(WriterId, rem + 1, [(rem as bv8) | 0xF8] + buffer[7 * k .. 7 * k + rem])
    else
      Frame(WriterId, 8, [7 | ((k as bv8) << 3)] + buffer[7 * k .. 7 * k + 7])
  }

  /** Every frame `write_to_can(buffer, len)` sends, in order. */
  function WriterFrames(buffer: seq<bv8>, len: int): (fs: seq<Frame>)
    requires len <= |buffer|
    ensures |fs| == FrameCount(len)
  {
    seq(FrameCount(len), k requires 0 <= k < FrameCount(len) => WriterFrame(buffer, len, k))
  }

  /** The segmentation loop. The socket accepts `writable` frames; the write
      after those fails and the call returns -1. Returns the frames sent and
      the function's result. */
  method WriteToCan(buffer: seq<bv8>, len: int, writable: nat) returns (sent: seq<Frame>, written: int)
    requires len <= |buffer|
    ensures FrameCount(len) <= writable ==> sent == WriterFrames(buffer, len) && written == Written(len)
    ensures writable < FrameCount(len) ==> sent == WriterFrames(buffer, len)[..writable] && written == -1
  {
    sent := [];
    if len <= 0 {
      return sent, -1;
    }
    written := 0;
    var offset := 0;
    var remaining := len;
    var i := 0;
    while i <= 31
      invariant 0 <= i <= 32 && i <= writable
      invariant offset == 7 * i && written == 7 * i && remaining == len - 7 * i
      invariant remaining > 0 && i <= FrameCount(len)
      invariant sent == WriterFrames(buffer, len)[..i]
    {
      var frame: Frame;
      if remaining <= 7 {
        frame := Frame(WriterId, remaining + 1, [(remaining as bv8) | 0xF8] + buffer[offset .. offset + remaining]);
      } else {
        frame := Frame(WriterId, 8, [7 | ((i as bv8) << 3)] + buffer[offset .. offset + 7]);
      }
      assert frame == WriterFrame(buffer, len, i);
      offset := offset + 7;
      if i == writable {
        return sent, -1;
      }
      sent := sent + [frame];
      assert sent == WriterFrames(buffer, len)[..i + 1];
      if remaining <= 7 {
        written := written + remaining;
        return sent, written;
      }
      written := written + 7;
      remaining := remaining - 7;
      i := i + 1;
    }
  }

  /** Every frame is well formed, uses identifier 0x4BA, and its low three
      control bits equal its payload size `dlc - 1`. */
  lemma FrameShape(buffer: seq<bv8>, len: int, k: nat)
    requires len <= |buffer| && k < FrameCount(len)
    ensures WellFormed(WriterFrame(buffer, len, k)) && WriterFrame(buffer, len, k).canId == WriterId
    ensures WriterFrame(buffer, len, k).dlc >= 2
    ensures (Control(WriterFrame(buffer, len, k)) & 7) as int == WriterFrame(buffer, len, k).dlc - 1
  {
    var rem := len - 7 * k;
    if rem <= 7 {
      PackFields(31, rem as bv8);
      assert (rem as bv8) | 0xF8 == (rem as bv8) | (31 << 3);
    } else {
      PackFields(k as bv8, 7);
    }
  }

  /** A frame with more than 7 bytes still to send is a full frame numbered
      `k`: sequence field `k`, payload size 7, the next 7 buffer bytes. */
  lemma FullFrame(buffer: seq<bv8>, len: int, k: nat)
    requires len <= |buffer| && k < FrameCount(len) && len - 7 * k > 7
    ensures (Control(WriterFrame(buffer, len, k)) >> 3) as int == k
    ensures Control(WriterFrame(buffer, len, k)) & 7 == 7
    ensures Payload(WriterFrame(buffer, len, k)) == buffer[7 * k .. 7 * k + 7]
  {
    PackFields(k as bv8, 7);
    SmallNatToByte(k);
  }

  /** The frame `k` sent once at most 7 bytes remain is `0xF8 | rem`
      (sequence 31) and carries exactly the remaining bytes; for `len <= 224`
      it is the last frame. */
  lemma FinalFrame(buffer: seq<bv8>, len: int, k: nat)
    requires 0 < len <= 224 && len <= |buffer| && k + 1 == FrameCount(len)
    ensures 1 <= len - 7 * k <= 7
    ensures Control(WriterFrame(buffer, len, k)) == ((len - 7 * k) as bv8) | 0xF8
    ensures Control(WriterFrame(buffer, len, k)) >> 3 == 31
    ensures Payload(WriterFrame(buffer, len, k)) == buffer[7 * k .. len]
  {
    var rem := len - 7 * k;
    PackFields(31, rem as bv8);
    assert (rem as bv8) | 0xF8 == (rem as bv8) | (31 << 3);
  }

  /** The frames carry `buffer[..Written(len)]`, in order. */
  lemma {:induction false} PayloadsArePrefix(buffer: seq<bv8>, len: int)
    requires 0 < len <= |buffer|
    ensures Payloads(WriterFrames(buffer, len)) == buffer[..Written(len)]
  {
    var fs := WriterFrames(buffer, len);
    PayloadsUpTo(buffer, len, FrameCount(len));
    assert fs[..FrameCount(len)] == fs;
  }

  /** Bytes carried by the first `n` frames. */
  function SentAfter(len: int, n: nat): int
  {
    if n == FrameCount(len) then Written(len) else 7 * n
  }

  lemma FramePayload(buffer: seq<bv8>, len: int, k: nat)
    requires 0 < len <= |buffer| && k < FrameCount(len)
    ensures 7 * k <= SentAfter(len, k + 1) <= len
    ensures Payload(WriterFrame(buffer, len, k)) == buffer[7 * k .. SentAfter(len, k + 1)]
  {
  }

  lemma {:induction false} PayloadsUpTo(buffer: seq<bv8>, len: int, n: nat)
    requires 0 < len <= |buffer| && n <= FrameCount(len)
    ensures 0 <= SentAfter(len, n) <= len
    ensures Payloads(WriterFrames(buffer, len)[..n]) == buffer[..SentAfter(len, n)]
  {
    var fs := WriterFrames(buffer, len);
    if n == 0 {
      assert fs[..0] == [];
    } else {
      PayloadsUpTo(buffer, len, n - 1);
      var f := fs[n - 1];
      assert f == WriterFrame(buffer, len, n - 1);
      assert Payloads(fs[..n]) == Payloads(fs[..n - 1]) + Payload(f) by {
        TakeLast(fs, n);
        PayloadsAppend(fs[..n - 1], [f]);
        PayloadsOne(f);
      }
      assert SentAfter(len, n - 1) == 7 * (n - 1);
      assert Payload(f) == buffer[7 * (n - 1) .. SentAfter(len, n)] by {
        FramePayload(buffer, len, n - 1);
      }
      PrefixSplit(buffer, 7 * (n - 1), SentAfter(len, n));
    }
  }

  /** For 0 < len <= 224 the writer returns `len`; 224 bytes take exactly 32
      frames, the last one with sequence 31. */
  lemma WrittenIsLen(buffer: seq<bv8>, len: int)
    requires 0 < len <= 224 && len <= |buffer|
    ensures Written(len) == len
    ensures len == 224 ==> FrameCount(len) == 32 && Control(WriterFrames(buffer, len)[31]) >> 3 == 31
  {
    if len == 224 {
      assert WriterFrames(buffer, len)[31] == WriterFrame(buffer, len, 31);
      FinalFrame(buffer, len, 31);
    }
  }

  /** Beyond 224 bytes the 32nd frame is a full frame whose control byte is
      0xFF, the same byte a final 7-byte frame carries; the call reports 224
      bytes and the rest of the buffer is never sent. */
  lemma Truncation(buffer: seq<bv8>, len: int)
    requires 224 < len <= |buffer|
    ensures FrameCount(len) == 32 && Written(len) == 224
    ensures var f := WriterFrames(buffer, len)[31];
      Control(f) == 0xFF && f.dlc == 8 && Control(f) == (7 as bv8) | 0xF8
    ensures Payloads(WriterFrames(buffer, len)) == buffer[..224]
  {
    assert WriterFrames(buffer, len)[31] == WriterFrame(buffer, len, 31);
    PayloadsArePrefix(buffer, len);
  }
}
