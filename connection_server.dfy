/** The session server of CanConnection/ConnectionServer.c: it answers every
    new-client announcement with a frame carrying a fresh session ID and the
    client's tag. */
module ConnectionServer {
  import opened CanFrame

  /** `AJ_NEW_CLIENT_MASK`: the low 10 identifier bits of a frame for the server. */
  const NewClientMask: bv32 := 0x3ff
  /** `server_id`. */
  const ServerId: bv32 := 0x112
  /** The first session ID handed out. */
  const FirstSessionId: nat := 0x200
  /** The 8-byte announcement payload. */
  const Magic: seq<bv8> := [0xFF, 0xFF, 0xFF, 0xFF, 0xCA, 0xF3, 0x04, 0xB0]

  /** The frames the server looks at: all bits of the mask set. */
  predicate ForNewClient(f: Frame)
  {
    f.canId & NewClientMask == NewClientMask
  }

  predicate IsAnnouncement(f: Frame)
  {
    f.dlc == 8 && f.data == Magic
  }

  /** A frame the server answers with a new session. */
  predicate Admits(f: Frame)
  {
    ForNewClient(f) && IsAnnouncement(f)
  }

  /** Identifier bits 18-28: the client's tag, stored in `sData.CID`. */
  function ClientTag(canId: bv32): bv32
  {
    (canId & (0x7FF << 18)) >> 18
  }

  /** `0x80000000 | server_id << 18 | SessionID`, with the session ID taken
      as its 32 low bits. */
  function ReplyId(sessionId: nat): bv32
  {
    0x8000_0000 | (ServerId << 18) | ((sessionId % 0x1_0000_0000) as bv32)
  }

  /** The announcement rewritten into the reply: dlc 6, four 0xFF bytes, then
      the client's tag split over bytes 4 (bits 26-28) and 5 (bits 18-25). */
  function Reply(f: Frame, sessionId: nat): Frame
  {
    Frame(ReplyId(sessionId), 6,
      [0xFF, 0xFF, 0xFF, 0xFF, ((f.canId & (0x700 << 18)) >> 26) as bv8, ((f.canId & (0xFF << 18)) >> 18) as bv8])
  }

  /** What the loop writes for frame `f`: nothing, the reply, or the frame
      itself when it is for the server but not an announcement. */
  function Response(f: Frame, sessionId: nat): Option<Frame>
  {
    if !ForNewClient(f) then None
    else if IsAnnouncement(f) then Some(Reply(f, sessionId))
    else Some(f)
  }

  function Written(r: Option<Frame>): seq<Frame>
  {
    if r.Some? then [r.value] else []
  }

  /** Announcements among `input`. */
  function Announcements(input: seq<Frame>): nat
  {
    if |input| == 0 then 0
    else Announcements(input[..|input| - 1]) + (if Admits(input[|input| - 1]) then 1 else 0)
  }

  /** Everything the loop writes for `input` when the next session ID is `first`. */
  function Replies(input: seq<Frame>, first: nat): seq<Frame>
  {
    if |input| == 0 then []
    else
      Replies(input[..|input| - 1], first) +
      Written(Response(input[|input| - 1], first + Announcements(input[..|input| - 1])))
  }

  /** The session IDs handed out for `input`, in order. */
  function Allocated(input: seq<Frame>, first: nat): seq<nat>
  {
    if |input| == 0 then []
    else
      Allocated(input[..|input| - 1], first) +
      (if Admits(input[|input| - 1]) then [first + Announcements(input[..|input| - 1])] else [])
  }

  /** Reading frame `k` extends what was written and the count of
      announcements by what that frame brings. */
  lemma ServeStep(input: seq<Frame>, k: nat, first: nat)
    requires k < |input|
    ensures Replies(input[..k + 1], first) ==
      Replies(input[..k], first) + Written(Response(input[k], first + Announcements(input[..k])))
    ensures Announcements(input[..k + 1]) == Announcements(input[..k]) + if Admits(input[k]) then 1 else 0
  {
    assert input[..k + 1][..k] == input[..k];
  }

  /** The IDs run from `first` up by exactly one per announcement: the `k`th
      announcement gets `first + k` and no ID is given twice. */
  lemma {:induction false} AllocatedInOrder(input: seq<Frame>, first: nat)
    ensures |Allocated(input, first)| == Announcements(input)
    ensures forall k :: 0 <= k < |Allocated(input, first)| ==> Allocated(input, first)[k] == first + k
  {
    if |input| > 0 {
      AllocatedInOrder(input[..|input| - 1], first);
    }
  }

  /** When frame `k` is the `j`th announcement, its reply is the frame the
      loop writes next, and it carries the `j`th session ID handed out,
      `first + j`. */
  lemma AnnouncementReply(input: seq<Frame>, first: nat, k: nat)
    requires k < |input| && Admits(input[k])
    ensures Replies(input[..k + 1], first) ==
      Replies(input[..k], first) + [Reply(input[k], first + Announcements(input[..k]))]
    ensures Announcements(input[..k]) < |Allocated(input[..k + 1], first)|
    ensures Allocated(input[..k + 1], first)[Announcements(input[..k])] == first + Announcements(input[..k])
    ensures Reply(input[k], first + Announcements(input[..k])).canId ==
      ReplyId(Allocated(input[..k + 1], first)[Announcements(input[..k])])
  {
    ServeStep(input, k, first);
    AllocatedInOrder(input[..k + 1], first);
  }

  /** The reply starts with four 0xFF bytes and bytes 4-5 give back the
      client's tag. */
  lemma ReplyFields(f: Frame, sessionId: nat)
    ensures WellFormed(Reply(f, sessionId)) && Reply(f, sessionId).data[..4] == [0xFF, 0xFF, 0xFF, 0xFF]
    ensures ((Reply(f, sessionId).data[4] as bv32) << 8) | (Reply(f, sessionId).data[5] as bv32) == ClientTag(f.canId)
  {
    TagBytes(f.canId);
  }

  lemma TagBytes(canId: bv32)
    ensures (((((canId & (0x700 << 18)) >> 26) as bv8) as bv32) << 8) | ((((canId & (0xFF << 18)) >> 18) as bv8) as bv32)
      == ClientTag(canId)
  {
  }

  /** The reply identifier has the extended-frame flag set and, while the
      session ID is below 2^18, the server ID in bits 18-28 and the session
      ID in bits 0-17; a larger session ID runs into the server ID bits. */
  lemma ReplyIdFields(sessionId: nat)
    requires sessionId < 0x4_0000
    ensures ReplyId(sessionId) & 0x8000_0000 != 0 && (ReplyId(sessionId) >> 18) & 0x7FF == ServerId
    ensures (ReplyId(sessionId) & 0x3_FFFF) as nat == sessionId
  {
    var low := (sessionId % 0x1_0000_0000) as bv32;
    SmallSession(sessionId);
    LowBits(low);
  }

  lemma SmallSession(sessionId: nat)
    requires sessionId < 0x4_0000
    ensures (sessionId % 0x1_0000_0000) as bv32 < 0x4_0000
    ensures ((sessionId % 0x1_0000_0000) as bv32) as nat == sessionId
  {
    assert sessionId % 0x1_0000_0000 == sessionId;
  }

  lemma LowBits(low: bv32)
    requires low < 0x4_0000
    ensures (0x8000_0000 | (ServerId << 18) | low) & 0x8000_0000 != 0
    ensures ((0x8000_0000 | (ServerId << 18) | low) >> 18) & 0x7FF == ServerId
    ensures (0x8000_0000 | (ServerId << 18) | low) & 0x3_FFFF == low
  {
  }

  /** `sData` and the `SessionID` counter of `main`. */
  class Server {
    /** The next session ID. */
    var sessionId: nat
    /** `sData.CID`: the tag of the last client admitted. */
    var cid: bv32
    /** `sData.SessionID`: the session ID that client got. */
    var given: nat

    /** `SessionID = 0x200` and the zero-initialised global `sData`. */
    constructor ()
      ensures sessionId == FirstSessionId && cid == 0 && given == 0
    {
      sessionId, cid, given := FirstSessionId, 0, 0;
    }

    /** One turn of the loop on the frame `f` it read: what it writes, and
        the new session only for an announcement; other frames leave every
        field as it was. */
    method Handle(f: Frame) returns (written: Option<Frame>)
      modifies this
      ensures written == Response(f, old(sessionId))
      ensures Admits(f) ==> sessionId == old(sessionId) + 1 && cid == ClientTag(f.canId) && given == old(sessionId)
      ensures !Admits(f) ==> sessionId == old(sessionId) && cid == old(cid) && given == old(given)
    {
      written := None;
      if f.canId & NewClientMask == NewClientMask {
        var frame := f;
        if frame.dlc == 8 && frame.data == Magic {
          cid := (frame.canId & (0x7FF << 18)) >> 18;
          given := sessionId;
          var data: seq<bv8> := [0xFF, 0xFF, 0xFF, 0xFF,
            ((frame.canId & (0x700 << 18)) >> 26) as bv8, ((frame.canId & (0xFF << 18)) >> 18) as bv8];
          frame := Frame(0x8000_0000 | (ServerId << 18) | ((sessionId % 0x1_0000_0000) as bv32), 6, data);
          sessionId := sessionId + 1;
        }
        written := Some(frame);
      }
    }

    /** The `while (1)` loop over the frames `input`. */
    method Serve(input: seq<Frame>) returns (output: seq<Frame>)
      modifies this
      ensures output == Replies(input, old(sessionId))
      ensures sessionId == old(sessionId) + Announcements(input)
    {
      output := [];
      var k := 0;
      while k < |input|
        invariant 0 <= k <= |input|
        invariant output == Replies(input[..k], old(sessionId))
        invariant sessionId == old(sessionId) + Announcements(input[..k])
      {
        ServeStep(input, k, old(sessionId));
        var written := Handle(input[k]);
        output := output + Written(written);
        k := k + 1;
      }
      assert input[..k] == input;
    }
  }
}
