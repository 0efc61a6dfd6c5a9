/** The client of CanConnection/ConnectionClient.c: three times it announces
    itself, reads the reply, and writes a frame under the identifier built
    from the session ID in that reply. */
module ConnectionClient {
  import opened CanFrame
  import ConnectionServer

  /** `client_id`. */
  const ClientTag: bv32 := 0x4BA
  /** `AJ_CAN_SERIAL_START`, the announcement's only byte. */
  const SerialStart: bv8 := 0x0B
  /** Turns of the announce, read and write loop. */
  const Rounds: nat := 3

  /** `0x8000000 | (0x3FF << 11) | client_id`. */
  const AnnounceId: bv32 := 0x800_0000 | (0x3FF << 11) | ClientTag

  const Announcement: Frame := Frame(AnnounceId, 1, [SerialStart])

  /** The session ID in a reply: bytes 0 and 1, little-endian. */
  function SessionOf(reply: Frame): bv32
  {
    (ByteAt(reply, 0) as bv32) | ((ByteAt(reply, 1) as bv32) << 8)
  }

  /** The session ID is 16 bits wide: byte 0 is its low half, byte 1 its
      high half. */
  lemma SessionBytes(reply: Frame)
    ensures SessionOf(reply) < 0x1_0000
    ensures SessionOf(reply) & 0xFF == ByteAt(reply, 0) as bv32
    ensures SessionOf(reply) >> 8 == ByteAt(reply, 1) as bv32
  {
  }

  /** `((sid << 11) | 0x4BA) | 0x80000000`. */
  function NewId(sid: bv32): bv32
  {
    ((sid << 11) | ClientTag) | 0x8000_0000
  }

  /** The frame written after reading `reply`: one 0xFF byte under the new
      identifier. */
  function Confirmation(reply: Frame): Frame
  {
    Frame(NewId(SessionOf(reply)), 1, [0xFF])
  }

  /** What the first `n` turns write when each reads its reply from `input`. */
  function Rounded(input: seq<Frame>, n: nat): seq<Frame>
    requires n <= |input|
  {
    if n == 0 then [] else Rounded(input, n - 1) + [Announcement, Confirmation(input[n - 1])]
  }

  /** What the loop writes when the replies it reads are `input`: a read with
      no input left blocks after the announcement. */
  function Exchanges(input: seq<Frame>): seq<Frame>
  {
    if Rounds <= |input| then Rounded(input, Rounds) else Rounded(input, |input|) + [Announcement]
  }

  /** `main` after the socket is set up: the frames written and the number of
      replies read. */
  method Run(input: seq<Frame>) returns (output: seq<Frame>, used: nat)
    ensures output == Exchanges(input)
    ensures used == if |input| < Rounds then |input| else Rounds
  {
    output := [];
    var i := 0;
    while i < Rounds
      invariant 0 <= i <= Rounds && i <= |input|
      invariant output == Rounded(input, i)
    {
      output := output + [Announcement];
      if i == |input| {
        break;
      }
      output := output + [Confirmation(input[i])];
      i := i + 1;
    }
    used := i;
  }

  /** The announcement carries the client tag in bits 0-10 and ones in bits
      11-20, with bit 27 set but not the extended-frame flag (bit 31). */
  lemma AnnouncementFields()
    ensures WellFormed(Announcement) && Announcement.data == [0x0B]
    ensures AnnounceId & 0x7FF == ClientTag && (AnnounceId >> 11) & 0x3FF == 0x3FF
    ensures AnnounceId & 0x800_0000 != 0 && AnnounceId & 0x8000_0000 == 0
  {
  }

  /** The new identifier gives back the client tag in bits 0-10 and the
      session ID in bits 11-26, with the extended-frame flag set. */
  lemma NewIdFields(sid: bv32)
    requires sid < 0x1_0000
    ensures NewId(sid) & 0x7FF == ClientTag && (NewId(sid) >> 11) & 0xFFFF == sid
    ensures NewId(sid) & 0x8000_0000 != 0
  {
  }

  /** A session ID written little-endian into bytes 0-1 is read back. */
  lemma SessionRoundTrip(id: bv32, sid: bv32, rest: seq<bv8>)
    requires sid < 0x1_0000
    ensures SessionOf(Frame(id, 2 + |rest|, [(sid & 0xFF) as bv8, (sid >> 8) as bv8] + rest)) == sid
  {
    assert ((sid & 0xFF) as bv8) as bv32 == sid & 0xFF;
    assert ((sid >> 8) as bv8) as bv32 == sid >> 8;
  }

  /** Nothing in the reply but bytes 0-1 matters: its identifier and any tag
      it echoes are never checked. */
  lemma ReplyUnchecked(r1: Frame, r2: Frame)
    requires ByteAt(r1, 0) == ByteAt(r2, 0) && ByteAt(r1, 1) == ByteAt(r2, 1)
    ensures Confirmation(r1) == Confirmation(r2)
  {
  }

  /** The loop runs exactly three times: with three replies it writes six
      frames, announcements and confirmations alternating. */
  lemma {:induction false} ThreeRounds(input: seq<Frame>)
    requires |input| >= Rounds
    ensures Exchanges(input) == [Announcement, Confirmation(input[0]), Announcement,
      Confirmation(input[1]), Announcement, Confirmation(input[2])]
  {
    assert Rounded(input, 1) == [Announcement, Confirmation(input[0])];
    assert Rounded(input, 2) == Rounded(input, 1) + [Announcement, Confirmation(input[1])];
  }

  /** The announcement is not one ConnectionServer.c looks at: its low 10
      identifier bits are not all set, and its payload is 1 byte, not the
      8-byte magic. */
  lemma ServerIgnoresAnnouncement()
    ensures !ConnectionServer.ForNewClient(Announcement) && !ConnectionServer.IsAnnouncement(Announcement)
  {
  }
}
