/** The per-peer security state of AllJoyn's PeerState.cc and PeerState.h:
    the sliding window that rejects replayed message serial numbers, the
    key-exchange mode bits, the authentication suite, the clock-offset
    estimate, the per-message-type authorizations and the session keys, and
    the table that maps bus names to peers. */
module PeerState {
  import opened CanFrame

  const Two32: int := 0x1_0000_0000

  /** `uint32_t`. */
  type u32 = x: int | 0 <= x < 0x1_0000_0000

  /** `int32_t`. */
  type i32 = x: int | -0x8000_0000 <= x < 0x8000_0000

  /** `SerialWindowSize()`: how many serial numbers up to the newest one
      `flagWindow` remembers, one bit each. */
  const SerialWindowSize: nat := 64

  /** `wrapped_offset(a, b)`: how far `a` is ahead of `b`, counting modulo
      2^32. */
  function WrappedOffset(a: u32, b: u32): u32
  {
    if b <= a then a - b else (0xFFFF_FFFF - b) + a + 1
  }

  /** Both branches compute the difference modulo 2^32. */
  lemma WrappedOffsetIsDifference(a: u32, b: u32)
    ensures WrappedOffset(a, b) == (a - b) % Two32
  {
  }

  /** The offset is zero only between equal serials. */
  lemma WrappedOffsetZero(a: u32, b: u32)
    ensures WrappedOffset(a, b) == 0 <==> a == b
  {
  }

  /** The 64 bits of `flagWindow`, bit k at index k. */
  type Flags = s: seq<bool> | |s| == 64 witness seq(64, _ => false)

  /** `flagWindow == 0`. */
  function NoFlags(): Flags
  {
    seq(64, _ => false)
  }

  /** `flags << n` for n < 64: bit k comes from bit k - n, the low n bits are clear. */
  function Shifted(flags: Flags, n: nat): Flags
  {
    seq(64, k requires 0 <= k < 64 => n <= k && flags[k - n])
  }

  /** Bit `k` of a shifted window. */
  lemma ShiftedAt(flags: Flags, n: nat, k: nat)
    requires k < 64
    ensures Shifted(flags, n)[k] == (n <= k && flags[k - n])
  {
  }

  /** Shifting by the whole width or more clears the window, which is what
      the source's explicit `flagWindow = 0` branch does instead. */
  lemma ShiftedOut(flags: Flags, n: nat)
    requires 64 <= n
    ensures Shifted(flags, n) == NoFlags()
  {
  }

  /** `prevSerial` and `flagWindow` together. Bit k of `flags` says that
      serial `prev - k` has been seen; `prev == 0` means nothing has been. */
  datatype Window = Window(prev: u32, flags: Flags)

  /** How far `serial` lies behind the newest serial of `w`, modulo 2^32. */
  function Behind(w: Window, serial: u32): u32
  {
    (w.prev - serial) % Two32
  }

  /** The window records `serial` as already received. */
  predicate Seen(w: Window, serial: u32)
  {
    w.prev != 0 && Behind(w, serial) < SerialWindowSize && w.flags[Behind(w, serial)]
  }

  /** The window moved up by `offset`: `flagWindow <<= offset` below 64,
      `flagWindow = 0` from there on. */
  function Moved(flags: Flags, offset: nat): Flags
  {
    if offset < 64 then Shifted(flags, offset) else NoFlags()
  }

  /** `IsValidSerial`: whether `serial` is accepted, and the window after it. */
  function Check(w: Window, serial: u32): (bool, Window)
  {
    if serial == 0 then (false, w)
    else if w.prev == 0 then (true, Window(serial, NoFlags()[0 := true]))
    else CheckOffset(w, serial, WrappedOffset(serial, w.prev))
  }

  /** The part of `IsValidSerial` that looks at the offset of `serial` from
      the newest serial. */
  function CheckOffset(w: Window, serial: u32, offset: u32): (bool, Window)
  {
    if offset == 0 then (false, w)
    else if 0xFFFF_FFC0 < offset then CheckBack(w, (0xFFFF_FFFF - offset) + 1)
    else if 0x8000_0000 <= offset then (false, w)
    else (true, Window(serial, Moved(w.flags, offset)[0 := true]))
  }

  /** A serial `back` (1 to 63) behind the newest: accepted once, by setting its bit. */
  function CheckBack(w: Window, back: nat): (bool, Window)
    requires back < 64
  {
    if w.flags[back] then (false, w) else (true, Window(w.prev, w.flags[back := true]))
  }

  /** Serial 0 is never valid, and checking it changes nothing. */
  lemma ZeroRejected(w: Window)
    ensures Check(w, 0) == (false, w)
  {
  }

  /** Once a serial has been seen, a repeat of the newest one is rejected and
      changes nothing. */
  lemma RepeatRejected(w: Window)
    requires w.prev != 0
    ensures Check(w, w.prev) == (false, w)
  {
  }

  /** Before any serial has been seen, every nonzero serial is accepted and
      becomes the newest, with only bit 0 set. */
  lemma FirstAccepted(w: Window, serial: u32)
    requires w.prev == 0 && serial != 0
    ensures Check(w, serial) == (true, Window(serial, NoFlags()[0 := true]))
  {
  }

  /** A nonzero serial 1 to 63 behind the newest is accepted exactly when its
      bit is clear; acceptance sets that bit and keeps the newest serial. */
  lemma RecentChecked(w: Window, serial: u32)
    requires serial != 0 && w.prev != 0 && 1 <= Behind(w, serial) < 64
    ensures Check(w, serial) == if w.flags[Behind(w, serial)] then (false, w)
      else (true, Window(w.prev, w.flags[Behind(w, serial) := true]))
  {
  }

  /** A serial 64 to 2^31 behind the newest is too old: rejected, nothing changes. */
  lemma TooOldRejected(w: Window, serial: u32)
    requires w.prev != 0 && 64 <= Behind(w, serial) <= 0x8000_0000
    ensures Check(w, serial) == (false, w)
  {
  }

  /** A nonzero serial 1 to 2^31 - 1 ahead of the newest is accepted and
      becomes the newest: the window moves up by the distance (emptied when
      that is 64 or more) and bit 0 is set. */
  lemma AheadAccepted(w: Window, serial: u32)
    requires serial != 0 && w.prev != 0 && 1 <= (serial - w.prev) % Two32 < 0x8000_0000
    ensures Check(w, serial) == (true, Window(serial, Shifted(w.flags, (serial - w.prev) % Two32)[0 := true]))
  {
    if 64 <= (serial - w.prev) % Two32 {
      ShiftedOut(w.flags, (serial - w.prev) % Two32);
    }
  }

  /** Whatever is accepted is recorded as seen. */
  lemma AcceptedIsSeen(w: Window, serial: u32)
    requires Check(w, serial).0
    ensures Seen(Check(w, serial).1, serial)
  {
  }

  /** A serial the window records as seen is rejected, and nothing changes. */
  lemma SeenRejected(w: Window, serial: u32)
    requires Seen(w, serial)
    ensures Check(w, serial) == (false, w)
  {
  }

  /** Checking any other serial never forgets one that was seen while it
      stays within 64 of the newest: the window only gains bits, or moves
      up with them. */
  lemma SeenKept(w: Window, serial: u32, other: u32)
    requires Seen(w, serial)
    ensures Seen(Check(w, other).1, serial) || 64 <= Behind(Check(w, other).1, serial)
  {
    var offset := WrappedOffset(other, w.prev);
    if other != 0 && offset != 0 && offset < 0x8000_0000 {
      WrappedOffsetIsDifference(other, w.prev);
      SeenMoved(w, serial, other, offset);
    }
  }

  /** The window moving up by `offset` carries a seen serial's bit along. */
  lemma SeenMoved(w: Window, serial: u32, other: u32, offset: u32)
    requires Seen(w, serial) && other != 0 && 0 < offset < 0x8000_0000
    requires offset == (other - w.prev) % Two32
    ensures Check(w, other).1 == Window(other, Moved(w.flags, offset)[0 := true])
    ensures Seen(Check(w, other).1, serial) || 64 <= Behind(Check(w, other).1, serial)
  {
    WrappedOffsetIsDifference(other, w.prev);
    var w' := Window(other, Moved(w.flags, offset)[0 := true]);
    var d := Behind(w, serial);
    assert Behind(w', serial) == offset + d;
    if offset + d < 64 {
      ShiftedAt(w.flags, offset, offset + d);
    }
  }

  /** `KEY_EXCHANGE_*`: the key-exchange mode bits. */
  const KeyExchangeNone: bv8 := 0x00
  const KeyExchangeInitiator: bv8 := 0x01
  const KeyExchangeResponder: bv8 := 0x02

  /** `IsInKeyExchangeMode`: every bit of `mask` is set in `mode`. */
  predicate InMode(mode: bv8, mask: bv8)
  {
    (mode & mask) == mask
  }

  /** Bit `k` of a byte. */
  predicate ByteBit(b: bv8, k: nat)
    requires k < 8
  {
    (b >> k) & 1 == 1
  }

  /** `InMode` holds exactly when each bit of the mask is a bit of the mode. */
  lemma InModeBits(mode: bv8, mask: bv8)
    ensures InMode(mode, mask) <==> forall k :: 0 <= k < 8 && ByteBit(mask, k) ==> ByteBit(mode, k)
  {
    if !InMode(mode, mask) {
      var k := LowestMissing(mode, mask);
    }
  }

  /** A bit of `mask` that `mode` lacks, when the mode does not cover the mask. */
  lemma LowestMissing(mode: bv8, mask: bv8) returns (k: nat)
    requires !InMode(mode, mask)
    ensures k < 8 && ByteBit(mask, k) && !ByteBit(mode, k)
  {
    if ByteBit(mask, 0) && !ByteBit(mode, 0) { return 0; }
    if ByteBit(mask, 1) && !ByteBit(mode, 1) { return 1; }
    if ByteBit(mask, 2) && !ByteBit(mode, 2) { return 2; }
    if ByteBit(mask, 3) && !ByteBit(mode, 3) { return 3; }
    if ByteBit(mask, 4) && !ByteBit(mode, 4) { return 4; }
    if ByteBit(mask, 5) && !ByteBit(mode, 5) { return 5; }
    if ByteBit(mask, 6) && !ByteBit(mode, 6) { return 6; }
    return 7;
  }

  /** After `AddKeyExchangeModeMask(mask)` the mode covers the mask, and the
      bits outside it are as they were. */
  lemma AddedMask(mode: bv8, mask: bv8)
    ensures InMode(mode | mask, mask)
    ensures (mode | mask) & !mask == mode & !mask
  {
  }

  /** After `ClearKeyExchangeModeMask(mask)` no bit of the mask is set, and the
      bits outside it are as they were. */
  lemma ClearedMask(mode: bv8, mask: bv8)
    ensures (mode & !mask) & mask == 0
    ensures (mode & !mask) & !mask == mode & !mask
    ensures mask != 0 ==> !InMode(mode & !mask, mask)
  {
  }

  /** `AUTH_KEYX_*`: the key exchange, in the upper 16 bits of a suite. */
  const AuthKeyxAnonymous: u32 := 0x0001_0000
  const AuthKeyxExternal: u32 := 0x0002_0000
  const AuthKeyxSrp: u32 := 0x0008_0000
  const AuthKeyxSrpLogon: u32 := 0x0010_0000
  const AuthKeyxEcdhe: u32 := 0x0040_0000
  const AuthKeyxGssapi: u32 := 0x0080_0000

  /** `AUTH_SUITE_*`. */
  const AuthSuiteAnonymous: u32 := AuthKeyxAnonymous
  const AuthSuiteExternal: u32 := AuthKeyxExternal
  const AuthSuiteSrpKeyx: u32 := AuthKeyxSrp
  const AuthSuiteSrpLogon: u32 := AuthKeyxSrpLogon
  const AuthSuiteEcdheNull: u32 := AuthKeyxEcdhe + 0x0001
  const AuthSuiteEcdhePsk: u32 := AuthKeyxEcdhe + 0x0002
  const AuthSuiteEcdheEcdsa: u32 := AuthKeyxEcdhe + 0x0004
  const AuthSuiteEcdheSpeke: u32 := AuthKeyxEcdhe + 0x0008
  const AuthSuiteGssapi: u32 := AuthKeyxGssapi

  /** The values `SetAuthSuite` accepts. */
  const AuthSuites: set<u32> := {AuthSuiteAnonymous, AuthSuiteExternal, AuthSuiteSrpKeyx,
    AuthSuiteSrpLogon, AuthSuiteEcdheNull, AuthSuiteEcdhePsk, AuthSuiteEcdheSpeke,
    AuthSuiteEcdheEcdsa, AuthSuiteGssapi}

  /** The key exchanges of the upper 16 bits. */
  const KeyExchanges: set<u32> := {AuthKeyxAnonymous, AuthKeyxExternal, AuthKeyxSrp,
    AuthKeyxSrpLogon, AuthKeyxEcdhe, AuthKeyxGssapi}

  /** The nine suites are distinct. */
  lemma NineSuites()
    ensures |AuthSuites| == 9
  {
  }

  /** Each suite is one key exchange in the upper 16 bits, and only the ECDHE
      ones carry an authentication in the lower 16. */
  lemma AuthSuitesShape()
    ensures forall s :: s in AuthSuites ==> (s / 0x1_0000) * 0x1_0000 in KeyExchanges
    ensures forall s :: s in AuthSuites && s % 0x1_0000 != 0 ==> (s / 0x1_0000) * 0x1_0000 == AuthKeyxEcdhe
  {
  }

  /** The names the string overload of `SetAuthSuite` knows. */
  const SuiteNames: set<string> := {"ALLJOYN_ECDHE_NULL", "ALLJOYN_ECDHE_PSK", "ALLJOYN_ECDHE_SPEKE",
    "ALLJOYN_ECDHE_ECDSA", "ALLJOYN_SRP_LOGON", "ALLJOYN_SRP_KEYX", "GSSAPI"}

  /** The suite a name stands for, if any. */
  function SuiteNamed(name: string): Option<u32>
  {
    if name == "ALLJOYN_ECDHE_NULL" then Some(AuthSuiteEcdheNull)
    else if name == "ALLJOYN_ECDHE_PSK" then Some(AuthSuiteEcdhePsk)
    else if name == "ALLJOYN_ECDHE_SPEKE" then Some(AuthSuiteEcdheSpeke)
    else if name == "ALLJOYN_ECDHE_ECDSA" then Some(AuthSuiteEcdheEcdsa)
    else if name == "ALLJOYN_SRP_LOGON" then Some(AuthSuiteSrpLogon)
    else if name == "ALLJOYN_SRP_KEYX" then Some(AuthSuiteSrpKeyx)
    else if name == "GSSAPI" then Some(AuthSuiteGssapi)
    else None
  }

  /** Exactly the seven names map to suites, each to a valid one, and no two
      to the same; the anonymous and external suites have no name. */
  lemma SuiteNamesShape(name: string, other: string)
    ensures SuiteNamed(name).Some? <==> name in SuiteNames
    ensures SuiteNamed(name).Some? ==> SuiteNamed(name).value in AuthSuites
    ensures SuiteNamed(name).Some? && SuiteNamed(name) == SuiteNamed(other) ==> name == other
    ensures SuiteNamed(name) != Some(AuthSuiteAnonymous) && SuiteNamed(name) != Some(AuthSuiteExternal)
  {
  }

  /** The seven names are distinct. */
  lemma SevenNames()
    ensures |SuiteNames| == 7
  {
  }

  /** The status codes these operations return. */
  datatype Status = Ok | BadArg1 | KeyUnavailable | KeyExpired

  /** `CONVERSATION_V1` and `CONVERSATION_V4`. */
  const ConversationV1: u32 := 0x0000
  const ConversationV4: u32 := 0x0004

  /** `ConversationVersionDoesNotApply`: the major authentication version is
      the upper 16 bits of `authVersion`. */
  predicate ConversationVersionDoesNotApply(conversationVersion: u32, authVersion: u32)
    requires conversationVersion == ConversationV1 || conversationVersion == ConversationV4
  {
    if conversationVersion == ConversationV4 then authVersion / 0x1_0000 != ConversationV4
    else authVersion / 0x1_0000 >= ConversationV4
  }

  /** Major versions below 4 hash the V1 conversation, major version 4 hashes
      the V4 one, and a later major version hashes neither. */
  lemma ConversationVersions(authVersion: u32)
    ensures !ConversationVersionDoesNotApply(ConversationV1, authVersion) <==> authVersion < 0x4_0000
    ensures !ConversationVersionDoesNotApply(ConversationV4, authVersion) <==> 0x4_0000 <= authVersion < 0x5_0000
  {
  }

  /** `static_cast<int32_t>` of a 32-bit unsigned value. */
  function Signed(x: u32): i32
  {
    if x < 0x8000_0000 then x else x - Two32
  }

  /** `static_cast<uint32_t>` of a 32-bit signed value. */
  function Unsigned(x: i32): u32
  {
    x % Two32
  }

  /** Casting to signed and back gives the value back. */
  lemma UnsignedSigned(x: u32)
    ensures Unsigned(Signed(x)) == x
  {
  }

  /** Two's-complement 32-bit signed arithmetic on `x`. */
  function Wrap(x: int): i32
  {
    Signed(x % Two32)
  }

  /** `clockOffset`, `firstClockAdjust` and `lastDriftAdjustTime` together. */
  datatype Clock = Clock(offset: i32, first: bool, lastDrift: u32)

  /** `delta` of `EstimateTimestamp`: local minus remote time, as `int32_t`. */
  function Delta(remote: u32, local: u32): i32
  {
    Signed((local - remote) % Two32)
  }

  /** The clock after the drift step: every more than 10 seconds the offset
      creeps up by one. */
  function Drifted(c: Clock, local: u32): Clock
  {
    if (local - c.lastDrift) % Two32 > 10000 then Clock(Wrap(c.offset as int + 1), c.first, local) else c
  }

  /** `EstimateTimestamp(remote)` with local time `local`: the new clock and
      the remote timestamp in local time. */
  function Estimate(c: Clock, remote: u32, local: u32): (Clock, u32)
  {
    var c1 := Drifted(c, local);
    var c2 := if Wrap(c.offset as int - Delta(remote, local)) > 0 || c1.first
      then Clock(Delta(remote, local), false, c1.lastDrift) else c1;
    (c2, (remote + Unsigned(c2.offset)) % Two32)
  }

  /** When the offset is reset to `delta`, the estimate is the local time. */
  lemma DeltaIsLocal(remote: u32, local: u32)
    ensures (remote + Unsigned(Delta(remote, local))) % Two32 == local
  {
    UnsignedSigned((local - remote) % Two32);
  }

  /** The first estimate, and any estimate from a message that arrived faster
      than the recorded offset says, is the local time itself; the offset
      becomes `delta`. */
  lemma EstimateResets(c: Clock, remote: u32, local: u32)
    requires c.first || Wrap(c.offset as int - Delta(remote, local)) > 0
    ensures Estimate(c, remote, local).0.offset == Delta(remote, local)
    ensures !Estimate(c, remote, local).0.first
    ensures Estimate(c, remote, local).1 == local
  {
    DeltaIsLocal(remote, local);
  }

  /** Otherwise the offset stays, or creeps up by one when the drift step is
      due, and the estimate is the remote time shifted by it. */
  lemma EstimateCreeps(c: Clock, remote: u32, local: u32)
    requires !c.first && Wrap(c.offset as int - Delta(remote, local)) <= 0
    ensures Estimate(c, remote, local).0.offset ==
      if (local - c.lastDrift) % Two32 > 10000 then Wrap(c.offset as int + 1) else c.offset
    ensures Estimate(c, remote, local).1 == (remote + Unsigned(Estimate(c, remote, local).0.offset)) % Two32
  {
  }

  /** Without overflow the source's `(oldOffset - delta) > 0` is the plain
      comparison of the two offsets. */
  lemma CompareWithoutOverflow(offset: i32, delta: i32)
    requires -0x8000_0000 <= offset as int - delta < 0x8000_0000
    ensures Wrap(offset as int - delta) > 0 <==> offset > delta
  {
  }

  /** `AllJoynMessageType`: 0 is `MESSAGE_INVALID`, 1 to 4 are method call,
      method return, error and signal. */
  type MessageType = t: nat | t <= 4
  const MessageInvalid: MessageType := 0
  const MessageSignal: MessageType := 4

  /** `ALLOW_SECURE_TX` and `ALLOW_SECURE_RX`. */
  const AllowSecureTx: bv8 := 0x01
  const AllowSecureRx: bv8 := 0x02

  /** `IsAuthorized` on a secure flag and the four authorization entries. */
  predicate Authorized(secure: bool, entries: seq<bv8>, t: MessageType, access: bv8)
    requires |entries| == 4
  {
    if t == MessageInvalid then false
    else if secure then (entries[t - 1] & access) == access
    else true
  }

  /** `SetAuthorization` on the four entries. */
  function Authorize(entries: seq<bv8>, t: MessageType, access: bv8): (r: seq<bv8>)
    requires |entries| == 4
    ensures |r| == 4
  {
    if t != MessageInvalid then
      if access != 0 then entries[t - 1 := entries[t - 1] | access]
      else entries[t - 1 := 0]
    else entries
  }

  /** The invalid message type is never authorized; without a key every
      other type is; with one, an entry grants the access bits it holds. */
  lemma AuthorizedCases(secure: bool, entries: seq<bv8>, t: MessageType, access: bv8)
    requires |entries| == 4
    ensures t == MessageInvalid ==> !Authorized(secure, entries, t, access)
    ensures t != MessageInvalid && !secure ==> Authorized(secure, entries, t, access)
  {
  }

  /** While secure, a valid type is authorized for `access` exactly when its
      entry holds every bit of it. */
  lemma AuthorizedBits(entries: seq<bv8>, t: MessageType, access: bv8)
    requires |entries| == 4 && t != MessageInvalid
    ensures Authorized(true, entries, t, access) <==>
      forall k :: 0 <= k < 8 && ByteBit(access, k) ==> ByteBit(entries[t - 1], k)
  {
    InModeBits(entries[t - 1], access);
  }

  /** Granting access authorizes it, on top of what the entry already
      granted; the other types' entries are untouched. */
  lemma GrantAuthorizes(entries: seq<bv8>, t: MessageType, access: bv8, before: bv8)
    requires |entries| == 4 && t != MessageInvalid && access != 0
    ensures Authorized(true, Authorize(entries, t, access), t, access)
    ensures Authorized(true, entries, t, before) ==> Authorized(true, Authorize(entries, t, access), t, before)
    ensures forall i :: 0 <= i < 4 && i != t - 1 ==> Authorize(entries, t, access)[i] == entries[i]
  {
  }

  /** Setting access 0 revokes every nonzero access to that type while secure. */
  lemma RevokeClears(entries: seq<bv8>, t: MessageType, access: bv8)
    requires |entries| == 4 && t != MessageInvalid && access != 0
    ensures !Authorized(true, Authorize(entries, t, 0), t, access)
  {
  }

  /** The invalid type changes nothing. */
  lemma InvalidUnchanged(entries: seq<bv8>, access: bv8)
    requires |entries| == 4
    ensures Authorize(entries, MessageInvalid, access) == entries
  {
  }

  /** The parts of a `qcc::KeyBlob` the peer state looks at. */
  datatype KeyBlob = KeyBlob(valid: bool, expired: bool)

  /** An erased key blob. */
  const Erased := KeyBlob(false, false)

  /** `PEER_SESSION_KEY` and `PEER_GROUP_KEY`. */
  type KeyType = k: nat | k < 2
  const PeerSessionKey: KeyType := 0
  const PeerGroupKey: KeyType := 1

  /** `_PeerState`: the state kept about one remote peer. */
  class Peer {
    var clockOffset: i32
    var firstClockAdjust: bool
    var lastDriftAdjustTime: u32
    var isSecure: bool
    const authorizations: array<bv8>
    const keys: array<KeyBlob>
    var prevSerial: u32
    var flagWindow: Flags
    var keyExchangeMode: bv8
    var authSuite: u32

    ghost predicate Valid()
      reads this
    {
      authorizations.Length == 4 && keys.Length == 2
    }

    /** The default constructor. */
    constructor()
      ensures Valid() && fresh(authorizations) && fresh(keys)
      ensures clockOffset == 0x7FFF_FFFF && firstClockAdjust && lastDriftAdjustTime == 0
      ensures !isSecure && prevSerial == 0 && flagWindow == NoFlags()
      ensures keyExchangeMode == KeyExchangeNone && authSuite == 0
      ensures authorizations[..] == [0, 0, 0, 0] && keys[..] == [Erased, Erased]
    {
      clockOffset := 0x7FFF_FFFF;
      firstClockAdjust := true;
      lastDriftAdjustTime := 0;
      isSecure := false;
      prevSerial := 0;
      flagWindow := NoFlags();
      keyExchangeMode := KeyExchangeNone;
      authSuite := 0;
      authorizations := new bv8[4](_ => 0);
      keys := new KeyBlob[2](_ => Erased);
    }

    /** `IsValidSerial`; the secure and unreliable flags are unused. */
    method IsValidSerial(serial: u32, secure: bool, unreliable: bool) returns (valid: bool)
      modifies this
      ensures (valid, Window(prevSerial, flagWindow)) == Check(old(Window(prevSerial, flagWindow)), serial)
      ensures clockOffset == old(clockOffset) && firstClockAdjust == old(firstClockAdjust)
      ensures lastDriftAdjustTime == old(lastDriftAdjustTime) && isSecure == old(isSecure)
      ensures keyExchangeMode == old(keyExchangeMode) && authSuite == old(authSuite)
    {
      if serial == 0 {
        return false;
      }
      var offset: u32;
      if prevSerial == 0 {
        offset := 0;
        flagWindow := NoFlags();
      } else {
        offset := WrappedOffset(serial, prevSerial);
        if offset == 0 {
          return false;
        } else if 0xFFFF_FFC0 < offset {
          offset := (0xFFFF_FFFF - offset) + 1;
          if flagWindow[offset] {
            return false;
          }
          flagWindow := flagWindow[offset := true];
          return true;
        } else if 0x8000_0000 <= offset {
          return false;
        }
        if offset < 64 {
          flagWindow := Shifted(flagWindow, offset);
        } else {
          flagWindow := NoFlags();
        }
      }
      prevSerial := serial;
      flagWindow := flagWindow[0 := true];
      return true;
    }

    /** `IsInKeyExchangeMode`. */
    predicate IsInKeyExchangeMode(mask: bv8)
      reads this
    {
      InMode(keyExchangeMode, mask)
    }

    /** `SetKeyExchangeMode`. */
    method SetKeyExchangeMode(mode: bv8)
      modifies this
      ensures keyExchangeMode == mode
      ensures unchanged(this`prevSerial, this`flagWindow, this`authSuite, this`isSecure)
      ensures unchanged(this`clockOffset, this`firstClockAdjust, this`lastDriftAdjustTime)
    {
      keyExchangeMode := mode;
    }

    /** `AddKeyExchangeModeMask`: the mode now covers `mask`, and only the
        mask's bits changed. */
    method AddKeyExchangeModeMask(mask: bv8)
      modifies this
      ensures keyExchangeMode == old(keyExchangeMode) | mask
      ensures IsInKeyExchangeMode(mask) && keyExchangeMode & !mask == old(keyExchangeMode) & !mask
      ensures unchanged(this`prevSerial, this`flagWindow, this`authSuite, this`isSecure)
      ensures unchanged(this`clockOffset, this`firstClockAdjust, this`lastDriftAdjustTime)
    {
      SetKeyExchangeMode(keyExchangeMode | mask);
      AddedMask(old(keyExchangeMode), mask);
    }

    /** `ClearKeyExchangeModeMask`: no bit of `mask` is left, and only the
        mask's bits changed. */
    method ClearKeyExchangeModeMask(mask: bv8)
      modifies this
      ensures keyExchangeMode == old(keyExchangeMode) & !mask
      ensures keyExchangeMode & mask == 0 && keyExchangeMode & !mask == old(keyExchangeMode) & !mask
      ensures unchanged(this`prevSerial, this`flagWindow, this`authSuite, this`isSecure)
      ensures unchanged(this`clockOffset, this`firstClockAdjust, this`lastDriftAdjustTime)
    {
      SetKeyExchangeMode(keyExchangeMode & !mask);
      ClearedMask(old(keyExchangeMode), mask);
    }

    /** `SetAuthSuite(uint32_t)`: one of the nine suites is stored, anything
        else is refused with the suite unchanged. */
    method SetAuthSuite(suite: u32) returns (status: Status)
      modifies this
      ensures status == (if suite in AuthSuites then Ok else BadArg1)
      ensures authSuite == (if suite in AuthSuites then suite else old(authSuite))
      ensures unchanged(this`prevSerial, this`flagWindow, this`keyExchangeMode, this`isSecure)
      ensures unchanged(this`clockOffset, this`firstClockAdjust, this`lastDriftAdjustTime)
    {
      if suite == AuthSuiteAnonymous || suite == AuthSuiteExternal || suite == AuthSuiteSrpKeyx
        || suite == AuthSuiteSrpLogon || suite == AuthSuiteEcdheNull || suite == AuthSuiteEcdhePsk
        || suite == AuthSuiteEcdheSpeke || suite == AuthSuiteEcdheEcdsa || suite == AuthSuiteGssapi
      {
        authSuite := suite;
        return Ok;
      }
      return BadArg1;
    }

    /** `SetAuthSuite(const String&)`: one of the seven names stores its
        suite, any other name is refused with the suite unchanged. */
    method SetAuthSuiteNamed(name: string) returns (status: Status)
      modifies this
      ensures status == (if name in SuiteNames then Ok else BadArg1)
      ensures authSuite == (if name in SuiteNames then SuiteNamed(name).value else old(authSuite))
      ensures unchanged(this`prevSerial, this`flagWindow, this`keyExchangeMode, this`isSecure)
      ensures unchanged(this`clockOffset, this`firstClockAdjust, this`lastDriftAdjustTime)
    {
      SuiteNamesShape(name, name);
      var suite := SuiteNamed(name);
      if suite.Some? {
        status := SetAuthSuite(suite.value);
      } else {
        status := BadArg1;
      }
    }

    /** `EstimateTimestamp(remote)`, with the local time `local` that the
        source reads from the system clock. */
    method EstimateTimestamp(remote: u32, local: u32) returns (estimate: u32)
      modifies this
      ensures (Clock(clockOffset, firstClockAdjust, lastDriftAdjustTime), estimate)
        == Estimate(old(Clock(clockOffset, firstClockAdjust, lastDriftAdjustTime)), remote, local)
      ensures unchanged(this`prevSerial, this`flagWindow, this`keyExchangeMode, this`isSecure, this`authSuite)
    {
      var delta := Signed((local - remote) % Two32);
      var oldOffset := clockOffset;
      if (local - lastDriftAdjustTime) % Two32 > 10000 {
        lastDriftAdjustTime := local;
        clockOffset := Wrap(clockOffset as int + 1);
      }
      if Wrap(oldOffset as int - delta) > 0 || firstClockAdjust {
        clockOffset := delta;
        firstClockAdjust := false;
      }
      estimate := (remote + Unsigned(clockOffset)) % Two32;
    }

    /** `IsAuthorized`. */
    predicate IsAuthorized(t: MessageType, access: bv8)
      requires Valid()
      reads this, authorizations
    {
      Authorized(isSecure, authorizations[..], t, access)
    }

    /** `SetAuthorization`: grant `access` to type `t`, or clear its entry when
        `access` is 0. */
    method SetAuthorization(t: MessageType, access: bv8)
      requires Valid()
      modifies authorizations
      ensures authorizations[..] == Authorize(old(authorizations[..]), t, access)
    {
      if t != MessageInvalid {
        if access != 0 {
          authorizations[t - 1] := authorizations[t - 1] | access;
        } else {
          authorizations[t - 1] := 0;
        }
      }
    }

    /** `SetKey`: stores the key, and the peer is secure exactly when the key
        is valid. */
    method SetKey(key: KeyBlob, keyType: KeyType)
      requires Valid()
      modifies this, keys
      ensures keys[..] == old(keys[..])[keyType := key] && isSecure == key.valid
      ensures unchanged(this`prevSerial, this`flagWindow, this`keyExchangeMode, this`authSuite)
      ensures unchanged(this`clockOffset, this`firstClockAdjust, this`lastDriftAdjustTime)
    {
      keys[keyType] := key;
      isSecure := key.valid;
    }

    /** `ClearKeys`: both keys erased, not secure, no suite. */
    method ClearKeys()
      requires Valid()
      modifies this, keys
      ensures keys[..] == [Erased, Erased] && !isSecure && authSuite == 0
      ensures unchanged(this`prevSerial, this`flagWindow, this`keyExchangeMode)
      ensures unchanged(this`clockOffset, this`firstClockAdjust, this`lastDriftAdjustTime)
    {
      keys[PeerSessionKey] := Erased;
      keys[PeerGroupKey] := Erased;
      isSecure := false;
      authSuite := 0;
    }

    /** `GetKey`: unavailable when not secure (the caller's key is not
        written); an expired key is handed out but clears both keys;
        otherwise the key is handed out. */
    method GetKey(keyType: KeyType) returns (status: Status, key: Option<KeyBlob>)
      requires Valid()
      modifies this, keys
      ensures !old(isSecure) ==> status == KeyUnavailable && key == None && unchanged(this, keys)
      ensures old(isSecure) ==> key == Some(old(keys[keyType]))
      ensures old(isSecure) && old(keys[keyType]).expired ==>
        status == KeyExpired && keys[..] == [Erased, Erased] && !isSecure && authSuite == 0
      ensures old(isSecure) && !old(keys[keyType]).expired ==> status == Ok && unchanged(this, keys)
    {
      if isSecure {
        key := Some(keys[keyType]);
        if keys[keyType].expired {
          ClearKeys();
          status := KeyExpired;
        } else {
          status := Ok;
        }
      } else {
        status := KeyUnavailable;
        key := None;
      }
    }
  }

  /** The group key `PeerStateTable::Clear` generates: a new random AES key,
      valid and not expired. */
  const GroupKey := KeyBlob(true, false)

  /** `PeerStateTable`: bus names to the peer state they refer to. Two names
      are aliases when they map to the same `Peer` object. */
  class PeerStateTable {
    var peerMap: map<string, Peer>

    /** The constructor clears the table, which enters the group-key peer. */
    constructor()
      ensures peerMap.Keys == {""} && fresh(peerMap[""]) && fresh(peerMap[""].keys)
      ensures peerMap[""].Valid() && peerMap[""].isSecure
      ensures peerMap[""].keys[..] == [GroupKey, Erased]
    {
      peerMap := map[];
      new;
      Clear();
    }

    /** `Clear`: every name is forgotten, and the empty name is entered with a
        new peer that holds the group key as its session key. */
    method Clear()
      modifies this
      ensures peerMap.Keys == {""} && fresh(peerMap[""]) && fresh(peerMap[""].keys)
      ensures peerMap[""].Valid() && peerMap[""].isSecure
      ensures peerMap[""].keys[..] == [GroupKey, Erased]
    {
      var nullPeer := new Peer();
      nullPeer.SetKey(GroupKey, PeerSessionKey);
      peerMap := map["" := nullPeer];
    }

    /** `GetPeerState(busName, createIfUnknown)`: the known peer, or a new one,
        which is entered under the name only when `createIfUnknown`. */
    method GetPeerState(busName: string, createIfUnknown: bool) returns (peer: Peer)
      modifies this
      ensures busName in old(peerMap) ==> peer == old(peerMap)[busName] && peerMap == old(peerMap)
      ensures busName !in old(peerMap) ==> fresh(peer)
      ensures busName !in old(peerMap) ==>
        peerMap == if createIfUnknown then old(peerMap)[busName := peer] else old(peerMap)
    {
      if busName in peerMap || createIfUnknown {
        if busName !in peerMap {
          peer := new Peer();
          peerMap := peerMap[busName := peer];
        }
        peer := peerMap[busName];
        return;
      }
      peer := new Peer();
    }

    /** `GetPeerState(uniqueName, aliasName)`: looks the peer up under either
        name and links the two names to it, so they are aliases afterwards. */
    method GetPeerStateFor(uniqueName: string, aliasName: string) returns (result: Peer)
      modifies this
      ensures uniqueName in peerMap && aliasName in peerMap
      ensures peerMap[uniqueName] == result && peerMap[aliasName] == result
      ensures uniqueName in old(peerMap) ==> result == old(peerMap)[uniqueName]
      ensures uniqueName !in old(peerMap) && aliasName in old(peerMap) ==> result == old(peerMap)[aliasName]
      ensures uniqueName !in old(peerMap) && aliasName !in old(peerMap) ==> fresh(result)
      ensures forall n :: n in old(peerMap) && n != uniqueName && n != aliasName ==> n in peerMap && peerMap[n] == old(peerMap)[n]
      ensures peerMap.Keys == old(peerMap).Keys + {uniqueName, aliasName}
    {
      if uniqueName !in peerMap {
        if aliasName !in peerMap {
          var created := new Peer();
          peerMap := peerMap[aliasName := created];
        }
        result := peerMap[aliasName];
        peerMap := peerMap[uniqueName := result];
      } else {
        result := peerMap[uniqueName];
        peerMap := peerMap[aliasName := result];
      }
    }

    /** `IsAlias`: equal names, or names that already map to the same peer.
        Looking the names up enters each unknown one under a new peer. */
    method IsAlias(name1: string, name2: string) returns (r: bool)
      modifies this
      ensures r <==> (name1 == name2 ||
        (name1 in old(peerMap) && name2 in old(peerMap) && old(peerMap)[name1] == old(peerMap)[name2]))
      ensures name1 == name2 ==> peerMap == old(peerMap)
      ensures name1 != name2 ==> peerMap.Keys == old(peerMap).Keys + {name1, name2}
      ensures forall n :: n in old(peerMap) ==> n in peerMap && peerMap[n] == old(peerMap)[n]
    {
      if name1 == name2 {
        return true;
      }
      var p1 := GetPeerState(name1, true);
      var p2 := GetPeerState(name2, true);
      r := p1 == p2;
    }
  }
}
