/** The two records of the AllJoyn name-service protocol
    (router/ns/IpNsProtocol.cc): the WHO-HAS question and the IS-AT answer.
    Their first byte holds the message type in its top two bits (1 for
    IS-AT, 2 for WHO-HAS) and flags below; the second byte counts the bus
    names that end the record. What else is on the wire depends on the
    message version, the low nibble of `m_version`: versions 0 and 1 are
    defined. */
module NsRecords {
  import opened CanFrame
  import opened NsWire

  /** `m_version & 0xf`, the message version. */
  function MessageVersion(version: byte): nat
  {
    version % 16
  }

  /** The bit of a flag that is `b`. */
  function FlagBit(b: bool, bit: nat): nat
  {
    if b then bit else 0
  }

  /** `(typeAndFlags & bit) != 0` for a one-bit mask below 0x40. */
  predicate HasFlag(typeAndFlags: byte, bit: nat)
    requires bit > 0
  {
    (typeAndFlags / bit) % 2 == 1
  }

  /** `typeAndFlags & 0xc0`, shifted down: the message type. */
  function MessageType(typeAndFlags: byte): nat
  {
    typeAndFlags / 64
  }

  /** `TRANSPORT_NONE`. */
  const TransportNone: u16 := 0

  /** Four flags in the low bits of a byte: 8, 4, 2 and 1. */
  function Nibble(f8: bool, f4: bool, f2: bool, f1: bool): nat
  {
    FlagBit(f8, 8) + FlagBit(f4, 4) + FlagBit(f2, 2) + FlagBit(f1, 1)
  }

  /** The four low flags are read back from a nibble. */
  lemma NibbleRead(f8: bool, f4: bool, f2: bool, f1: bool)
    ensures Nibble(f8, f4, f2, f1) < 16
    ensures HasFlag(Nibble(f8, f4, f2, f1), 8) == f8 && HasFlag(Nibble(f8, f4, f2, f1), 4) == f4
    ensures HasFlag(Nibble(f8, f4, f2, f1), 2) == f2 && HasFlag(Nibble(f8, f4, f2, f1), 1) == f1
  {
  }

  /** Higher bits do not change the four low flags. */
  lemma LowNibble(k: nat, n: nat)
    requires n < 16 && 16 * k + n < 256
    ensures HasFlag(16 * k + n, 8) == HasFlag(n, 8) && HasFlag(16 * k + n, 4) == HasFlag(n, 4)
    ensures HasFlag(16 * k + n, 2) == HasFlag(n, 2) && HasFlag(16 * k + n, 1) == HasFlag(n, 1)
  {
    assert (16 * k + n) / 8 == 2 * k + n / 8;
    assert (16 * k + n) / 4 == 4 * k + n / 4;
    assert (16 * k + n) / 2 == 8 * k + n / 2;
  }

  /** A WHO-HAS question: which bus names does somebody have? */
  datatype WhoHas = WhoHas(version: byte, transportMask: u16,
    flagT: bool, flagU: bool, flagS: bool, flagF: bool, names: seq<Bytes>)

  /** A new WHO-HAS of the given version, as `SetVersion` leaves it. */
  function FreshWhoHas(version: byte): WhoHas
  {
    WhoHas(version, TransportNone, false, false, false, false, [])
  }

  /** `WhoHas::GetSerializedSize`: two bytes and the names, or 0 for a
      version it does not know. */
  function WhoHasSize(w: WhoHas): nat
  {
    if MessageVersion(w.version) <= 1 then 2 + NamesSize(w.names) else 0
  }

  /** The type-and-flags byte: version 0 carries the T, U, S and F flags;
      every other version has them reserved, except the U bit, always set. */
  function WhoHasFlags(w: WhoHas): byte
  {
    0x80 + if MessageVersion(w.version) == 0 then Nibble(w.flagT, w.flagU, w.flagS, w.flagF) else 4
  }

  /** What `WhoHas::Serialize` writes. */
  function WhoHasBytes(w: WhoHas): Bytes
  {
    [WhoHasFlags(w), LowByte(|w.names|)] + NamesBytes(w.names)
  }

  /** `WhoHas::Deserialize` into `w`: the record and the bytes read, or
      `None` when the buffer is shorter than two bytes, the type is not
      WHO-HAS, or a name cannot be read. The transport mask, never on the
      wire, is reset; the names read are added to those already in `w`. */
  function ParseWhoHas(w: WhoHas, buf: Bytes): Option<(WhoHas, nat)>
  {
    if |buf| < 2 || MessageType(buf[0]) != 2 then None
    else
      var tf := buf[0];
      var flagged :=
        if MessageVersion(w.version) == 0 then
          w.(transportMask := TransportNone, flagT := HasFlag(tf, 8), flagU := HasFlag(tf, 4),
             flagS := HasFlag(tf, 2), flagF := HasFlag(tf, 1))
        else if MessageVersion(w.version) == 1 then
          w.(transportMask := TransportNone, flagT := false, flagU := HasFlag(tf, 4), flagS := false, flagF := false)
        else w.(transportMask := TransportNone);
      match ParseNames(buf[2..], buf[1], w.names, 2)
      case None => None
      case Some((names, used)) => Some((flagged.(names := names), used))
  }

  /** What reading back `Serialize`'s output for `w` leaves in `b`: the
      version-0 flags come from `w`, version 1 reads the U bit as set and
      the other flags as clear, the transport mask is lost, and `w`'s names
      follow `b`'s. */
  function WhoHasReceived(b: WhoHas, w: WhoHas): WhoHas
  {
    var names := b.names + w.names;
    if MessageVersion(w.version) == 0 then
      WhoHas(b.version, TransportNone, w.flagT, w.flagU, w.flagS, w.flagF, names)
    else if MessageVersion(w.version) == 1 then
      WhoHas(b.version, TransportNone, false, true, false, false, names)
    else b.(transportMask := TransportNone, names := names)
  }

  /** A record whose names and name lengths fit their count bytes. */
  predicate WhoHasEncodable(w: WhoHas)
  {
    |w.names| < 256 && ShortNames(w.names)
  }

  lemma WhoHasFlagsRead(w: WhoHas)
    ensures MessageType(WhoHasFlags(w)) == 2
    ensures HasFlag(WhoHasFlags(w), 4) == (w.flagU || MessageVersion(w.version) != 0)
    ensures MessageVersion(w.version) == 0 ==>
      HasFlag(WhoHasFlags(w), 8) == w.flagT && HasFlag(WhoHasFlags(w), 2) == w.flagS &&
      HasFlag(WhoHasFlags(w), 1) == w.flagF
  {
    if MessageVersion(w.version) == 0 {
      NibbleRead(w.flagT, w.flagU, w.flagS, w.flagF);
      LowNibble(8, Nibble(w.flagT, w.flagU, w.flagS, w.flagF));
    } else {
      LowNibble(8, 4);
    }
  }

  /** `Deserialize` reads back exactly what `Serialize` wrote, into any
      record of the same version. */
  lemma WhoHasRoundTrip(b: WhoHas, w: WhoHas, rest: Bytes)
    requires WhoHasEncodable(w) && b.version == w.version
    ensures ParseWhoHas(b, WhoHasBytes(w) + rest) == Some((WhoHasReceived(b, w), |WhoHasBytes(w)|))
  {
    var buf := WhoHasBytes(w) + rest;
    WhoHasFlagsRead(w);
    LowByteSmall(|w.names|);
    assert buf[0] == WhoHasFlags(w) && buf[1] == |w.names|;
    assert buf[2..] == NamesBytes(w.names) + rest;
    NamesRoundTrip(w.names, rest, b.names, 2);
  }

  /** A version-0 question without a transport mask comes back whole. */
  lemma WhoHasRestored(w: WhoHas, rest: Bytes)
    requires WhoHasEncodable(w) && MessageVersion(w.version) == 0 && w.transportMask == TransportNone
    ensures ParseWhoHas(w.(names := []), WhoHasBytes(w) + rest) == Some((w, |WhoHasBytes(w)|))
  {
    WhoHasRoundTrip(w.(names := []), w, rest);
    assert [] + w.names == w.names;
  }

  /** A buffer shorter than two bytes, or one whose top two bits are not
      10, is not a WHO-HAS. */
  lemma WhoHasRejected(w: WhoHas, buf: Bytes)
    requires |buf| < 2 || MessageType(buf[0]) != 2
    ensures ParseWhoHas(w, buf) == None
  {
  }

  /** For versions 0 and 1 `GetSerializedSize` is what `Serialize` writes;
      for any other version it is 0 while `Serialize` still writes the
      record (the source asserts this cannot happen). */
  lemma WhoHasSizeCoherent(w: WhoHas)
    ensures MessageVersion(w.version) <= 1 ==> WhoHasSize(w) == |WhoHasBytes(w)|
    ensures MessageVersion(w.version) > 1 ==> WhoHasSize(w) == 0 < |WhoHasBytes(w)|
  {
    NamesSizeCoherent(w.names);
  }

  /** `WhoHas::GetSerializedSize`. */
  method WhoHasSerializedSize(w: WhoHas) returns (size: nat)
    ensures size == WhoHasSize(w)
  {
    size := 0;
    if MessageVersion(w.version) <= 1 {
      size := 2;
      var names := MeasureNames(w.names);
      size := size + names;
    }
  }

  /** `WhoHas::Serialize`: the bytes written and their number. */
  method SerializeWhoHas(w: WhoHas) returns (out: Bytes, size: nat)
    ensures out == WhoHasBytes(w) && size == |out|
  {
    var typeAndFlags: nat := 0x80;
    if MessageVersion(w.version) == 0 {
      if w.flagT { typeAndFlags := typeAndFlags + 8; }
      if w.flagU { typeAndFlags := typeAndFlags + 4; }
      if w.flagS { typeAndFlags := typeAndFlags + 2; }
      if w.flagF { typeAndFlags := typeAndFlags + 1; }
    } else {
      typeAndFlags := typeAndFlags + 4;
    }
    out := [typeAndFlags, LowByte(|w.names|)];
    var names := SerializeNames(w.names);
    out := out + names;
    size := |out|;
  }

  /** `WhoHas::Deserialize`: `size` is 0 when the buffer does not hold a
      WHO-HAS; otherwise `r` is the record read. */
  method DeserializeWhoHas(w: WhoHas, buf: Bytes) returns (r: WhoHas, size: nat)
    ensures size == 0 <==> ParseWhoHas(w, buf).None?
    ensures size != 0 ==> ParseWhoHas(w, buf) == Some((r, size))
  {
    r := w;
    if |buf| < 2 {
      return r, 0;
    }
    var typeAndFlags := buf[0];
    if MessageType(typeAndFlags) != 2 {
      return r, 0;
    }
    r := r.(transportMask := TransportNone);
    if MessageVersion(w.version) == 0 {
      r := r.(flagT := HasFlag(typeAndFlags, 8), flagU := HasFlag(typeAndFlags, 4),
              flagS := HasFlag(typeAndFlags, 2), flagF := HasFlag(typeAndFlags, 1));
    } else if MessageVersion(w.version) == 1 {
      r := r.(flagU := HasFlag(typeAndFlags, 4), flagT := false, flagS := false, flagF := false);
    }
    var ok, names, used := DeserializeNames(buf[2..], buf[1], w.names);
    ParseNamesShift(buf[2..], buf[1], w.names, 0, 2);
    if !ok {
      return r, 0;
    }
    r := r.(names := names);
    size := 2 + used;
  }

  /** Reading names never reports fewer bytes than were read before. */
  lemma {:induction false} ParseNamesAtLeast(buf: Bytes, k: nat, acc: seq<Bytes>, used: nat)
    ensures ParseNames(buf, k, acc, used).Some? ==> ParseNames(buf, k, acc, used).value.1 >= used
    decreases k
  {
    if k > 0 {
      match ParseString(buf)
      case None =>
      case Some((s, n)) => ParseNamesAtLeast(buf[n..], k - 1, acc + [s], used + n);
    }
  }

  /** Starting the count of bytes read higher shifts the result by as much. */
  lemma {:induction false} ParseNamesShift(buf: Bytes, k: nat, acc: seq<Bytes>, used: nat, extra: nat)
    ensures ParseNames(buf, k, acc, used + extra).Some? == ParseNames(buf, k, acc, used).Some?
    ensures ParseNames(buf, k, acc, used).Some? ==>
      ParseNames(buf, k, acc, used + extra) ==
        Some((ParseNames(buf, k, acc, used).value.0, ParseNames(buf, k, acc, used).value.1 + extra))
    decreases k
  {
    if k > 0 {
      match ParseString(buf)
      case None =>
      case Some((s, n)) =>
        assert used + extra + n == (used + n) + extra;
        ParseNamesShift(buf[n..], k - 1, acc + [s], used + n, extra);
    }
  }

  type Addr4 = s: Bytes | |s| == 4 witness [0, 0, 0, 0]
  type Addr6 = s: Bytes | |s| == 16 witness [0, 0, 0, 0, 0, 0, 0, 0, 0, 0, 0, 0, 0, 0, 0, 0]

  /** An address and port that an IS-AT can advertise. */
  datatype Endpoint = Endpoint(addr: Bytes, port: u16)

  /** An IS-AT answer: the bus names a daemon has and where to reach it.
      Version 0 uses `port`, `ipv4` (flag F) and `ipv6` (flag S); version 1
      uses the transport mask and four endpoints, each present with its flag
      (R4, U4, R6, U6). Flag G says a GUID string follows, flag C that the
      list of names is complete. Addresses are held in their binary form. */
  datatype IsAt = IsAt(version: byte,
    flagG: bool, flagC: bool, flagT: bool, flagU: bool, flagS: bool, flagF: bool,
    flagR4: bool, flagU4: bool, flagR6: bool, flagU6: bool,
    port: u16, transportMask: u16, ipv4: Addr4, ipv6: Addr6, guid: Bytes,
    reliable4: Endpoint, unreliable4: Endpoint, reliable6: Endpoint, unreliable6: Endpoint,
    names: seq<Bytes>)

  function NoEndpoint(): Endpoint
  {
    Endpoint([], 0)
  }

  /** A new IS-AT of the given version, as the constructor and `SetVersion`
      leave it. */
  function FreshIsAt(version: byte): IsAt
  {
    IsAt(version, false, false, false, false, false, false, false, false, false, false,
      0, TransportNone, [0, 0, 0, 0], [0, 0, 0, 0, 0, 0, 0, 0, 0, 0, 0, 0, 0, 0, 0, 0], [],
      NoEndpoint(), NoEndpoint(), NoEndpoint(), NoEndpoint(), [])
  }

  /** The bytes of a present optional part, nothing for an absent one. */
  function Optional(present: bool, bytes: Bytes): Bytes
  {
    if present then bytes else []
  }

  /** An endpoint on the wire: the address, then the port in network byte
      order. */
  function EndpointBytes(e: Endpoint): Bytes
  {
    e.addr + BigEndian(e.port)
  }

  /** An IS-AT type-and-flags byte: type 01 in the top bits, then G, C and
      four flags that depend on the version. */
  function IsAtFlagByte(g: bool, c: bool, f8: bool, f4: bool, f2: bool, f1: bool): byte
  {
    0x40 + FlagBit(g, 0x20) + FlagBit(c, 0x10) + Nibble(f8, f4, f2, f1)
  }

  /** The type-and-flags byte of an IS-AT. */
  function IsAtFlags(a: IsAt): byte
  {
    if MessageVersion(a.version) == 0 then IsAtFlagByte(a.flagG, a.flagC, a.flagT, a.flagU, a.flagS, a.flagF)
    else IsAtFlagByte(a.flagG, a.flagC, a.flagR4, a.flagU4, a.flagR6, a.flagU6)
  }

  /** The GUID, when flag G is set, and the names. */
  function IsAtTail(a: IsAt): Bytes
  {
    Optional(a.flagG, StringBytes(a.guid)) + NamesBytes(a.names)
  }

  /** The four version-1 endpoints that are present, in order, then the tail. */
  function IsAtEndpoints(a: IsAt): Bytes
  {
    Optional(a.flagR4, EndpointBytes(a.reliable4)) +
    (Optional(a.flagU4, EndpointBytes(a.unreliable4)) +
    (Optional(a.flagR6, EndpointBytes(a.reliable6)) +
    (Optional(a.flagU6, EndpointBytes(a.unreliable6)) + IsAtTail(a))))
  }

  /** What `IsAt::Serialize` writes: nothing for an unknown version. */
  function IsAtBytes(a: IsAt): Bytes
  {
    if MessageVersion(a.version) == 0 then
      [IsAtFlags(a), LowByte(|a.names|)] + (BigEndian(a.port) +
      (Optional(a.flagF, a.ipv4) + (Optional(a.flagS, a.ipv6) + IsAtTail(a))))
    else if MessageVersion(a.version) == 1 then
      [IsAtFlags(a), LowByte(|a.names|)] + (BigEndian(a.transportMask) + IsAtEndpoints(a))
    else []
  }

  /** `IsAt::GetSerializedSize`: 0 for an unknown version. */
  function IsAtSize(a: IsAt): nat
  {
    var tail := (if a.flagG then StringSize(a.guid) else 0) + NamesSize(a.names);
    if MessageVersion(a.version) == 0 then
      4 + (if a.flagF then 4 else 0) + (if a.flagS then 16 else 0) + tail
    else if MessageVersion(a.version) == 1 then
      4 + (if a.flagR4 then 6 else 0) + (if a.flagU4 then 6 else 0) +
      (if a.flagR6 then 18 else 0) + (if a.flagU6 then 18 else 0) + tail
    else 0
  }

  /** Reading the GUID, when flag G is set, then `count` names. */
  function ParseIsAtTail(a: IsAt, buf: Bytes, count: nat, used: nat): Option<(IsAt, nat)>
  {
    if a.flagG then
      match ParseString(buf)
      case None => None
      case Some((guid, n)) => ParseIsAtNames(a.(guid := guid), buf[n..], count, used + n)
    else ParseIsAtNames(a, buf, count, used)
  }

  function ParseIsAtNames(a: IsAt, buf: Bytes, count: nat, used: nat): Option<(IsAt, nat)>
  {
    match ParseNames(buf, count, a.names, used)
    case None => None
    case Some((names, n)) => Some((a.(names := names), n))
  }

  /** An endpoint with an address of `len` bytes, or `None` when the buffer
      is too short for it and its port. */
  function ParseEndpoint(buf: Bytes, len: nat): Option<Endpoint>
  {
    if |buf| < len + 2 then None else Some(Endpoint(buf[..len], ReadBigEndian(buf[len], buf[len + 1])))
  }

  /** The version-1 endpoints, each read when its flag is set: reliable
      IPv4, unreliable IPv4, reliable IPv6, unreliable IPv6. */
  function ParseReliable4(a: IsAt, buf: Bytes, count: nat, used: nat): Option<(IsAt, nat)>
  {
    if !a.flagR4 then ParseUnreliable4(a, buf, count, used)
    else match ParseEndpoint(buf, 4)
      case None => None
      case Some(e) => ParseUnreliable4(a.(reliable4 := e), buf[6..], count, used + 6)
  }

  function ParseUnreliable4(a: IsAt, buf: Bytes, count: nat, used: nat): Option<(IsAt, nat)>
  {
    if !a.flagU4 then ParseReliable6(a, buf, count, used)
    else match ParseEndpoint(buf, 4)
      case None => None
      case Some(e) => ParseReliable6(a.(unreliable4 := e), buf[6..], count, used + 6)
  }

  function ParseReliable6(a: IsAt, buf: Bytes, count: nat, used: nat): Option<(IsAt, nat)>
  {
    if !a.flagR6 then ParseUnreliable6(a, buf, count, used)
    else match ParseEndpoint(buf, 16)
      case None => None
      case Some(e) => ParseUnreliable6(a.(reliable6 := e), buf[18..], count, used + 18)
  }

  function ParseUnreliable6(a: IsAt, buf: Bytes, count: nat, used: nat): Option<(IsAt, nat)>
  {
    if !a.flagU6 then ParseIsAtTail(a, buf, count, used)
    else match ParseEndpoint(buf, 16)
      case None => None
      case Some(e) => ParseIsAtTail(a.(unreliable6 := e), buf[18..], count, used + 18)
  }

  /** The version-0 addresses: IPv4 when flag F is set, then IPv6 when flag
      S is. */
  function ParseIpv4(a: IsAt, buf: Bytes, count: nat, used: nat): Option<(IsAt, nat)>
  {
    if !a.flagF then ParseIpv6(a, buf, count, used)
    else if |buf| < 4 then None
    else ParseIpv6(a.(ipv4 := buf[..4]), buf[4..], count, used + 4)
  }

  function ParseIpv6(a: IsAt, buf: Bytes, count: nat, used: nat): Option<(IsAt, nat)>
  {
    if !a.flagS then ParseIsAtTail(a, buf, count, used)
    else if |buf| < 16 then None
    else ParseIsAtTail(a.(ipv6 := buf[..16]), buf[16..], count, used + 16)
  }

  /** `IsAt::Deserialize` into `a`: the record and the bytes read, or `None`
      when the version is unknown, the buffer is shorter than four bytes,
      the type is not IS-AT, or a part the flags announce is missing. */
  function ParseIsAt(a: IsAt, buf: Bytes): Option<(IsAt, nat)>
  {
    if MessageVersion(a.version) > 1 || |buf| < 4 || MessageType(buf[0]) != 1 then None
    else if MessageVersion(a.version) == 0 then
      ParseIpv4(Version0Header(a, buf[0], ReadBigEndian(buf[2], buf[3])), buf[4..], buf[1], 4)
    else
      ParseReliable4(Version1Header(a, buf[0], ReadBigEndian(buf[2], buf[3])), buf[4..], buf[1], 4)
  }

  /** The flags of a version-0 type-and-flags byte `tf` and the port `x`. */
  function Version0Header(a: IsAt, tf: byte, x: u16): IsAt
  {
    a.(flagG := HasFlag(tf, 0x20), flagC := HasFlag(tf, 0x10))
      .(flagT := HasFlag(tf, 8), flagU := HasFlag(tf, 4), flagS := HasFlag(tf, 2), flagF := HasFlag(tf, 1), port := x)
  }

  /** The flags of a version-1 type-and-flags byte `tf` and the transport
      mask `x`. */
  function Version1Header(a: IsAt, tf: byte, x: u16): IsAt
  {
    a.(flagG := HasFlag(tf, 0x20), flagC := HasFlag(tf, 0x10))
      .(flagR4 := HasFlag(tf, 8), flagU4 := HasFlag(tf, 4), flagR6 := HasFlag(tf, 2), flagU6 := HasFlag(tf, 1),
        transportMask := x)
  }

  /** Every endpoint the flags announce has an address of its family's
      length: 4 bytes for IPv4, 16 for IPv6. Absent endpoints are not
      written and may hold anything. */
  predicate EndpointsFit(a: IsAt)
  {
    (a.flagR4 ==> |a.reliable4.addr| == 4) && (a.flagU4 ==> |a.unreliable4.addr| == 4) &&
    (a.flagR6 ==> |a.reliable6.addr| == 16) && (a.flagU6 ==> |a.unreliable6.addr| == 16)
  }

  /** A record whose counts and lengths fit their bytes and whose present
      endpoints have addresses of the right length. */
  predicate IsAtEncodable(a: IsAt)
  {
    |a.names| < 256 && ShortNames(a.names) && |a.guid| < 256 && EndpointsFit(a)
  }

  /** What reading back `Serialize`'s output for `a` leaves in `b`: the
      flags, the parts the version puts on the wire and present per its
      flags come from `a`, everything else stays as in `b`, and `a`'s names
      follow `b`'s. */
  function IsAtReceived(b: IsAt, a: IsAt): IsAt
  {
    if MessageVersion(a.version) == 0 then
      AddressesReceived(b.(flagG := a.flagG, flagC := a.flagC, flagT := a.flagT, flagU := a.flagU,
        flagS := a.flagS, flagF := a.flagF, port := a.port), a)
    else
      EndpointsReceived(b.(flagG := a.flagG, flagC := a.flagC, flagR4 := a.flagR4, flagU4 := a.flagU4,
        flagR6 := a.flagR6, flagU6 := a.flagU6, transportMask := a.transportMask), a)
  }

  /** The version-0 addresses present in `a`, its GUID when present and its
      names, read into `b`. */
  function AddressesReceived(b: IsAt, a: IsAt): IsAt
  {
    b.(ipv4 := if a.flagF then a.ipv4 else b.ipv4, ipv6 := if a.flagS then a.ipv6 else b.ipv6,
      names := b.names + a.names, guid := if a.flagG then a.guid else b.guid)
  }

  /** The version-1 endpoints present in `a`, its GUID when present and its
      names, read into `b`. */
  function EndpointsReceived(b: IsAt, a: IsAt): IsAt
  {
    b.(reliable4 := if a.flagR4 then a.reliable4 else b.reliable4,
      unreliable4 := if a.flagU4 then a.unreliable4 else b.unreliable4,
      reliable6 := if a.flagR6 then a.reliable6 else b.reliable6,
      unreliable6 := if a.flagU6 then a.unreliable6 else b.unreliable6,
      names := b.names + a.names, guid := if a.flagG then a.guid else b.guid)
  }

  /** The type and flags G and C are read back whatever the low nibble. */
  lemma HighRead(g: bool, c: bool, low: nat)
    requires low < 16
    ensures MessageType(0x40 + FlagBit(g, 0x20) + FlagBit(c, 0x10) + low) == 1
    ensures HasFlag(0x40 + FlagBit(g, 0x20) + FlagBit(c, 0x10) + low, 0x20) == g
    ensures HasFlag(0x40 + FlagBit(g, 0x20) + FlagBit(c, 0x10) + low, 0x10) == c
  {
  }

  lemma IsAtFlagByteRead(g: bool, c: bool, f8: bool, f4: bool, f2: bool, f1: bool)
    ensures MessageType(IsAtFlagByte(g, c, f8, f4, f2, f1)) == 1
    ensures HasFlag(IsAtFlagByte(g, c, f8, f4, f2, f1), 0x20) == g
    ensures HasFlag(IsAtFlagByte(g, c, f8, f4, f2, f1), 0x10) == c
    ensures HasFlag(IsAtFlagByte(g, c, f8, f4, f2, f1), 8) == f8
    ensures HasFlag(IsAtFlagByte(g, c, f8, f4, f2, f1), 4) == f4
    ensures HasFlag(IsAtFlagByte(g, c, f8, f4, f2, f1), 2) == f2
    ensures HasFlag(IsAtFlagByte(g, c, f8, f4, f2, f1), 1) == f1
  {
    var n := Nibble(f8, f4, f2, f1);
    NibbleRead(f8, f4, f2, f1);
    HighRead(g, c, n);
    LowNibble(4 + (if g then 2 else 0) + (if c then 1 else 0), n);
  }

  /** Each flag of the record is read back from its bit of the byte. */
  lemma IsAtFlagsRead(a: IsAt)
    ensures MessageType(IsAtFlags(a)) == 1
    ensures HasFlag(IsAtFlags(a), 0x20) == a.flagG && HasFlag(IsAtFlags(a), 0x10) == a.flagC
    ensures MessageVersion(a.version) == 0 ==>
      HasFlag(IsAtFlags(a), 8) == a.flagT && HasFlag(IsAtFlags(a), 4) == a.flagU &&
      HasFlag(IsAtFlags(a), 2) == a.flagS && HasFlag(IsAtFlags(a), 1) == a.flagF
    ensures MessageVersion(a.version) != 0 ==>
      HasFlag(IsAtFlags(a), 8) == a.flagR4 && HasFlag(IsAtFlags(a), 4) == a.flagU4 &&
      HasFlag(IsAtFlags(a), 2) == a.flagR6 && HasFlag(IsAtFlags(a), 1) == a.flagU6
  {
    if MessageVersion(a.version) == 0 {
      IsAtFlagByteRead(a.flagG, a.flagC, a.flagT, a.flagU, a.flagS, a.flagF);
    } else {
      IsAtFlagByteRead(a.flagG, a.flagC, a.flagR4, a.flagU4, a.flagR6, a.flagU6);
    }
  }

  lemma IsAtNamesRoundTrip(b: IsAt, names: seq<Bytes>, rest: Bytes, used: nat)
    requires ShortNames(names)
    ensures ParseIsAtNames(b, NamesBytes(names) + rest, |names|, used) ==
      Some((b.(names := b.names + names), used + |NamesBytes(names)|))
  {
    NamesRoundTrip(names, rest, b.names, used);
  }

  lemma GuidRoundTrip(b: IsAt, a: IsAt, rest: Bytes, used: nat)
    requires IsAtEncodable(a) && b.flagG && a.flagG
    ensures ParseIsAtTail(b, IsAtTail(a) + rest, |a.names|, used) ==
      Some((b.(names := b.names + a.names, guid := a.guid), used + |IsAtTail(a)|))
  {
    var tail := NamesBytes(a.names) + rest;
    assert IsAtTail(a) + rest == StringBytes(a.guid) + tail;
    StringRoundTrip(a.guid, tail);
    assert (StringBytes(a.guid) + tail)[StringSize(a.guid)..] == tail;
    IsAtNamesRoundTrip(b.(guid := a.guid), a.names, rest, used + StringSize(a.guid));
  }

  /** A successful read of the tail reports at least the bytes read before
      it. */
  lemma ParseIsAtUsed(a: IsAt, buf: Bytes, count: nat, used: nat)
    ensures ParseIsAtTail(a, buf, count, used).Some? ==> ParseIsAtTail(a, buf, count, used).value.1 >= used
  {
    if a.flagG {
      match ParseString(buf)
      case None =>
      case Some((guid, n)) => ParseNamesAtLeast(buf[n..], count, a.names, used + n);
    } else {
      ParseNamesAtLeast(buf, count, a.names, used);
    }
  }

  /** The tail is read back: the GUID when flag G is set, then the names. */
  lemma IsAtTailRoundTrip(b: IsAt, a: IsAt, rest: Bytes, used: nat)
    requires IsAtEncodable(a) && b.flagG == a.flagG
    ensures ParseIsAtTail(b, IsAtTail(a) + rest, |a.names|, used) ==
      Some((b.(names := b.names + a.names, guid := if a.flagG then a.guid else b.guid), used + |IsAtTail(a)|))
  {
    if a.flagG {
      GuidRoundTrip(b, a, rest, used);
    } else {
      assert IsAtTail(a) + rest == NamesBytes(a.names) + rest;
      IsAtNamesRoundTrip(b, a.names, rest, used);
    }
  }

  /** One endpoint is read back, and the buffer after it is the rest. */
  lemma EndpointRoundTrip(e: Endpoint, len: nat, rest: Bytes)
    requires |e.addr| == len
    ensures ParseEndpoint(EndpointBytes(e) + rest, len) == Some(e)
    ensures (EndpointBytes(e) + rest)[len + 2..] == rest
  {
    var buf := EndpointBytes(e) + rest;
    assert buf[..len] == e.addr;
    assert buf[len] == BigEndian(e.port)[0] && buf[len + 1] == BigEndian(e.port)[1];
    BigEndianRoundTrip(e.port);
  }

  /** `b` with the endpoint that `a` flags as present taken from `a`. */
  function WithReliable4(b: IsAt, a: IsAt): IsAt
  {
    b.(reliable4 := if a.flagR4 then a.reliable4 else b.reliable4)
  }

  function WithUnreliable4(b: IsAt, a: IsAt): IsAt
  {
    b.(unreliable4 := if a.flagU4 then a.unreliable4 else b.unreliable4)
  }

  function WithReliable6(b: IsAt, a: IsAt): IsAt
  {
    b.(reliable6 := if a.flagR6 then a.reliable6 else b.reliable6)
  }

  function WithUnreliable6(b: IsAt, a: IsAt): IsAt
  {
    b.(unreliable6 := if a.flagU6 then a.unreliable6 else b.unreliable6)
  }

  /** Each step of the version-1 parse reads its endpoint when the flag is
      set, whatever follows. */
  lemma Reliable4Step(b: IsAt, a: IsAt, after: Bytes, count: nat, used: nat)
    requires b.flagR4 == a.flagR4 && (a.flagR4 ==> |a.reliable4.addr| == 4)
    ensures ParseReliable4(b, Optional(a.flagR4, EndpointBytes(a.reliable4)) + after, count, used) ==
      ParseUnreliable4(WithReliable4(b, a), after, count,
        used + |Optional(a.flagR4, EndpointBytes(a.reliable4))|)
  {
    if a.flagR4 {
      EndpointRoundTrip(a.reliable4, 4, after);
    } else {
      assert [] + after == after;
    }
  }

  lemma Unreliable4Step(b: IsAt, a: IsAt, after: Bytes, count: nat, used: nat)
    requires b.flagU4 == a.flagU4 && (a.flagU4 ==> |a.unreliable4.addr| == 4)
    ensures ParseUnreliable4(b, Optional(a.flagU4, EndpointBytes(a.unreliable4)) + after, count, used) ==
      ParseReliable6(WithUnreliable4(b, a), after, count,
        used + |Optional(a.flagU4, EndpointBytes(a.unreliable4))|)
  {
    if a.flagU4 {
      EndpointRoundTrip(a.unreliable4, 4, after);
    } else {
      assert [] + after == after;
    }
  }

  lemma Reliable6Step(b: IsAt, a: IsAt, after: Bytes, count: nat, used: nat)
    requires b.flagR6 == a.flagR6 && (a.flagR6 ==> |a.reliable6.addr| == 16)
    ensures ParseReliable6(b, Optional(a.flagR6, EndpointBytes(a.reliable6)) + after, count, used) ==
      ParseUnreliable6(WithReliable6(b, a), after, count,
        used + |Optional(a.flagR6, EndpointBytes(a.reliable6))|)
  {
    if a.flagR6 {
      EndpointRoundTrip(a.reliable6, 16, after);
    } else {
      assert [] + after == after;
    }
  }

  lemma Unreliable6Step(b: IsAt, a: IsAt, after: Bytes, count: nat, used: nat)
    requires b.flagU6 == a.flagU6 && (a.flagU6 ==> |a.unreliable6.addr| == 16)
    ensures ParseUnreliable6(b, Optional(a.flagU6, EndpointBytes(a.unreliable6)) + after, count, used) ==
      ParseIsAtTail(WithUnreliable6(b, a), after, count,
        used + |Optional(a.flagU6, EndpointBytes(a.unreliable6))|)
  {
    if a.flagU6 {
      EndpointRoundTrip(a.unreliable6, 16, after);
    } else {
      assert [] + after == after;
    }
  }

  /** The record after the four version-1 endpoint steps. */
  function EndpointsRead(b: IsAt, a: IsAt): IsAt
  {
    WithUnreliable6(WithReliable6(WithUnreliable4(WithReliable4(b, a), a), a), a)
  }

  lemma EndpointsReadReceived(b: IsAt, a: IsAt)
    ensures EndpointsRead(b, a).(names := b.names + a.names, guid := if a.flagG then a.guid else b.guid) ==
      EndpointsReceived(b, a)
  {
  }

  /** The four endpoint steps in a row, whatever follows them. */
  lemma EndpointsChain(b: IsAt, a: IsAt, after: Bytes, count: nat, used: nat)
    requires a.flagR4 ==> |a.reliable4.addr| == 4
    requires a.flagU4 ==> |a.unreliable4.addr| == 4
    requires a.flagR6 ==> |a.reliable6.addr| == 16
    requires a.flagU6 ==> |a.unreliable6.addr| == 16
    requires b.flagR4 == a.flagR4 && b.flagU4 == a.flagU4
    requires b.flagR6 == a.flagR6 && b.flagU6 == a.flagU6
    ensures ParseReliable4(b, Optional(a.flagR4, EndpointBytes(a.reliable4)) +
      (Optional(a.flagU4, EndpointBytes(a.unreliable4)) + (Optional(a.flagR6, EndpointBytes(a.reliable6)) +
      (Optional(a.flagU6, EndpointBytes(a.unreliable6)) + after))), count, used) ==
      ParseIsAtTail(EndpointsRead(b, a), after, count, used + |Optional(a.flagR4, EndpointBytes(a.reliable4))| +
        |Optional(a.flagU4, EndpointBytes(a.unreliable4))| + |Optional(a.flagR6, EndpointBytes(a.reliable6))| +
        |Optional(a.flagU6, EndpointBytes(a.unreliable6))|)
  {
    var o1, o2 := Optional(a.flagR4, EndpointBytes(a.reliable4)), Optional(a.flagU4, EndpointBytes(a.unreliable4));
    var o3, o4 := Optional(a.flagR6, EndpointBytes(a.reliable6)), Optional(a.flagU6, EndpointBytes(a.unreliable6));
    var b1 := WithReliable4(b, a);
    var b2 := WithUnreliable4(b1, a);
    var b3 := WithReliable6(b2, a);
    Reliable4Step(b, a, o2 + (o3 + (o4 + after)), count, used);
    Unreliable4Step(b1, a, o3 + (o4 + after), count, used + |o1|);
    Reliable6Step(b2, a, o4 + after, count, used + |o1| + |o2|);
    Unreliable6Step(b3, a, after, count, used + |o1| + |o2| + |o3|);
  }

  /** The endpoints followed by more bytes, regrouped one part at a time. */
  lemma EndpointsSplit(a: IsAt, rest: Bytes)
    ensures IsAtEndpoints(a) + rest == Optional(a.flagR4, EndpointBytes(a.reliable4)) +
      (Optional(a.flagU4, EndpointBytes(a.unreliable4)) + (Optional(a.flagR6, EndpointBytes(a.reliable6)) +
      (Optional(a.flagU6, EndpointBytes(a.unreliable6)) + (IsAtTail(a) + rest))))
  {
    var o1, o2 := Optional(a.flagR4, EndpointBytes(a.reliable4)), Optional(a.flagU4, EndpointBytes(a.unreliable4));
    var o3, o4 := Optional(a.flagR6, EndpointBytes(a.reliable6)), Optional(a.flagU6, EndpointBytes(a.unreliable6));
    var t := IsAtTail(a);
    AppendAssoc(o4, t, rest);
    AppendAssoc(o3, o4 + t, rest);
    AppendAssoc(o2, o3 + (o4 + t), rest);
    AppendAssoc(o1, o2 + (o3 + (o4 + t)), rest);
  }

  /** The version-1 endpoints and the tail are read back. */
  lemma EndpointsRoundTrip(b: IsAt, a: IsAt, rest: Bytes, used: nat)
    requires IsAtEncodable(a) && b.flagG == a.flagG && b.flagR4 == a.flagR4 && b.flagU4 == a.flagU4
    requires b.flagR6 == a.flagR6 && b.flagU6 == a.flagU6
    ensures ParseReliable4(b, IsAtEndpoints(a) + rest, |a.names|, used) ==
      Some((EndpointsReceived(b, a), used + |IsAtEndpoints(a)|))
  {
    var t := IsAtTail(a);
    EndpointsSplit(a, rest);
    EndpointsChain(b, a, t + rest, |a.names|, used);
    var n := used + |Optional(a.flagR4, EndpointBytes(a.reliable4))| +
      |Optional(a.flagU4, EndpointBytes(a.unreliable4))| + |Optional(a.flagR6, EndpointBytes(a.reliable6))| +
      |Optional(a.flagU6, EndpointBytes(a.unreliable6))|;
    IsAtTailRoundTrip(EndpointsRead(b, a), a, rest, n);
    EndpointsReadReceived(b, a);
    assert n + |t| == used + |IsAtEndpoints(a)|;
  }

  lemma Ipv4Step(b: IsAt, a: IsAt, after: Bytes, count: nat, used: nat)
    requires b.flagF == a.flagF
    ensures ParseIpv4(b, Optional(a.flagF, a.ipv4) + after, count, used) ==
      ParseIpv6(WithIpv4(b, a), after, count, used + |Optional(a.flagF, a.ipv4)|)
  {
    if a.flagF {
      assert (a.ipv4 + after)[..4] == a.ipv4 && (a.ipv4 + after)[4..] == after;
    } else {
      assert [] + after == after;
    }
  }

  lemma Ipv6Step(b: IsAt, a: IsAt, after: Bytes, count: nat, used: nat)
    requires b.flagS == a.flagS
    ensures ParseIpv6(b, Optional(a.flagS, a.ipv6) + after, count, used) ==
      ParseIsAtTail(WithIpv6(b, a), after, count, used + |Optional(a.flagS, a.ipv6)|)
  {
    if a.flagS {
      assert (a.ipv6 + after)[..16] == a.ipv6 && (a.ipv6 + after)[16..] == after;
    } else {
      assert [] + after == after;
    }
  }

  /** `b` with the addresses that `a` flags as present taken from `a`. */
  function WithIpv4(b: IsAt, a: IsAt): IsAt
  {
    b.(ipv4 := if a.flagF then a.ipv4 else b.ipv4)
  }

  function WithIpv6(b: IsAt, a: IsAt): IsAt
  {
    b.(ipv6 := if a.flagS then a.ipv6 else b.ipv6)
  }

  lemma AddressesReadReceived(b: IsAt, a: IsAt)
    ensures WithIpv6(WithIpv4(b, a), a).(names := b.names + a.names, guid := if a.flagG then a.guid else b.guid) ==
      AddressesReceived(b, a)
  {
  }

  /** The version-0 addresses and the tail are read back. */
  lemma AddressesRoundTrip(b: IsAt, a: IsAt, rest: Bytes, used: nat)
    requires IsAtEncodable(a) && b.flagG == a.flagG && b.flagF == a.flagF && b.flagS == a.flagS
    ensures ParseIpv4(b, Optional(a.flagF, a.ipv4) + (Optional(a.flagS, a.ipv6) + IsAtTail(a)) + rest, |a.names|, used) ==
      Some((AddressesReceived(b, a),
        used + |Optional(a.flagF, a.ipv4) + (Optional(a.flagS, a.ipv6) + IsAtTail(a))|))
  {
    var o1, o2 := Optional(a.flagF, a.ipv4), Optional(a.flagS, a.ipv6);
    var t := IsAtTail(a);
    AppendAssoc(o2, t, rest);
    AppendAssoc(o1, o2 + t, rest);
    Ipv4Step(b, a, o2 + t + rest, |a.names|, used);
    Ipv6Step(WithIpv4(b, a), a, t + rest, |a.names|, used + |o1|);
    IsAtTailRoundTrip(WithIpv6(WithIpv4(b, a), a), a, rest, used + |o1| + |o2|);
    AddressesReadReceived(b, a);
  }

  /** A type-and-flags byte, a count and a 16-bit field, then the body. */
  lemma FixedPart(tf: byte, count: byte, x: u16, body: Bytes, rest: Bytes)
    ensures |[tf, count] + (BigEndian(x) + body) + rest| >= 4
    ensures ([tf, count] + (BigEndian(x) + body) + rest)[0] == tf
    ensures ([tf, count] + (BigEndian(x) + body) + rest)[1] == count
    ensures ReadBigEndian(([tf, count] + (BigEndian(x) + body) + rest)[2], ([tf, count] + (BigEndian(x) + body) + rest)[3]) == x
    ensures ([tf, count] + (BigEndian(x) + body) + rest)[4..] == body + rest
  {
    var buf := [tf, count] + (BigEndian(x) + body) + rest;
    assert buf[2] == BigEndian(x)[0] && buf[3] == BigEndian(x)[1];
    BigEndianRoundTrip(x);
  }

  lemma IsAtTypeRead(a: IsAt)
    ensures MessageType(IsAtFlags(a)) == 1
  {
    IsAtFlagsRead(a);
  }

  /** A version-0 IS-AT whose first byte has type 1 is read past its fixed
      part. */
  lemma HeadRead0(b: IsAt, tf: byte, count: byte, x: u16, body: Bytes, rest: Bytes)
    requires MessageType(tf) == 1 && MessageVersion(b.version) == 0
    ensures ParseIsAt(b, [tf, count] + (BigEndian(x) + body) + rest) ==
      ParseIpv4(Version0Header(b, tf, x), body + rest, count, 4)
  {
    FixedPart(tf, count, x, body, rest);
  }

  /** A version-1 IS-AT whose first byte has type 1 is read past its fixed
      part. */
  lemma HeadRead1(b: IsAt, tf: byte, count: byte, x: u16, body: Bytes, rest: Bytes)
    requires MessageType(tf) == 1 && MessageVersion(b.version) == 1
    ensures ParseIsAt(b, [tf, count] + (BigEndian(x) + body) + rest) ==
      ParseReliable4(Version1Header(b, tf, x), body + rest, count, 4)
  {
    FixedPart(tf, count, x, body, rest);
  }

  /** The fixed part of a written version-0 IS-AT, then the rest of it. */
  lemma IsAtLayout0(a: IsAt)
    requires MessageVersion(a.version) == 0 && |a.names| < 256
    ensures IsAtBytes(a) == [IsAtFlags(a), |a.names|] +
      (BigEndian(a.port) + (Optional(a.flagF, a.ipv4) + (Optional(a.flagS, a.ipv6) + IsAtTail(a))))
  {
  }

  /** The fixed part of a written version-1 IS-AT, then the rest of it. */
  lemma IsAtLayout1(a: IsAt)
    requires MessageVersion(a.version) == 1 && |a.names| < 256
    ensures IsAtBytes(a) == [IsAtFlags(a), |a.names|] + (BigEndian(a.transportMask) + IsAtEndpoints(a))
  {
  }

  /** The fixed part of a version-0 IS-AT: flags, count and port. */
  lemma IsAtHead0(b: IsAt, a: IsAt, rest: Bytes)
    requires b.version == a.version && MessageVersion(a.version) == 0 && |a.names| < 256
    ensures ParseIsAt(b, IsAtBytes(a) + rest) ==
      ParseIpv4(Version0Header(b, IsAtFlags(a), a.port),
        Optional(a.flagF, a.ipv4) + (Optional(a.flagS, a.ipv6) + IsAtTail(a)) + rest, |a.names|, 4)
  {
    var body := Optional(a.flagF, a.ipv4) + (Optional(a.flagS, a.ipv6) + IsAtTail(a));
    IsAtLayout0(a);
    IsAtTypeRead(a);
    HeadRead0(b, IsAtFlags(a), |a.names|, a.port, body, rest);
  }

  /** The version-0 flags written for `a` are read back as `a`'s. */
  lemma Header0Read(b: IsAt, a: IsAt)
    requires MessageVersion(a.version) == 0
    ensures Version0Header(b, IsAtFlags(a), a.port) == b.(flagG := a.flagG, flagC := a.flagC,
      flagT := a.flagT, flagU := a.flagU, flagS := a.flagS, flagF := a.flagF, port := a.port)
  {
    IsAtFlagsRead(a);
  }

  /** The fixed part of a version-1 IS-AT: flags, count and transport mask. */
  lemma IsAtHead1(b: IsAt, a: IsAt, rest: Bytes)
    requires b.version == a.version && MessageVersion(a.version) == 1 && |a.names| < 256
    ensures ParseIsAt(b, IsAtBytes(a) + rest) ==
      ParseReliable4(Version1Header(b, IsAtFlags(a), a.transportMask), IsAtEndpoints(a) + rest, |a.names|, 4)
  {
    IsAtLayout1(a);
    IsAtTypeRead(a);
    HeadRead1(b, IsAtFlags(a), |a.names|, a.transportMask, IsAtEndpoints(a), rest);
  }

  /** The version-1 flags written for `a` are read back as `a`'s. */
  lemma Header1Read(b: IsAt, a: IsAt)
    requires MessageVersion(a.version) == 1
    ensures Version1Header(b, IsAtFlags(a), a.transportMask) == b.(flagG := a.flagG, flagC := a.flagC,
      flagR4 := a.flagR4, flagU4 := a.flagU4, flagR6 := a.flagR6, flagU6 := a.flagU6,
      transportMask := a.transportMask)
  {
    IsAtFlagsRead(a);
  }

  /** `Deserialize` reads back exactly what `Serialize` wrote, into any
      record of the same version 0 or 1. */
  lemma IsAtRoundTrip(b: IsAt, a: IsAt, rest: Bytes)
    requires IsAtEncodable(a) && b.version == a.version && MessageVersion(a.version) <= 1
    ensures ParseIsAt(b, IsAtBytes(a) + rest) == Some((IsAtReceived(b, a), |IsAtBytes(a)|))
  {
    if MessageVersion(a.version) == 0 {
      IsAtHead0(b, a, rest);
      Header0Read(b, a);
      AddressesRoundTrip(b.(flagG := a.flagG, flagC := a.flagC, flagT := a.flagT, flagU := a.flagU,
        flagS := a.flagS, flagF := a.flagF, port := a.port), a, rest, 4);
    } else {
      IsAtHead1(b, a, rest);
      Header1Read(b, a);
      EndpointsRoundTrip(b.(flagG := a.flagG, flagC := a.flagC, flagR4 := a.flagR4, flagU4 := a.flagU4,
        flagR6 := a.flagR6, flagU6 := a.flagU6, transportMask := a.transportMask), a, rest, 4);
    }
  }

  lemma AddressesSelf(a: IsAt)
    ensures AddressesReceived(a.(names := []), a) == a
  {
    assert [] + a.names == a.names;
  }

  lemma EndpointsSelf(a: IsAt)
    ensures EndpointsReceived(a.(names := []), a) == a
  {
    assert [] + a.names == a.names;
  }

  /** Reading a record's own fields into it changes nothing but its names. */
  lemma ReceivedSelf(a: IsAt)
    ensures IsAtReceived(a.(names := []), a) == a
  {
    var b := a.(names := []);
    if MessageVersion(a.version) == 0 {
      assert b.(flagG := a.flagG, flagC := a.flagC, flagT := a.flagT, flagU := a.flagU,
        flagS := a.flagS, flagF := a.flagF, port := a.port) == b;
      AddressesSelf(a);
    } else {
      assert b.(flagG := a.flagG, flagC := a.flagC, flagR4 := a.flagR4, flagU4 := a.flagU4,
        flagR6 := a.flagR6, flagU6 := a.flagU6, transportMask := a.transportMask) == b;
      EndpointsSelf(a);
    }
  }

  /** A record read into a copy of itself without names comes back whole. */
  lemma IsAtRestored(a: IsAt, rest: Bytes)
    requires IsAtEncodable(a) && MessageVersion(a.version) <= 1
    ensures ParseIsAt(a.(names := []), IsAtBytes(a) + rest) == Some((a, |IsAtBytes(a)|))
  {
    IsAtRoundTrip(a.(names := []), a, rest);
    ReceivedSelf(a);
  }

  /** An unknown version, a buffer shorter than four bytes, or top two bits
      other than 01 make `Deserialize` read nothing. */
  lemma IsAtRejected(a: IsAt, buf: Bytes)
    requires MessageVersion(a.version) > 1 || |buf| < 4 || MessageType(buf[0]) != 1
    ensures ParseIsAt(a, buf) == None
  {
  }

  lemma IsAtTailSize(a: IsAt)
    ensures |IsAtTail(a)| == (if a.flagG then StringSize(a.guid) else 0) + NamesSize(a.names)
  {
    NamesSizeCoherent(a.names);
  }

  lemma IsAtEndpointsSize(a: IsAt)
    requires EndpointsFit(a)
    ensures |IsAtEndpoints(a)| == (if a.flagR4 then 6 else 0) + (if a.flagU4 then 6 else 0) +
      (if a.flagR6 then 18 else 0) + (if a.flagU6 then 18 else 0) + |IsAtTail(a)|
  {
  }

  /** `GetSerializedSize` is what `Serialize` writes, for every version,
      as long as each endpoint a version-1 record announces has its
      family's address length. */
  lemma IsAtSizeCoherent(a: IsAt)
    requires MessageVersion(a.version) == 1 ==> EndpointsFit(a)
    ensures IsAtSize(a) == |IsAtBytes(a)|
  {
    IsAtTailSize(a);
    if MessageVersion(a.version) == 1 {
      IsAtEndpointsSize(a);
    }
  }

  /** A new record announces no endpoint, so its size is coherent. */
  lemma FreshIsAtFits(version: byte)
    ensures EndpointsFit(FreshIsAt(version))
    ensures IsAtSize(FreshIsAt(version)) == |IsAtBytes(FreshIsAt(version))|
  {
    IsAtSizeCoherent(FreshIsAt(version));
  }

  /** Reading the names changes nothing but the names. */
  lemma NamesKeepRecord(a: IsAt, buf: Bytes, count: nat, used: nat)
    requires ParseIsAtNames(a, buf, count, used).Some?
    ensures ParseIsAtNames(a, buf, count, used).value.0 == a.(names := ParseIsAtNames(a, buf, count, used).value.0.names)
  {
  }

  /** Reading the GUID and the names changes nothing but those two. */
  lemma TailKeepsEndpoints(a: IsAt, buf: Bytes, count: nat, used: nat)
    requires ParseIsAtTail(a, buf, count, used).Some?
    ensures var r := ParseIsAtTail(a, buf, count, used).value.0;
      r == a.(guid := r.guid, names := r.names)
  {
    if a.flagG {
      var (guid, n) := ParseString(buf).value;
      NamesKeepRecord(a.(guid := guid), buf[n..], count, used + n);
    } else {
      NamesKeepRecord(a, buf, count, used);
    }
  }

  /** The version-1 endpoint reads, from the last one back: each read
      gives the endpoint whose flag is set an address of its family's
      length, and the later reads leave it alone. */
  lemma Unreliable6Fits(a: IsAt, buf: Bytes, count: nat, used: nat)
    requires (a.flagR4 ==> |a.reliable4.addr| == 4) && (a.flagU4 ==> |a.unreliable4.addr| == 4)
    requires a.flagR6 ==> |a.reliable6.addr| == 16
    requires ParseUnreliable6(a, buf, count, used).Some?
    ensures EndpointsFit(ParseUnreliable6(a, buf, count, used).value.0)
    ensures ParseUnreliable6(a, buf, count, used).value.0.version == a.version
  {
    if a.flagU6 {
      var e := ParseEndpoint(buf, 16).value;
      TailKeepsEndpoints(a.(unreliable6 := e), buf[18..], count, used + 18);
    } else {
      TailKeepsEndpoints(a, buf, count, used);
    }
  }

  lemma Reliable6Fits(a: IsAt, buf: Bytes, count: nat, used: nat)
    requires (a.flagR4 ==> |a.reliable4.addr| == 4) && (a.flagU4 ==> |a.unreliable4.addr| == 4)
    requires ParseReliable6(a, buf, count, used).Some?
    ensures EndpointsFit(ParseReliable6(a, buf, count, used).value.0)
    ensures ParseReliable6(a, buf, count, used).value.0.version == a.version
  {
    if a.flagR6 {
      Unreliable6Fits(a.(reliable6 := ParseEndpoint(buf, 16).value), buf[18..], count, used + 18);
    } else {
      Unreliable6Fits(a, buf, count, used);
    }
  }

  lemma Unreliable4Fits(a: IsAt, buf: Bytes, count: nat, used: nat)
    requires a.flagR4 ==> |a.reliable4.addr| == 4
    requires ParseUnreliable4(a, buf, count, used).Some?
    ensures EndpointsFit(ParseUnreliable4(a, buf, count, used).value.0)
    ensures ParseUnreliable4(a, buf, count, used).value.0.version == a.version
  {
    if a.flagU4 {
      Reliable6Fits(a.(unreliable4 := ParseEndpoint(buf, 4).value), buf[6..], count, used + 6);
    } else {
      Reliable6Fits(a, buf, count, used);
    }
  }

  lemma Reliable4Fits(a: IsAt, buf: Bytes, count: nat, used: nat)
    requires ParseReliable4(a, buf, count, used).Some?
    ensures EndpointsFit(ParseReliable4(a, buf, count, used).value.0)
    ensures ParseReliable4(a, buf, count, used).value.0.version == a.version
  {
    if a.flagR4 {
      Unreliable4Fits(a.(reliable4 := ParseEndpoint(buf, 4).value), buf[6..], count, used + 6);
    } else {
      Unreliable4Fits(a, buf, count, used);
    }
  }

  /** The version-0 address reads keep the version. */
  lemma Ipv6KeepsVersion(a: IsAt, buf: Bytes, count: nat, used: nat)
    requires ParseIpv6(a, buf, count, used).Some?
    ensures ParseIpv6(a, buf, count, used).value.0.version == a.version
  {
    if a.flagS {
      TailKeepsEndpoints(a.(ipv6 := buf[..16]), buf[16..], count, used + 16);
    } else {
      TailKeepsEndpoints(a, buf, count, used);
    }
  }

  lemma Ipv4KeepsVersion(a: IsAt, buf: Bytes, count: nat, used: nat)
    requires ParseIpv4(a, buf, count, used).Some?
    ensures ParseIpv4(a, buf, count, used).value.0.version == a.version
  {
    if a.flagF {
      Ipv6KeepsVersion(a.(ipv4 := buf[..4]), buf[4..], count, used + 4);
    } else {
      Ipv6KeepsVersion(a, buf, count, used);
    }
  }

  /** Every record `Deserialize` reads, into whatever record it starts
      from, keeps the version and has its announced endpoints at their
      family's length. */
  lemma ReadIsAtFits(b: IsAt, buf: Bytes)
    requires ParseIsAt(b, buf).Some?
    ensures ParseIsAt(b, buf).value.0.version == b.version
    ensures MessageVersion(b.version) == 1 ==> EndpointsFit(ParseIsAt(b, buf).value.0)
  {
    if MessageVersion(b.version) == 0 {
      var h := Version0Header(b, buf[0], ReadBigEndian(buf[2], buf[3]));
      assert ParseIsAt(b, buf) == ParseIpv4(h, buf[4..], buf[1], 4);
      Ipv4KeepsVersion(h, buf[4..], buf[1], 4);
    } else {
      var h := Version1Header(b, buf[0], ReadBigEndian(buf[2], buf[3]));
      assert ParseIsAt(b, buf) == ParseReliable4(h, buf[4..], buf[1], 4);
      Reliable4Fits(h, buf[4..], buf[1], 4);
    }
  }

  /** So every record `Deserialize` reads has a `GetSerializedSize` equal
      to what `Serialize` writes for it. */
  lemma ReadIsAtSizeCoherent(b: IsAt, buf: Bytes, r: IsAt, n: nat)
    requires ParseIsAt(b, buf) == Some((r, n))
    ensures IsAtSize(r) == |IsAtBytes(r)|
  {
    ReadIsAtFits(b, buf);
    IsAtSizeCoherent(r);
  }

  /** `IsAt::GetSerializedSize`. */
  method IsAtSerializedSize(a: IsAt) returns (size: nat)
    ensures size == IsAtSize(a)
  {
    if MessageVersion(a.version) == 0 {
      size := 4;
      if a.flagF { size := size + 4; }
      if a.flagS { size := size + 16; }
    } else if MessageVersion(a.version) == 1 {
      size := 4;
      if a.flagR4 { size := size + 6; }
      if a.flagU4 { size := size + 6; }
      if a.flagR6 { size := size + 18; }
      if a.flagU6 { size := size + 18; }
    } else {
      return 0;
    }
    if a.flagG { size := size + StringSize(a.guid); }
    var names := MeasureNames(a.names);
    size := size + names;
  }

  lemma AppendAssoc(x: Bytes, y: Bytes, z: Bytes)
    ensures x + (y + z) == x + y + z
  {
  }

  /** Four flags ORed into the low bits, one at a time. */
  method SetNibble(f8: bool, f4: bool, f2: bool, f1: bool) returns (n: nat)
    ensures n == Nibble(f8, f4, f2, f1) && n < 16
  {
    n := 0;
    if f8 { n := n + 8; }
    if f4 { n := n + 4; }
    if f2 { n := n + 2; }
    if f1 { n := n + 1; }
  }

  /** The IS-AT type, `1 << 6`, with flags G and C ORed in. */
  method SetHigh(g: bool, c: bool) returns (high: nat)
    ensures high == 0x40 + FlagBit(g, 0x20) + FlagBit(c, 0x10)
  {
    high := 0x40;
    if g { high := high + 0x20; }
    if c { high := high + 0x10; }
  }

  /** The type-and-flags byte as `Serialize` builds it, one flag at a time. */
  method IsAtTypeAndFlags(a: IsAt) returns (typeAndFlags: byte)
    ensures typeAndFlags == IsAtFlags(a)
  {
    var high := SetHigh(a.flagG, a.flagC);
    var low: nat;
    if MessageVersion(a.version) == 0 {
      low := SetNibble(a.flagT, a.flagU, a.flagS, a.flagF);
    } else {
      low := SetNibble(a.flagR4, a.flagU4, a.flagR6, a.flagU6);
    }
    typeAndFlags := high + low;
  }

  /** One `if (flag) { write part }` step of `Serialize`: `body` grows by
      the part when it is present, and `body + suffix` stays `whole` for the
      suffix that follows the part. */
  method AppendPart(body: Bytes, present: bool, part: Bytes, suffix: Bytes) returns (body': Bytes)
    ensures body' == body + Optional(present, part)
    ensures body' + suffix == body + (Optional(present, part) + suffix)
  {
    body' := body;
    if present {
      body' := body' + part;
    }
    AppendAssoc(body, Optional(present, part), suffix);
  }

  /** The version-0 part of `Serialize` after the first two bytes: the port,
      then the addresses whose flags are set. */
  method IsAtBody0(a: IsAt) returns (body: Bytes)
    ensures body + IsAtTail(a) == BigEndian(a.port) + (Optional(a.flagF, a.ipv4) + (Optional(a.flagS, a.ipv6) + IsAtTail(a)))
  {
    var tail := IsAtTail(a);
    body := AppendPart(BigEndian(a.port), a.flagF, a.ipv4, Optional(a.flagS, a.ipv6) + tail);
    body := AppendPart(body, a.flagS, a.ipv6, tail);
  }

  /** The version-1 part of `Serialize` after the first two bytes: the
      transport mask, then the endpoints whose flags are set. */
  method IsAtBody1(a: IsAt) returns (body: Bytes)
    ensures body + IsAtTail(a) == BigEndian(a.transportMask) + IsAtEndpoints(a)
  {
    var tail := IsAtTail(a);
    var sU6 := Optional(a.flagU6, EndpointBytes(a.unreliable6)) + tail;
    var sR6 := Optional(a.flagR6, EndpointBytes(a.reliable6)) + sU6;
    var sU4 := Optional(a.flagU4, EndpointBytes(a.unreliable4)) + sR6;
    body := AppendPart(BigEndian(a.transportMask), a.flagR4, EndpointBytes(a.reliable4), sU4);
    body := AppendPart(body, a.flagU4, EndpointBytes(a.unreliable4), sR6);
    body := AppendPart(body, a.flagR6, EndpointBytes(a.reliable6), sU6);
    body := AppendPart(body, a.flagU6, EndpointBytes(a.unreliable6), tail);
  }

  /** `IsAt::Serialize`: the bytes written, in the order the source writes
      them, and their number. */
  method SerializeIsAt(a: IsAt) returns (out: Bytes, size: nat)
    ensures out == IsAtBytes(a) && size == |out|
  {
    if MessageVersion(a.version) > 1 {
      return [], 0;
    }
    var typeAndFlags := IsAtTypeAndFlags(a);
    var body: Bytes;
    if MessageVersion(a.version) == 0 {
      body := IsAtBody0(a);
    } else {
      body := IsAtBody1(a);
    }
    ghost var whole := body + IsAtTail(a);
    body := AppendPart(body, a.flagG, StringBytes(a.guid), NamesBytes(a.names));
    var names := SerializeNames(a.names);
    body := body + names;
    assert body == whole;
    out := [typeAndFlags, LowByte(|a.names|)] + body;
    size := |out|;
  }

  /** An address of `len` bytes and a port at `p`, when the buffer holds
      them. */
  method ReadEndpoint(buf: Bytes, p: nat, len: nat) returns (ok: bool, e: Endpoint)
    requires p <= |buf|
    ensures ok <==> ParseEndpoint(buf[p..], len).Some?
    ensures ok ==> ParseEndpoint(buf[p..], len) == Some(e) && p + len + 2 <= |buf|
  {
    if |buf| - p < len + 2 {
      return false, NoEndpoint();
    }
    e := Endpoint(buf[p..p + len], ReadBigEndian(buf[p + len], buf[p + len + 1]));
    assert buf[p..][..len] == buf[p..p + len];
    assert buf[p..][len] == buf[p + len] && buf[p..][len + 1] == buf[p + len + 1];
    ok := true;
  }

  /** The GUID and name part of `IsAt::Deserialize`, from `p` on. */
  method DeserializeIsAtTail(r: IsAt, buf: Bytes, p: nat, count: nat) returns (ok: bool, r': IsAt, size: nat)
    requires p <= |buf|
    ensures ok <==> ParseIsAtTail(r, buf[p..], count, p).Some?
    ensures ok ==> ParseIsAtTail(r, buf[p..], count, p) == Some((r', size))
  {
    r' := r;
    var q := p;
    if r.flagG {
      var s := ParseString(buf[p..]);
      if s.None? {
        return false, r', 0;
      }
      r' := r'.(guid := s.value.0);
      q := p + s.value.1;
      assert buf[p..][s.value.1..] == buf[q..];
    }
    var names, used;
    ok, names, used := DeserializeNames(buf[q..], count, r'.names);
    ParseNamesShift(buf[q..], count, r'.names, 0, q);
    if !ok {
      return false, r', 0;
    }
    r' := r'.(names := names);
    size := q + used;
  }

  /** The version-0 addresses of `IsAt::Deserialize`, from `p` on. */
  method DeserializeAddresses(r: IsAt, buf: Bytes, p: nat, count: nat) returns (ok: bool, r': IsAt, p': nat)
    requires p <= |buf|
    ensures p <= p' <= |buf|
    ensures ParseIpv4(r, buf[p..], count, p) == if ok then ParseIsAtTail(r', buf[p'..], count, p') else None
  {
    r', p' := r, p;
    if r.flagF {
      if |buf| - p' < 4 {
        return false, r', p';
      }
      r' := r'.(ipv4 := buf[p'..p' + 4]);
      assert buf[p..][..4] == buf[p..p + 4] && buf[p..][4..] == buf[p + 4..];
      p' := p' + 4;
    }
    assert ParseIpv4(r, buf[p..], count, p) == ParseIpv6(r', buf[p'..], count, p');
    ghost var p1, r1 := p', r';
    if r'.flagS {
      if |buf| - p' < 16 {
        return false, r', p';
      }
      r' := r'.(ipv6 := buf[p'..p' + 16]);
      assert buf[p1..][..16] == buf[p1..p1 + 16] && buf[p1..][16..] == buf[p1 + 16..];
      p' := p' + 16;
    }
    assert ParseIpv6(r1, buf[p1..], count, p1) == ParseIsAtTail(r', buf[p'..], count, p');
    ok := true;
  }

  /** The two IPv4 endpoints of a version-1 `IsAt::Deserialize`, from `p`
      on: each needs its address and port (6 bytes) in what remains. */
  method DeserializeEndpoints4(r: IsAt, buf: Bytes, p: nat, count: nat) returns (ok: bool, r': IsAt, p': nat)
    requires p <= |buf|
    ensures p <= p' <= |buf|
    ensures ParseReliable4(r, buf[p..], count, p) == if ok then ParseReliable6(r', buf[p'..], count, p') else None
  {
    var e;
    r', p' := r, p;
    if r.flagR4 {
      ok, e := ReadEndpoint(buf, p', 4);
      if !ok {
        return;
      }
      r' := r'.(reliable4 := e);
      assert buf[p..][6..] == buf[p + 6..];
      p' := p' + 6;
    }
    assert ParseReliable4(r, buf[p..], count, p) == ParseUnreliable4(r', buf[p'..], count, p');
    ghost var p1, r1 := p', r';
    if r'.flagU4 {
      ok, e := ReadEndpoint(buf, p', 4);
      if !ok {
        return;
      }
      r' := r'.(unreliable4 := e);
      assert buf[p1..][6..] == buf[p1 + 6..];
      p' := p' + 6;
    }
    assert ParseUnreliable4(r1, buf[p1..], count, p1) == ParseReliable6(r', buf[p'..], count, p');
    ok := true;
  }

  /** The two IPv6 endpoints of a version-1 `IsAt::Deserialize`, from `p`
      on: each needs its address and port (18 bytes) in what remains. */
  method DeserializeEndpoints6(r: IsAt, buf: Bytes, p: nat, count: nat) returns (ok: bool, r': IsAt, p': nat)
    requires p <= |buf|
    ensures p <= p' <= |buf|
    ensures ParseReliable6(r, buf[p..], count, p) == if ok then ParseIsAtTail(r', buf[p'..], count, p') else None
  {
    var e;
    r', p' := r, p;
    if r.flagR6 {
      ok, e := ReadEndpoint(buf, p', 16);
      if !ok {
        return;
      }
      r' := r'.(reliable6 := e);
      assert buf[p..][18..] == buf[p + 18..];
      p' := p' + 18;
    }
    assert ParseReliable6(r, buf[p..], count, p) == ParseUnreliable6(r', buf[p'..], count, p');
    ghost var p1, r1 := p', r';
    if r'.flagU6 {
      ok, e := ReadEndpoint(buf, p', 16);
      if !ok {
        return;
      }
      r' := r'.(unreliable6 := e);
      assert buf[p1..][18..] == buf[p1 + 18..];
      p' := p' + 18;
    }
    assert ParseUnreliable6(r1, buf[p1..], count, p1) == ParseIsAtTail(r', buf[p'..], count, p');
    ok := true;
  }

  /** The version-1 endpoints of `IsAt::Deserialize`, from `p` on. */
  method DeserializeEndpoints(r: IsAt, buf: Bytes, p: nat, count: nat) returns (ok: bool, r': IsAt, p': nat)
    requires p <= |buf|
    ensures p <= p' <= |buf|
    ensures ParseReliable4(r, buf[p..], count, p) == if ok then ParseIsAtTail(r', buf[p'..], count, p') else None
  {
    ok, r', p' := DeserializeEndpoints4(r, buf, p, count);
    if ok {
      ok, r', p' := DeserializeEndpoints6(r', buf, p', count);
    }
  }

  /** `IsAt::Deserialize` into `a`: `size` is 0 when the buffer does not
      hold an IS-AT of `a`'s version; otherwise `r` is the record read. */
  method DeserializeIsAt(a: IsAt, buf: Bytes) returns (r: IsAt, size: nat)
    ensures size == 0 <==> ParseIsAt(a, buf).None?
    ensures size != 0 ==> ParseIsAt(a, buf) == Some((r, size))
  {
    r := a;
    if MessageVersion(a.version) > 1 || |buf| < 4 {
      return r, 0;
    }
    var typeAndFlags := buf[0];
    if MessageType(typeAndFlags) != 1 {
      return r, 0;
    }
    r := r.(flagG := HasFlag(typeAndFlags, 0x20), flagC := HasFlag(typeAndFlags, 0x10));
    var numberNames := buf[1];
    var ok, p;
    if MessageVersion(a.version) == 0 {
      r := r.(flagT := HasFlag(typeAndFlags, 8), flagU := HasFlag(typeAndFlags, 4),
        flagS := HasFlag(typeAndFlags, 2), flagF := HasFlag(typeAndFlags, 1),
        port := ReadBigEndian(buf[2], buf[3]));
      assert ParseIsAt(a, buf) == ParseIpv4(r, buf[4..], numberNames, 4);
      ok, r, p := DeserializeAddresses(r, buf, 4, numberNames);
    } else {
      r := r.(flagR4 := HasFlag(typeAndFlags, 8), flagU4 := HasFlag(typeAndFlags, 4),
        flagR6 := HasFlag(typeAndFlags, 2), flagU6 := HasFlag(typeAndFlags, 1),
        transportMask := ReadBigEndian(buf[2], buf[3]));
      assert ParseIsAt(a, buf) == ParseReliable4(r, buf[4..], numberNames, 4);
      ok, r, p := DeserializeEndpoints(r, buf, 4, numberNames);
    }
    if !ok {
      return r, 0;
    }
    assert ParseIsAt(a, buf) == ParseIsAtTail(r, buf[p..], numberNames, p);
    ParseIsAtUsed(r, buf[p..], numberNames, p);
    ok, r, size := DeserializeIsAtTail(r, buf, p, numberNames);
    if !ok {
      return r, 0;
    }
  }

  /** A successful read reports at least `used` and at most `used` plus the
      bytes it was given. */
  predicate Within<T>(r: Option<(T, nat)>, used: nat, len: nat)
  {
    r.Some? ==> used <= r.value.1 <= used + len
  }

  lemma {:induction false} ParseNamesWithin(buf: Bytes, k: nat, acc: seq<Bytes>, used: nat)
    ensures Within(ParseNames(buf, k, acc, used), used, |buf|)
    decreases k
  {
    if k > 0 {
      match ParseString(buf)
      case None =>
      case Some((s, n)) => ParseNamesWithin(buf[n..], k - 1, acc + [s], used + n);
    }
  }

  /** `WhoHas::Deserialize` never reports more bytes than it was given. */
  lemma WhoHasWithin(w: WhoHas, buf: Bytes)
    ensures ParseWhoHas(w, buf).Some? ==> 2 <= ParseWhoHas(w, buf).value.1 <= |buf|
  {
    if |buf| >= 2 {
      ParseNamesWithin(buf[2..], buf[1], w.names, 2);
    }
  }

  lemma TailWithin(a: IsAt, buf: Bytes, count: nat, used: nat)
    ensures Within(ParseIsAtTail(a, buf, count, used), used, |buf|)
  {
    if a.flagG {
      match ParseString(buf)
      case None =>
      case Some((guid, n)) => ParseNamesWithin(buf[n..], count, a.names, used + n);
    } else {
      ParseNamesWithin(buf, count, a.names, used);
    }
  }

  lemma Unreliable6Within(a: IsAt, buf: Bytes, count: nat, used: nat)
    ensures Within(ParseUnreliable6(a, buf, count, used), used, |buf|)
  {
    if !a.flagU6 {
      TailWithin(a, buf, count, used);
    } else if |buf| >= 18 {
      TailWithin(a.(unreliable6 := ParseEndpoint(buf, 16).value), buf[18..], count, used + 18);
    }
  }

  lemma Reliable6Within(a: IsAt, buf: Bytes, count: nat, used: nat)
    ensures Within(ParseReliable6(a, buf, count, used), used, |buf|)
  {
    if !a.flagR6 {
      Unreliable6Within(a, buf, count, used);
    } else if |buf| >= 18 {
      Unreliable6Within(a.(reliable6 := ParseEndpoint(buf, 16).value), buf[18..], count, used + 18);
    }
  }

  lemma Unreliable4Within(a: IsAt, buf: Bytes, count: nat, used: nat)
    ensures Within(ParseUnreliable4(a, buf, count, used), used, |buf|)
  {
    if !a.flagU4 {
      Reliable6Within(a, buf, count, used);
    } else if |buf| >= 6 {
      Reliable6Within(a.(unreliable4 := ParseEndpoint(buf, 4).value), buf[6..], count, used + 6);
    }
  }

  lemma Reliable4Within(a: IsAt, buf: Bytes, count: nat, used: nat)
    ensures Within(ParseReliable4(a, buf, count, used), used, |buf|)
  {
    if !a.flagR4 {
      Unreliable4Within(a, buf, count, used);
    } else if |buf| >= 6 {
      Unreliable4Within(a.(reliable4 := ParseEndpoint(buf, 4).value), buf[6..], count, used + 6);
    }
  }

  lemma Ipv6Within(a: IsAt, buf: Bytes, count: nat, used: nat)
    ensures Within(ParseIpv6(a, buf, count, used), used, |buf|)
  {
    if !a.flagS {
      TailWithin(a, buf, count, used);
    } else if |buf| >= 16 {
      TailWithin(a.(ipv6 := buf[..16]), buf[16..], count, used + 16);
    }
  }

  lemma Ipv4Within(a: IsAt, buf: Bytes, count: nat, used: nat)
    ensures Within(ParseIpv4(a, buf, count, used), used, |buf|)
  {
    if !a.flagF {
      Ipv6Within(a, buf, count, used);
    } else if |buf| >= 4 {
      Ipv6Within(a.(ipv4 := buf[..4]), buf[4..], count, used + 4);
    }
  }

  /** `IsAt::Deserialize` never reports more bytes than it was given. */
  lemma IsAtWithin(a: IsAt, buf: Bytes)
    ensures ParseIsAt(a, buf).Some? ==> 4 <= ParseIsAt(a, buf).value.1 <= |buf|
  {
    if MessageVersion(a.version) <= 1 && |buf| >= 4 && MessageType(buf[0]) == 1 {
      if MessageVersion(a.version) == 0 {
        Ipv4Within(Version0Header(a, buf[0], ReadBigEndian(buf[2], buf[3])), buf[4..], buf[1], 4);
      } else {
        Reliable4Within(Version1Header(a, buf[0], ReadBigEndian(buf[2], buf[3])), buf[4..], buf[1], 4);
      }
    }
  }
}
