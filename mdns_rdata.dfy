/** The fixed parts of an mDNS message in router/ns/IpNsProtocol.cc: the
    12-byte `MDNSHeader` (section 4.1.1 of RFC 1035), the record data of a
    TXT record, `MDNSTextRData` (key=value strings, section 6 of RFC 6763),
    and the record data of A and AAAA records, `MDNSARData` and
    `MDNSAAAARData`. Record data starts with its length, RDLENGTH, as two
    bytes in network byte order. A `Deserialize(buffer, bufsize)` reads
    the `bufsize` bytes at `buffer`, given here as one sequence, and
    returns 0 when it fails. */
module MdnsRData {
  import opened CanFrame
  import opened NsWire

  // ---------------------------------------------------------------------
  // MDNSHeader
  // ---------------------------------------------------------------------

  /** The header fields that go on the wire. `rCode` is the `RCodeType`
      value as the byte it is stored in. */
  datatype Header = Header(queryId: u16, qrType: bool, rCode: byte,
                           qdCount: u16, anCount: u16, nsCount: u16, arCount: u16)

  /** `MDNSHeader::GetSerializedSize`. */
  const HeaderSize: nat := 12

  /** What `MDNSHeader::Serialize` writes: the ID, the QR bit alone in the
      third byte, the response code in the fourth, then the four counts.
      QDCOUNT and ANCOUNT are written as a zero byte and their low byte. */
  function HeaderBytes(h: Header): (out: Bytes)
    ensures |out| == HeaderSize
  {
    BigEndian(h.queryId) + [if h.qrType then 0x80 else 0, h.rCode] +
    [0, LowByte(h.qdCount)] + [0, LowByte(h.anCount)] + BigEndian(h.nsCount) + BigEndian(h.arCount)
  }

  /** What `MDNSHeader::Deserialize` reads from the first 12 bytes, or
      `None` when there are fewer. QR is the top bit of the third byte,
      the response code the low four bits of the fourth; QDCOUNT is read
      from its low byte alone, ANCOUNT from both. */
  function ParseHeader(buf: Bytes): Option<Header>
  {
    if |buf| < HeaderSize then None
    else Some(Header(ReadBigEndian(buf[0], buf[1]), buf[2] >= 0x80, buf[3] % 16,
                     buf[5], ReadBigEndian(buf[6], buf[7]),
                     ReadBigEndian(buf[8], buf[9]), ReadBigEndian(buf[10], buf[11])))
  }

  /** Reading back a written header gives the ID, the QR bit and the
      NSCOUNT and ARCOUNT fields unchanged, but QDCOUNT and ANCOUNT cut to
      their low byte and the response code cut to its low four bits. */
  lemma HeaderRoundTrip(h: Header, rest: Bytes)
    ensures ParseHeader(HeaderBytes(h) + rest) ==
      Some(h.(qdCount := h.qdCount % 256, anCount := h.anCount % 256, rCode := h.rCode % 16))
  {
    var b := HeaderBytes(h) + rest;
    assert b[0] == h.queryId / 256 && b[1] == h.queryId % 256;
    assert b[6] == 0 && b[7] == h.anCount % 256;
    assert b[8] == h.nsCount / 256 && b[9] == h.nsCount % 256;
    assert b[10] == h.arCount / 256 && b[11] == h.arCount % 256;
  }

  /** Hence a header whose two counts are below 256 and whose response
      code fits in four bits is read back exactly. */
  lemma HeaderRoundTripExact(h: Header, rest: Bytes)
    requires h.qdCount < 256 && h.anCount < 256 && h.rCode < 16
    ensures ParseHeader(HeaderBytes(h) + rest) == Some(h)
  {
    HeaderRoundTrip(h, rest);
    var cut := h.(qdCount := h.qdCount % 256, anCount := h.anCount % 256, rCode := h.rCode % 16);
    assert cut.qdCount == h.qdCount && cut.anCount == h.anCount && cut.rCode == h.rCode;
    assert cut == h;
  }

  /** `MDNSHeader`: the fields of the header, with the setters the source
      uses to fill them. `authAnswer` is kept but never written. */
  class MDNSHeader {
    var queryId: u16
    var qrType: bool
    var authAnswer: bool
    var rCode: byte
    var qdCount: u16
    var anCount: u16
    var nsCount: u16
    var arCount: u16

    /** The fields that go on the wire. */
    function Value(): Header
      reads this
    {
      Header(queryId, qrType, rCode, qdCount, anCount, nsCount, arCount)
    }

    /** `MDNSHeader(id, qrType, qdCount, anCount, nsCount, arCount)`: the
        response code is `NOT_ERROR` (0). */
    constructor(id: u16, qr: bool, qd: u16, an: u16, ns: u16, ar: u16)
      ensures Value() == Header(id, qr, 0, qd, an, ns, ar) && !authAnswer
    {
      queryId, qrType, authAnswer, rCode := id, qr, false, 0;
      qdCount, anCount, nsCount, arCount := qd, an, ns, ar;
    }

    method SetQDCount(n: u16)
      modifies this
      ensures Value() == old(Value()).(qdCount := n) && authAnswer == old(authAnswer)
    {
      qdCount := n;
    }

    method SetANCount(n: u16)
      modifies this
      ensures Value() == old(Value()).(anCount := n) && authAnswer == old(authAnswer)
    {
      anCount := n;
    }

    method SetNSCount(n: u16)
      modifies this
      ensures Value() == old(Value()).(nsCount := n) && authAnswer == old(authAnswer)
    {
      nsCount := n;
    }

    method SetARCount(n: u16)
      modifies this
      ensures Value() == old(Value()).(arCount := n) && authAnswer == old(authAnswer)
    {
      arCount := n;
    }

    /** `Serialize`: the twelve bytes, byte by byte. */
    method Serialize() returns (out: Bytes, size: nat)
      ensures out == HeaderBytes(Value()) && size == HeaderSize
    {
      out := BigEndian(queryId);
      out := out + [if qrType then 0x80 else 0];
      out := out + [rCode];
      out := out + [0, LowByte(qdCount)];
      out := out + [0, LowByte(anCount)];
      out := out + BigEndian(nsCount);
      out := out + BigEndian(arCount);
      size := |out|;
    }

    /** `Deserialize`: 12 and the fields read, or 0 and nothing changed
        when the buffer is shorter than a header. */
    method Deserialize(buf: Bytes) returns (size: nat)
      modifies this
      ensures size == if |buf| < HeaderSize then 0 else HeaderSize
      ensures size == 0 ==> Value() == old(Value())
      ensures size != 0 ==> Some(Value()) == ParseHeader(buf)
      ensures authAnswer == old(authAnswer)
    {
      if |buf| < 12 {
        return 0;
      }
      queryId := ReadBigEndian(buf[0], buf[1]);
      qrType := buf[2] / 128 != 0;
      rCode := buf[3] % 16;
      qdCount := buf[5];
      anCount := ReadBigEndian(buf[6], buf[7]);
      nsCount := ReadBigEndian(buf[8], buf[9]);
      arCount := ReadBigEndian(buf[10], buf[11]);
      size := 12;
    }
  }

  // ---------------------------------------------------------------------
  // MDNSTextRData
  // ---------------------------------------------------------------------

  /** `"txtvers"`, the key that `Serialize` puts first. */
  const TxtVers: Bytes := [116, 120, 116, 118, 101, 114, 115]

  /** `'='`. */
  const Equals: byte := 61

  /** `find_first_of('=')`: where the first `=` is, or the length of the
      string when there is none. */
  function FirstEquals(s: Bytes): (i: nat)
    ensures i <= |s|
  {
    if s == [] || s[0] == Equals then 0 else 1 + FirstEquals(s[1..])
  }

  /** How `Deserialize` cuts a string: the key before the first `=` and the
      value after it, or the whole string and an empty value. */
  function Split(s: Bytes): (Bytes, Bytes)
  {
    var i := FirstEquals(s);
    if i < |s| then (s[..i], s[i + 1..]) else (s, [])
  }

  /** The string `GetSerializedSize` and the loop of `Serialize` make of a
      field: `key=value`, or the key alone when the value is empty. */
  function FieldString(key: Bytes, value: Bytes): Bytes
  {
    if value == [] then key else key + [Equals] + value
  }

  /** The string `Serialize` writes first: `txtvers=value`, with the `=`
      even when the value is empty. */
  function VersionString(value: Bytes): Bytes
  {
    TxtVers + [Equals] + value
  }

  lemma {:induction false} FirstEqualsAfter(key: Bytes, rest: Bytes)
    requires Equals !in key
    ensures FirstEquals(key + [Equals] + rest) == |key|
  {
    if key != [] {
      assert (key + [Equals] + rest)[1..] == key[1..] + [Equals] + rest;
      FirstEqualsAfter(key[1..], rest);
    }
  }

  lemma {:induction false} FirstEqualsNone(s: Bytes)
    requires Equals !in s
    ensures FirstEquals(s) == |s|
  {
    if s != [] {
      FirstEqualsNone(s[1..]);
    }
  }

  /** A field whose key has no `=` is cut back into its key and value. */
  lemma SplitField(key: Bytes, value: Bytes)
    requires Equals !in key
    ensures Split(FieldString(key, value)) == (key, value)
  {
    if value == [] {
      FirstEqualsNone(key);
    } else {
      FirstEqualsAfter(key, value);
      assert (key + [Equals] + value)[..|key|] == key;
      assert (key + [Equals] + value)[|key| + 1..] == value;
    }
  }

  /** So is the version string, even with an empty value. */
  lemma SplitVersion(value: Bytes)
    ensures Split(VersionString(value)) == (TxtVers, value)
  {
    FirstEqualsAfter(TxtVers, value);
    assert VersionString(value)[..|TxtVers|] == TxtVers;
    assert VersionString(value)[|TxtVers| + 1..] == value;
  }

  /** Every key of `order` is a key of `fields`. */
  predicate Listed(fields: map<Bytes, Bytes>, order: seq<Bytes>)
  {
    forall i :: 0 <= i < |order| ==> order[i] in fields
  }

  /** `order` is the order in which `std::map` visits the keys of
      `fields`: each key once. */
  predicate Enumerates(fields: map<Bytes, Bytes>, order: seq<Bytes>)
  {
    Listed(fields, order) &&
    (forall k :: k in fields ==> k in order) &&
    (forall i, j :: 0 <= i < j < |order| ==> order[i] != order[j])
  }

  /** The strings of every field, in order, as `GetSerializedSize` counts
      them. */
  function AllStrings(fields: map<Bytes, Bytes>, order: seq<Bytes>): seq<Bytes>
    requires Listed(fields, order)
  {
    if order == [] then []
    else [FieldString(order[0], fields[order[0]])] + AllStrings(fields, order[1..])
  }

  /** The strings of every field but `txtvers`, in order, as the loop of
      `Serialize` writes them. */
  function OtherStrings(fields: map<Bytes, Bytes>, order: seq<Bytes>): seq<Bytes>
    requires Listed(fields, order)
  {
    if order == [] then []
    else if order[0] == TxtVers then OtherStrings(fields, order[1..])
    else [FieldString(order[0], fields[order[0]])] + OtherStrings(fields, order[1..])
  }

  /** The strings `Serialize` writes: the version first, then the others. */
  function TextStrings(fields: map<Bytes, Bytes>, order: seq<Bytes>): seq<Bytes>
    requires TxtVers in fields && Listed(fields, order)
  {
    [VersionString(fields[TxtVers])] + OtherStrings(fields, order)
  }

  /** `GetSerializedSize`: RDLENGTH and a length byte and the bytes of
      each field's string. */
  function TextSize(fields: map<Bytes, Bytes>, order: seq<Bytes>): nat
    requires Listed(fields, order)
  {
    2 + NamesSize(AllStrings(fields, order))
  }

  /** What `Serialize` writes: RDLENGTH, cut to 16 bits, then each string
      with its length byte. */
  function TextBytes(fields: map<Bytes, Bytes>, order: seq<Bytes>): Bytes
    requires TxtVers in fields && Listed(fields, order)
  {
    var strs := TextStrings(fields, order);
    BigEndian(NamesSize(strs) % 0x1_0000) + NamesBytes(strs)
  }

  /** `GetSerializedSize` counts every field but `txtvers` as the loop of
      `Serialize` writes it. */
  lemma {:induction false} AllStringsSize(fields: map<Bytes, Bytes>, order: seq<Bytes>)
    requires Enumerates(fields, order)
    ensures NamesSize(AllStrings(fields, order)) ==
      (if TxtVers in order then StringSize(FieldString(TxtVers, fields[TxtVers])) else 0) +
      NamesSize(OtherStrings(fields, order))
  {
    if order != [] {
      var t := order[1..];
      assert Enumerates(fields - {order[0]}, t) by {
        forall k | k in fields - {order[0]}
          ensures k in t
        {
          assert k in order;
          var i :| 0 <= i < |order| && order[i] == k;
          assert i != 0;
          assert t[i - 1] == k;
        }
      }
      assert order[0] !in t by {
        forall j | 0 <= j < |t|
          ensures t[j] != order[0]
        {
          assert t[j] == order[j + 1];
        }
      }
      AllStringsRestrict(fields, t, order[0]);
      AllStringsSize(fields - {order[0]}, t);
      var head := FieldString(order[0], fields[order[0]]);
      assert ([head] + AllStrings(fields, t))[1..] == AllStrings(fields, t);
      if order[0] != TxtVers {
        assert ([head] + OtherStrings(fields, t))[1..] == OtherStrings(fields, t);
      }
    }
  }

  /** Removing a key that `order` does not visit changes none of its
      strings. */
  lemma {:induction false} AllStringsRestrict(fields: map<Bytes, Bytes>, order: seq<Bytes>, k: Bytes)
    requires Listed(fields, order) && k !in order
    ensures Listed(fields - {k}, order)
    ensures AllStrings(fields - {k}, order) == AllStrings(fields, order)
    ensures OtherStrings(fields - {k}, order) == OtherStrings(fields, order)
    ensures TxtVers in order ==> TxtVers in fields - {k} && (fields - {k})[TxtVers] == fields[TxtVers]
  {
    assert forall i :: 0 <= i < |order| ==> order[i] != k;
    if order != [] {
      AllStringsRestrict(fields, order[1..], k);
    }
  }

  /** `GetSerializedSize` predicts what `Serialize` writes when the
      version has a value; with an empty version it is one byte short,
      the `=` that `Serialize` writes after `txtvers` regardless. */
  lemma TextSizeCoherent(fields: map<Bytes, Bytes>, order: seq<Bytes>)
    requires TxtVers in fields && Enumerates(fields, order)
    ensures TextSize(fields, order) + (if fields[TxtVers] == [] then 1 else 0) == |TextBytes(fields, order)|
  {
    AllStringsSize(fields, order);
    NamesSizeCoherent(TextStrings(fields, order));
    var strs := TextStrings(fields, order);
    assert ([VersionString(fields[TxtVers])] + OtherStrings(fields, order))[1..] == OtherStrings(fields, order);
  }

  /** The record `MDNSTextRData` builds with an empty version: by its
      size it takes 10 bytes, yet `Serialize` writes 11 (RDLENGTH, one
      length byte and `txtvers=`). */
  lemma TextSizeShortByOne()
    ensures TextSize(map[TxtVers := []], [TxtVers]) == 10
    ensures |TextBytes(map[TxtVers := []], [TxtVers])| == 11
  {
    var fields: map<Bytes, Bytes> := map[TxtVers := []];
    TextSizeCoherent(fields, [TxtVers]);
    assert AllStrings(fields, [TxtVers]) == [TxtVers];
    assert NamesSize([TxtVers]) == 8;
  }

  /** The size `GetSerializedSize` evidently means: what it counts, plus
      the `=` that `Serialize` writes after an empty version. */
  function TextSizeIntended(fields: map<Bytes, Bytes>, order: seq<Bytes>): nat
    requires Listed(fields, order)
  {
    TextSize(fields, order) + (if TxtVers in fields && fields[TxtVers] == [] then 1 else 0)
  }

  /** With that byte counted, the size is exactly what `Serialize` writes,
      for every set of fields. */
  lemma TextSizeIntendedCoherent(fields: map<Bytes, Bytes>, order: seq<Bytes>)
    requires TxtVers in fields && Enumerates(fields, order)
    ensures TextSizeIntended(fields, order) == |TextBytes(fields, order)|
  {
    TextSizeCoherent(fields, order);
  }

  /** Where the loop of `Deserialize` stopped: whether it read exactly
      RDLENGTH bytes, and the fields it holds by then. */
  datatype TextLoopEnd = TextLoopEnd(ok: bool, fields: map<Bytes, Bytes>)

  /** The loop of `Deserialize` on the bytes `b` left in the buffer, with
      `rdlen` bytes of the record still expected: while both remain, a
      length byte and that many bytes, cut at the first `=` and entered
      in `fields`. `rdlen` is 16 bits wide and wraps around when a string
      runs past the end of the record. */
  function TextLoop(b: Bytes, rdlen: u16, fields: map<Bytes, Bytes>): TextLoopEnd
    decreases |b|
  {
    if rdlen == 0 || b == [] then TextLoopEnd(rdlen == 0, fields)
    else if |b| - 1 < b[0] then TextLoopEnd(false, fields)
    else
      var kv := Split(b[1..1 + b[0]]);
      TextLoop(b[1 + b[0]..], (rdlen - b[0] - 1) % 0x1_0000, fields[kv.0 := kv.1])
  }

  /** What `Deserialize` leaves: the bytes read, 0 on failure, and the
      fields, with those read so far entered even on failure. */
  datatype TextRead = TextRead(size: nat, fields: map<Bytes, Bytes>)

  /** `MDNSTextRData::Deserialize` into a record holding `fields`. */
  function ReadText(buf: Bytes, fields: map<Bytes, Bytes>): (r: TextRead)
    ensures r.size != 0 ==> 2 <= r.size <= |buf|
  {
    if |buf| < 2 then TextRead(0, fields)
    else
      var rdlen := ReadBigEndian(buf[0], buf[1]);
      if |buf| - 2 < rdlen then TextRead(0, fields)
      else
        var r := TextLoop(buf[2..], rdlen, fields);
        TextRead(if r.ok then 2 + rdlen else 0, r.fields)
  }

  /** `fields` with each string cut into a key and a value entered in
      turn. */
  function Enter(fields: map<Bytes, Bytes>, strs: seq<Bytes>): map<Bytes, Bytes>
    decreases |strs|
  {
    if strs == [] then fields else Enter(fields[Split(strs[0]).0 := Split(strs[0]).1], strs[1..])
  }

  /** One string read by the loop: its length byte and bytes are taken,
      it is entered, and RDLENGTH goes down by what was read. */
  lemma TextLoopStep(str: Bytes, tail: Bytes, rdlen: u16, fields: map<Bytes, Bytes>)
    requires |str| < 256 && 1 + |str| <= rdlen
    ensures TextLoop([LowByte(|str|)] + str + tail, rdlen, fields) ==
      TextLoop(tail, rdlen - 1 - |str|, fields[Split(str).0 := Split(str).1])
  {
    LowByteSmall(|str|);
    var b := [LowByte(|str|)] + str + tail;
    assert b[0] == |str|;
    assert b[1..1 + |str|] == str;
    assert b[1 + |str|..] == tail;
  }

  /** The loop of `Deserialize` reads back the strings `Serialize` wrote,
      when each fits its length byte and all fit RDLENGTH, and stops right
      after them whatever follows. */
  lemma {:induction false} TextLoopRoundTrip(strs: seq<Bytes>, rest: Bytes, fields: map<Bytes, Bytes>)
    requires ShortNames(strs) && NamesSize(strs) < 0x1_0000
    ensures TextLoop(NamesBytes(strs) + rest, NamesSize(strs), fields) == TextLoopEnd(true, Enter(fields, strs))
  {
    if strs != [] {
      var str, t := strs[0], strs[1..];
      assert ShortNames(t) by {
        forall i | 0 <= i < |t|
          ensures |t[i]| < 256
        {
          assert t[i] == strs[i + 1];
        }
      }
      Assoc([LowByte(|str|)] + str, NamesBytes(t), rest);
      TextLoopStep(str, NamesBytes(t) + rest, NamesSize(strs), fields);
      TextLoopRoundTrip(t, rest, fields[Split(str).0 := Split(str).1]);
    }
  }

  /** The fields of `order` other than `txtvers`, as a map. */
  ghost function OtherFields(fields: map<Bytes, Bytes>, order: seq<Bytes>): map<Bytes, Bytes>
  {
    map k | k in fields && k in order && k != TxtVers :: fields[k]
  }

  /** No key holds a `=`, so each field is read back under its own key. */
  predicate PlainKeys(fields: map<Bytes, Bytes>)
  {
    forall k :: k in fields ==> Equals !in k
  }

  /** A list that starts with `txtvers` has the other fields of its
      rest. */
  lemma OtherFieldsSkip(fields: map<Bytes, Bytes>, order: seq<Bytes>)
    requires order != [] && order[0] == TxtVers
    ensures OtherFields(fields, order) == OtherFields(fields, order[1..])
  {
    assert forall k :: k in order <==> k == order[0] || k in order[1..];
  }

  /** A list that starts with another key `o` adds `o` to the other
      fields of its rest. */
  lemma OtherFieldsAdd(fields: map<Bytes, Bytes>, order: seq<Bytes>, g: map<Bytes, Bytes>)
    requires order != [] && order[0] != TxtVers && order[0] in fields
    ensures g[order[0] := fields[order[0]]] + OtherFields(fields, order[1..]) == g + OtherFields(fields, order)
  {
    var o := order[0];
    assert forall k :: k in order <==> k == o || k in order[1..];
    assert OtherFields(fields, order) == OtherFields(fields, order[1..])[o := fields[o]];
  }

  /** Entering the other strings enters the other fields. */
  lemma {:induction false} EnterOthers(fields: map<Bytes, Bytes>, order: seq<Bytes>, g: map<Bytes, Bytes>)
    requires Listed(fields, order) && PlainKeys(fields)
    ensures Enter(g, OtherStrings(fields, order)) == g + OtherFields(fields, order)
  {
    if order == [] {
      assert OtherFields(fields, order) == map[];
    } else {
      var o, t := order[0], order[1..];
      if o == TxtVers {
        OtherFieldsSkip(fields, order);
        EnterOthers(fields, t, g);
      } else {
        OtherFieldsAdd(fields, order, g);
        EnterOthers(fields, t, g[o := fields[o]]);
        SplitField(o, fields[o]);
        var head := FieldString(o, fields[o]);
        assert ([head] + OtherStrings(fields, t))[1..] == OtherStrings(fields, t);
      }
    }
  }

  /** Every string `Serialize` writes fits its length byte. */
  ghost predicate ShortFields(fields: map<Bytes, Bytes>)
    requires TxtVers in fields
  {
    |VersionString(fields[TxtVers])| < 256 &&
    forall k :: k in fields ==> |FieldString(k, fields[k])| < 256
  }

  lemma {:induction false} OtherStringsShort(fields: map<Bytes, Bytes>, order: seq<Bytes>)
    requires Listed(fields, order) && TxtVers in fields && ShortFields(fields)
    ensures ShortNames(OtherStrings(fields, order))
  {
    if order != [] {
      OtherStringsShort(fields, order[1..]);
      var t := OtherStrings(fields, order[1..]);
      if order[0] != TxtVers {
        var head := FieldString(order[0], fields[order[0]]);
        assert forall i :: 1 <= i < |[head] + t| ==> ([head] + t)[i] == t[i - 1];
      }
    }
  }

  /** Every string `Serialize` writes fits its length byte. */
  lemma TextStringsShort(fields: map<Bytes, Bytes>, order: seq<Bytes>)
    requires Listed(fields, order) && TxtVers in fields && ShortFields(fields)
    ensures ShortNames(TextStrings(fields, order))
  {
    var strs := TextStrings(fields, order);
    OtherStringsShort(fields, order);
    forall i | 0 <= i < |strs|
      ensures |strs[i]| < 256
    {
      if i > 0 {
        assert strs[i] == OtherStrings(fields, order)[i - 1];
      }
    }
  }

  /** Entering the strings `Serialize` writes enters the fields. */
  lemma EnterText(fields: map<Bytes, Bytes>, order: seq<Bytes>, into: map<Bytes, Bytes>)
    requires TxtVers in fields && Enumerates(fields, order) && PlainKeys(fields)
    ensures Enter(into, TextStrings(fields, order)) == into + fields
  {
    var strs := TextStrings(fields, order);
    SplitVersion(fields[TxtVers]);
    assert strs[1..] == OtherStrings(fields, order);
    EnterOthers(fields, order, into[TxtVers := fields[TxtVers]]);
    assert into[TxtVers := fields[TxtVers]] + OtherFields(fields, order) == into + fields;
  }

  /** A TXT record is read back from what `Serialize` wrote, whatever
      follows it: its fields are entered in the record read into, over any
      of the same keys, when no key holds a `=`, every string fits its
      length byte and all fit the 16 bits of RDLENGTH. */
  lemma TextRoundTrip(fields: map<Bytes, Bytes>, order: seq<Bytes>, rest: Bytes, into: map<Bytes, Bytes>)
    requires TxtVers in fields && Enumerates(fields, order) && PlainKeys(fields)
    requires ShortFields(fields) && NamesSize(TextStrings(fields, order)) < 0x1_0000
    ensures ReadText(TextBytes(fields, order) + rest, into) == TextRead(|TextBytes(fields, order)|, into + fields)
  {
    var strs := TextStrings(fields, order);
    var n := NamesSize(strs);
    TextStringsShort(fields, order);
    Assoc(BigEndian(n), NamesBytes(strs), rest);
    var b := TextBytes(fields, order) + rest;
    assert n % 0x1_0000 == n;
    BigEndianRoundTrip(n);
    assert b[0] == BigEndian(n)[0] && b[1] == BigEndian(n)[1];
    assert b[2..] == NamesBytes(strs) + rest;
    NamesSizeCoherent(strs);
    TextLoopRoundTrip(strs, rest, into);
    EnterText(fields, order, into);
  }

  /** The strings of the fields from `i` on: that at `i`, then those
      after it. */
  lemma StringsFrom(fields: map<Bytes, Bytes>, order: seq<Bytes>, i: nat)
    requires Listed(fields, order) && i < |order|
    ensures Listed(fields, order[i..]) && Listed(fields, order[i + 1..])
    ensures AllStrings(fields, order[i..]) == [FieldString(order[i], fields[order[i]])] + AllStrings(fields, order[i + 1..])
    ensures OtherStrings(fields, order[i..]) ==
      (if order[i] == TxtVers then [] else [FieldString(order[i], fields[order[i]])]) + OtherStrings(fields, order[i + 1..])
  {
    assert order[i..][0] == order[i];
    assert order[i..][1..] == order[i + 1..];
  }

  /** A string before others adds its length byte and bytes. */
  lemma NamesCons(str: Bytes, strs: seq<Bytes>)
    ensures NamesSize([str] + strs) == StringSize(str) + NamesSize(strs)
    ensures NamesBytes([str] + strs) == StringBytes(str) + NamesBytes(strs)
  {
    assert ([str] + strs)[1..] == strs;
  }

  /** The loop of `Deserialize` at offset `p` of `buf`, with `rdlen`
      bytes of the record expected and `fields` so far, ends as `total`. */
  ghost predicate LoopsTo(buf: Bytes, p: nat, rdlen: u16, fields: map<Bytes, Bytes>, total: TextLoopEnd)
  {
    p <= |buf| && TextLoop(buf[p..], rdlen, fields) == total
  }

  /** A string that fits: the loop goes on after it. */
  lemma LoopsToNext(buf: Bytes, p: nat, rdlen: u16, fields: map<Bytes, Bytes>, total: TextLoopEnd)
    requires LoopsTo(buf, p, rdlen, fields, total) && 0 < rdlen && p < |buf| && buf[p] <= |buf| - p - 1
    ensures var kv := Split(buf[p + 1..p + 1 + buf[p]]);
      LoopsTo(buf, p + 1 + buf[p], (rdlen - buf[p] - 1) % 0x1_0000, fields[kv.0 := kv.1], total) == true
  {
    var b := buf[p..];
    assert b[0] == buf[p] && b[1..1 + b[0]] == buf[p + 1..p + 1 + buf[p]];
    assert b[1 + b[0]..] == buf[p + 1 + buf[p]..];
  }

  /** A string that overruns the buffer fails the loop. */
  lemma LoopsToShort(buf: Bytes, p: nat, rdlen: u16, fields: map<Bytes, Bytes>, total: TextLoopEnd)
    requires LoopsTo(buf, p, rdlen, fields, total) && 0 < rdlen && p < |buf| && |buf| - p - 1 < buf[p]
    ensures total == TextLoopEnd(false, fields)
  {
    assert buf[p..][0] == buf[p];
  }

  /** With nothing expected or nothing left, the loop ends. */
  lemma LoopsToEnd(buf: Bytes, p: nat, rdlen: u16, fields: map<Bytes, Bytes>, total: TextLoopEnd)
    requires LoopsTo(buf, p, rdlen, fields, total) && (rdlen == 0 || p == |buf|)
    ensures total == TextLoopEnd(rdlen == 0, fields)
  {
    assert p == |buf| ==> buf[p..] == [];
  }

  /** The loop of `Serialize` has written `body` and counted `rdlen`, with
      the fields of `rest` still to write; all of it is `strs`. */
  ghost predicate WritesTo(fields: map<Bytes, Bytes>, rest: seq<Bytes>, body: Bytes, rdlen: nat, strs: seq<Bytes>)
  {
    Listed(fields, rest) &&
    body + NamesBytes(OtherStrings(fields, rest)) == NamesBytes(strs) &&
    rdlen + NamesSize(OtherStrings(fields, rest)) == NamesSize(strs)
  }

  /** `txtvers` is skipped. */
  lemma WritesToSkip(fields: map<Bytes, Bytes>, order: seq<Bytes>, i: nat, body: Bytes, rdlen: nat, strs: seq<Bytes>)
    requires Listed(fields, order) && i < |order| && order[i] == TxtVers
    requires WritesTo(fields, order[i..], body, rdlen, strs)
    ensures WritesTo(fields, order[i + 1..], body, rdlen, strs) == true
  {
    StringsFrom(fields, order, i);
    assert [] + OtherStrings(fields, order[i + 1..]) == OtherStrings(fields, order[i + 1..]);
  }

  /** Another field is written with its length byte. */
  lemma WritesToField(fields: map<Bytes, Bytes>, order: seq<Bytes>, i: nat, body: Bytes, rdlen: nat, strs: seq<Bytes>)
    requires Listed(fields, order) && i < |order| && order[i] != TxtVers
    requires WritesTo(fields, order[i..], body, rdlen, strs)
    ensures var str := FieldString(order[i], fields[order[i]]);
      WritesTo(fields, order[i + 1..], body + [LowByte(|str|)] + str, rdlen + |str| + 1, strs) == true
  {
    StringsFrom(fields, order, i);
    var str := FieldString(order[i], fields[order[i]]);
    NamesCons(str, OtherStrings(fields, order[i + 1..]));
    Assoc(body, StringBytes(str), NamesBytes(OtherStrings(fields, order[i + 1..])));
  }

  /** The version string written first leaves the others to write. */
  lemma WritesToStart(fields: map<Bytes, Bytes>, order: seq<Bytes>)
    requires TxtVers in fields && Listed(fields, order)
    ensures var str := VersionString(fields[TxtVers]);
      WritesTo(fields, order[0..], [LowByte(|str|)] + str, |str| + 1, TextStrings(fields, order)) == true
  {
    assert order[0..] == order;
    NamesCons(VersionString(fields[TxtVers]), OtherStrings(fields, order));
  }

  /** `MDNSTextRData`: the fields of a TXT record, key to value. The order
      in which `std::map` visits them comes from a comparison object not
      shown here, and is a parameter of the methods that visit them. */
  class TextRData {
    var fields: map<Bytes, Bytes>

    /** `MDNSTextRData(version)`: `txtvers` set to the version written in
        decimal, given here as its digits. */
    constructor(version: Bytes)
      ensures fields == map[TxtVers := version]
    {
      fields := map[TxtVers := version];
    }

    /** `GetSerializedSize`: the loop over the fields. */
    method GetSerializedSize(order: seq<Bytes>) returns (size: nat)
      requires Listed(fields, order)
      ensures size == TextSize(fields, order)
    {
      var rdlen := 0;
      var i := 0;
      while i < |order|
        invariant i <= |order| && Listed(fields, order[i..])
        invariant rdlen + NamesSize(AllStrings(fields, order[i..])) == NamesSize(AllStrings(fields, order))
      {
        StringsFrom(fields, order, i);
        var str := FieldString(order[i], fields[order[i]]);
        NamesCons(str, AllStrings(fields, order[i + 1..]));
        rdlen := rdlen + |str| + 1;
        i := i + 1;
      }
      assert order[i..] == [];
      size := rdlen + 2;
    }

    /** `Serialize`: the version string first, then the loop over the
        other fields, then RDLENGTH in the first two bytes. */
    method Serialize(order: seq<Bytes>) returns (out: Bytes, size: nat)
      requires TxtVers in fields && Listed(fields, order)
      ensures out == TextBytes(fields, order) && size == |out|
    {
      ghost var strs := TextStrings(fields, order);
      var str := VersionString(fields[TxtVers]);
      var body := [LowByte(|str|)] + str;
      var rdlen: nat := |str| + 1;
      WritesToStart(fields, order);
      var i := 0;
      while i < |order|
        invariant i <= |order|
        invariant WritesTo(fields, order[i..], body, rdlen, strs) == true
      {
        if order[i] == TxtVers {
          WritesToSkip(fields, order, i, body, rdlen, strs);
          i := i + 1;
          continue;
        }
        WritesToField(fields, order, i, body, rdlen, strs);
        str := FieldString(order[i], fields[order[i]]);
        body := body + [LowByte(|str|)] + str;
        rdlen := rdlen + |str| + 1;
        i := i + 1;
      }
      assert order[i..] == [];
      NamesSizeCoherent(strs);
      out := BigEndian(rdlen % 0x1_0000) + body;
      size := rdlen + 2;
    }

    /** `Deserialize`: RDLENGTH, then the strings while both RDLENGTH and
        the buffer last, each entered as a field; the bytes read, or 0
        when the buffer is short, a string overruns it, or the strings do
        not end exactly at RDLENGTH. */
    method Deserialize(buf: Bytes) returns (size: nat)
      modifies this
      ensures TextRead(size, fields) == ReadText(buf, old(fields))
    {
      if |buf| < 2 {
        return 0;
      }
      var rdlen: u16 := ReadBigEndian(buf[0], buf[1]);
      var bufsize: nat := |buf| - 2;
      size := 2 + rdlen;
      if bufsize < rdlen {
        return 0;
      }
      ghost var total := TextLoop(buf[2..], rdlen, fields);
      var p := 2;
      while rdlen > 0 && bufsize > 0
        invariant p + bufsize == |buf|
        invariant LoopsTo(buf, p, rdlen, fields, total) == true
        decreases bufsize
      {
        var sz := buf[p];
        if bufsize - 1 < sz {
          LoopsToShort(buf, p, rdlen, fields, total);
          return 0;
        }
        LoopsToNext(buf, p, rdlen, fields, total);
        var kv := Split(buf[p + 1..p + 1 + sz]);
        fields := fields[kv.0 := kv.1];
        rdlen := (rdlen - sz - 1) % 0x1_0000;
        p, bufsize := p + 1 + sz, bufsize - 1 - sz;
      }
      LoopsToEnd(buf, p, rdlen, fields, total);
      if rdlen != 0 {
        return 0;
      }
    }
  }

  // ---------------------------------------------------------------------
  // MDNSARData and MDNSAAAARData
  // ---------------------------------------------------------------------

  /** An address as the bytes `qcc::IPAddress` converts it to: 4 for an
      A record, 16 for an AAAA record. */
  type IPv4 = a: Bytes | |a| == 4 witness [0, 0, 0, 0]

  type IPv6 = a: Bytes | |a| == 16 witness [0, 0, 0, 0, 0, 0, 0, 0, 0, 0, 0, 0, 0, 0, 0, 0]

  /** What `Serialize` writes for an address of `n` bytes: RDLENGTH `n`,
      then the address. */
  function AddrBytes(addr: Bytes): (out: Bytes)
    requires |addr| < 256
    ensures |out| == 2 + |addr|
  {
    [0, |addr|] + addr
  }

  /** What `Deserialize` reads for an address of `n` bytes: `None` when
      fewer than `2 + n` bytes remain or RDLENGTH is not `n`. */
  function ParseAddr(buf: Bytes, n: nat): (r: Option<Bytes>)
    requires n < 256
    ensures r.Some? ==> |r.value| == n
  {
    if |buf| < 2 + n then None
    else if buf[0] != 0 || buf[1] != n then None
    else Some(buf[2..2 + n])
  }

  /** An address is read back from what `Serialize` wrote, whatever
      follows it. */
  lemma AddrRoundTrip(addr: Bytes, rest: Bytes)
    requires |addr| < 256
    ensures ParseAddr(AddrBytes(addr) + rest, |addr|) == Some(addr)
  {
    assert (AddrBytes(addr) + rest)[2..2 + |addr|] == addr;
  }

  /** Reading fails exactly on a short buffer or a wrong RDLENGTH. */
  lemma ParseAddrFails(buf: Bytes, n: nat)
    requires n < 256
    ensures ParseAddr(buf, n).None? <==> |buf| < 2 + n || buf[0] != 0 || buf[1] != n
  {
  }

  /** `MDNSARData`: the IPv4 address of an A record. */
  class ARData {
    var addr: IPv4

    constructor(a: IPv4)
      ensures addr == a
    {
      addr := a;
    }

    /** `GetSerializedSize`: four address bytes and the length. */
    function GetSerializedSize(): (size: nat)
      reads this
      ensures size == |AddrBytes(addr)|
    {
      4 + 2
    }

    /** `Serialize`: RDLENGTH 4 and the address. */
    method Serialize() returns (out: Bytes, size: nat)
      ensures out == AddrBytes(addr) && size == |out|
    {
      out := [0, 4] + addr;
      size := 6;
    }

    /** `Deserialize`: 6 and the address read, or 0 and nothing changed. */
    method Deserialize(buf: Bytes) returns (size: nat)
      modifies this
      ensures size == if ParseAddr(buf, 4).Some? then 6 else 0
      ensures addr == if ParseAddr(buf, 4).Some? then ParseAddr(buf, 4).value else old(addr)
    {
      if |buf| < 6 {
        return 0;
      }
      if buf[0] != 0 || buf[1] != 4 {
        return 0;
      }
      addr := buf[2..6];
      size := 6;
    }
  }

  /** `MDNSAAAARData`: the IPv6 address of an AAAA record. */
  class AAAARData {
    var addr: IPv6

    constructor(a: IPv6)
      ensures addr == a
    {
      addr := a;
    }

    /** `GetSerializedSize`: sixteen address bytes and the length. */
    function GetSerializedSize(): (size: nat)
      reads this
      ensures size == |AddrBytes(addr)|
    {
      16 + 2
    }

    /** `Serialize`: RDLENGTH 16 and the address. */
    method Serialize() returns (out: Bytes, size: nat)
      ensures out == AddrBytes(addr) && size == |out|
    {
      out := [0, 16] + addr;
      size := 18;
    }

    /** `Deserialize`: 18 and the address read, or 0 and nothing changed. */
    method Deserialize(buf: Bytes) returns (size: nat)
      modifies this
      ensures size == if ParseAddr(buf, 16).Some? then 18 else 0
      ensures addr == if ParseAddr(buf, 16).Some? then ParseAddr(buf, 16).value else old(addr)
    {
      if |buf| < 18 {
        return 0;
      }
      if buf[0] != 0 || buf[1] != 16 {
        return 0;
      }
      addr := buf[2..18];
      size := 18;
    }
  }
}
