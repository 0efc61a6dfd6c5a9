/** The building blocks of the AllJoyn name-service wire format
    (router/ns/IpNsProtocol.cc): length-prefixed strings (`StringData`),
    16-bit fields in network byte order, and the lists of bus names that
    IS-AT and WHO-HAS records end with. A `qcc::String` is the bytes it
    holds, each byte a number below 256. A `Deserialize(buffer, bufsize)`
    reads the `bufsize` bytes at `buffer`, given here as one sequence; a
    result of 0 bytes read is `None`. */
module NsWire {
  import opened CanFrame

  type byte = x: int | 0 <= x < 256

  type Bytes = seq<byte>

  type u16 = x: int | 0 <= x < 0x1_0000

  /** `static_cast<uint8_t>` of a count or a length. */
  function LowByte(n: nat): byte
  {
    n % 256
  }

  /** A count below 256 keeps its value when cut to a byte. */
  lemma LowByteSmall(n: nat)
    requires n < 256
    ensures LowByte(n) == n
  {
  }

  /** Regrouping a concatenation. */
  lemma Assoc<T>(a: seq<T>, b: seq<T>, c: seq<T>)
    ensures a + b + c == a + (b + c)
  {
  }

  /** A 16-bit value in network byte order, most significant byte first. */
  function BigEndian(x: u16): Bytes
  {
    [x / 256, x % 256]
  }

  /** `(b0 << 8) | b1`. */
  function ReadBigEndian(b0: byte, b1: byte): u16
  {
    b0 * 256 + b1
  }

  lemma BigEndianRoundTrip(x: u16)
    ensures ReadBigEndian(BigEndian(x)[0], BigEndian(x)[1]) == x
  {
  }

  /** `StringData::GetSerializedSize`. */
  function StringSize(s: Bytes): nat
  {
    1 + |s|
  }

  /** What `StringData::Serialize` writes: the length as one byte, then the
      bytes of the string. */
  function StringBytes(s: Bytes): Bytes
  {
    [LowByte(|s|)] + s
  }

  /** `StringData::Deserialize`: the string and the bytes read, or `None`
      when there is no length byte or fewer bytes than it announces. */
  function ParseString(buf: Bytes): Option<(Bytes, nat)>
  {
    if |buf| < 1 then None
    else if |buf| - 1 < buf[0] then None
    else
      var n: nat := buf[0] as int + 1;
      Some((buf[1..n], n))
  }

  /** `StringData::Serialize` writes `GetSerializedSize` bytes. */
  lemma StringSizeCoherent(s: Bytes)
    ensures |StringBytes(s)| == StringSize(s)
  {
  }

  /** A string shorter than 256 bytes is read back whole from what
      `Serialize` wrote, whatever follows it. */
  lemma StringRoundTrip(s: Bytes, rest: Bytes)
    requires |s| < 256
    ensures ParseString(StringBytes(s) + rest) == Some((s, StringSize(s)))
  {
    assert (StringBytes(s) + rest)[1..1 + |s|] == s;
  }

  /** Reading fails exactly on an empty buffer or a length byte larger than
      the rest of it; otherwise the length byte says how much is read. */
  lemma ParseStringCases(buf: Bytes)
    ensures ParseString(buf) == None <==> |buf| == 0 || buf[0] > |buf| - 1
    ensures ParseString(buf).Some? ==>
      ParseString(buf).value.1 == 1 + buf[0] <= |buf| &&
      ParseString(buf).value.0 == buf[1..ParseString(buf).value.1]
  {
  }

  /** A string longer than 255 bytes gets the wrong length byte: it is read
      back cut to its length modulo 256. */
  lemma LongStringCut(s: Bytes)
    requires 256 <= |s|
    ensures ParseString(StringBytes(s)) == Some((s[..|s| % 256], 1 + |s| % 256))
  {
    assert StringBytes(s)[1..1 + |s| % 256] == s[..|s| % 256];
  }

  /** The bus names of a record, each as a `StringData`. */
  function NamesBytes(names: seq<Bytes>): Bytes
  {
    if names == [] then [] else StringBytes(names[0]) + NamesBytes(names[1..])
  }

  /** The sum of the names' `StringData::GetSerializedSize`. */
  function NamesSize(names: seq<Bytes>): nat
  {
    if names == [] then 0 else StringSize(names[0]) + NamesSize(names[1..])
  }

  /** Every name is short enough for its length byte. */
  predicate ShortNames(names: seq<Bytes>)
  {
    forall i :: 0 <= i < |names| ==> |names[i]| < 256
  }

  lemma {:induction false} NamesSnoc(names: seq<Bytes>, s: Bytes)
    ensures NamesBytes(names + [s]) == NamesBytes(names) + StringBytes(s)
    ensures NamesSize(names + [s]) == NamesSize(names) + StringSize(s)
  {
    if names == [] {
      assert [] + [s] == [s];
      assert [s][1..] == [];
    } else {
      assert (names + [s])[1..] == names[1..] + [s];
      NamesSnoc(names[1..], s);
    }
  }

  lemma {:induction false} NamesSizeCoherent(names: seq<Bytes>)
    ensures |NamesBytes(names)| == NamesSize(names)
  {
    if names != [] {
      NamesSizeCoherent(names[1..]);
    }
  }

  /** Reading `k` names after the ones in `acc`, with `used` bytes read so
      far: the names and the bytes read, or `None` when one of them cannot
      be read. */
  function ParseNames(buf: Bytes, k: nat, acc: seq<Bytes>, used: nat): Option<(seq<Bytes>, nat)>
    decreases k
  {
    if k == 0 then Some((acc, used))
    else match ParseString(buf)
      case None => None
      case Some((s, n)) => ParseNames(buf[n..], k - 1, acc + [s], used + n)
  }

  /** What the name loop of `Serialize` wrote is read back by the name loop
      of `Deserialize`, and exactly those bytes are read. */
  lemma {:induction false} NamesRoundTrip(names: seq<Bytes>, rest: Bytes, acc: seq<Bytes>, used: nat)
    requires ShortNames(names)
    ensures ParseNames(NamesBytes(names) + rest, |names|, acc, used) == Some((acc + names, used + |NamesBytes(names)|))
  {
    if names == [] {
      assert acc + names == acc;
    } else {
      var tail := NamesBytes(names[1..]) + rest;
      assert NamesBytes(names) + rest == StringBytes(names[0]) + tail;
      StringRoundTrip(names[0], tail);
      assert (StringBytes(names[0]) + tail)[StringSize(names[0])..] == tail;
      NamesRoundTrip(names[1..], rest, acc + [names[0]], used + StringSize(names[0]));
      assert acc + [names[0]] + names[1..] == acc + names;
      NamesSizeCoherent(names);
      NamesSizeCoherent(names[1..]);
    }
  }

  /** The name loop of `Serialize`: each name as a `StringData`, in order. */
  method SerializeNames(names: seq<Bytes>) returns (out: Bytes)
    ensures out == NamesBytes(names)
  {
    out := [];
    var i := 0;
    while i < |names|
      invariant 0 <= i <= |names|
      invariant out == NamesBytes(names[..i])
    {
      NamesSnoc(names[..i], names[i]);
      assert names[..i + 1] == names[..i] + [names[i]];
      out := out + StringBytes(names[i]);
      i := i + 1;
    }
    assert names[..i] == names;
  }

  /** The name loop of `GetSerializedSize`. */
  method MeasureNames(names: seq<Bytes>) returns (size: nat)
    ensures size == NamesSize(names)
  {
    size := 0;
    var i := 0;
    while i < |names|
      invariant 0 <= i <= |names|
      invariant size == NamesSize(names[..i])
    {
      NamesSnoc(names[..i], names[i]);
      assert names[..i + 1] == names[..i] + [names[i]];
      size := size + StringSize(names[i]);
      i := i + 1;
    }
    assert names[..i] == names;
  }

  /** The name loop of `Deserialize`: reads `count` names from `buf`, adding
      each to `names`; `ok` is false when one cannot be read. */
  method DeserializeNames(buf: Bytes, count: nat, names0: seq<Bytes>) returns (ok: bool, names: seq<Bytes>, used: nat)
    ensures ok <==> ParseNames(buf, count, names0, 0).Some?
    ensures ok ==> ParseNames(buf, count, names0, 0) == Some((names, used))
  {
    names := names0;
    used := 0;
    var i := 0;
    while i < count
      invariant 0 <= i <= count && used <= |buf|
      invariant ParseNames(buf[used..], count - i, names, used) == ParseNames(buf, count, names0, 0)
    {
      var s := ParseString(buf[used..]);
      if s.None? {
        return false, names, used;
      }
      var n := s.value.1;
      assert buf[used..][n..] == buf[used + n..];
      names := names + [s.value.0];
      used := used + n;
      i := i + 1;
    }
    ok := true;
  }
}
