/** `MDNSDomainName` of router/ns/IpNsProtocol.cc: a domain name on the wire
    as a run of labels, each a length byte and its bytes, ended by a 0 byte
    or by a two-byte pointer to an earlier occurrence of the rest of the
    name (message compression, section 4.1.4 of RFC 1035). A name is a
    `qcc::String`, given here as its bytes; its labels are separated by
    dots.

    Writing a name records where each suffix of it starts in the `offsets`
    map (name to position), so that a later name ending in that suffix
    points back to it; reading records the same positions in the
    `compressedOffsets` map (position to name). Positions count from the
    start of the message: `headerOffset` is where the name starts. */
module MdnsName {
  import opened CanFrame
  import opened NsWire

  /** `'.'`. */
  const Dot: byte := 46

  /** `find_first_of('.')`: where the first dot is, or the length of the
      name when there is none. */
  function FirstDot(name: Bytes): (i: nat)
    ensures i <= |name|
  {
    if name == [] || name[0] == Dot then 0 else 1 + FirstDot(name[1..])
  }

  /** What `FirstDot` finds, when it finds something, is a dot. */
  lemma {:induction false} FirstDotFound(name: Bytes)
    ensures FirstDot(name) < |name| ==> name[FirstDot(name)] == Dot
  {
    if name != [] && name[0] != Dot {
      FirstDotFound(name[1..]);
    }
  }

  /** No dot comes before the one `FirstDot` finds. */
  lemma {:induction false} FirstDotIsFirst(name: Bytes, j: nat)
    requires j < FirstDot(name)
    ensures name[j] != Dot
  {
    if j > 0 {
      FirstDotIsFirst(name[1..], j - 1);
    }
  }

  /** `name.substr(0, newPos)`: the first label. */
  function Label(name: Bytes): Bytes
  {
    name[..FirstDot(name)]
  }

  /** `name.substr(pos)`: what follows the first dot, empty when there is
      no dot. */
  function Remainder(name: Bytes): (r: Bytes)
    ensures name != [] ==> |r| < |name|
  {
    if FirstDot(name) < |name| then name[FirstDot(name) + 1..] else []
  }

  /** A fully qualified name: labels of 1 to 63 bytes (section 2.3.4 of
      RFC 1035), each followed by a dot; the root is the empty name. */
  predicate Qualified(name: Bytes)
    decreases |name|
  {
    name == [] || (0 < FirstDot(name) < 64 && FirstDot(name) < |name| && Qualified(Remainder(name)))
  }

  /** What `GetSerializedSize` computes and the `offsets` it leaves: every
      suffix it writes out is entered with the placeholder 0. */
  datatype Measured = Measured(size: nat, offsets: map<Bytes, nat>)

  function MeasureName(name: Bytes, offsets: map<Bytes, nat>): Measured
    decreases |name|
  {
    if name == [] then Measured(1, offsets)
    else if name in offsets then Measured(2, offsets)
    else
      var r := MeasureName(Remainder(name), offsets[name := 0]);
      Measured(1 + |Label(name)| + r.size, r.offsets)
  }

  /** `0xc0 | ((offset & 0xFF00) >> 8)` then `offset & 0xFF`: a pointer
      keeps the low 14 bits of the offset. */
  function Pointer(offset: nat): Bytes
  {
    [0xC0 + offset / 256 % 64, offset % 256]
  }

  /** What `Serialize` writes and the `offsets` it leaves, for a name
      written at position `pos` of the message. */
  datatype Written = Written(bytes: Bytes, offsets: map<Bytes, nat>)

  function WriteName(name: Bytes, offsets: map<Bytes, nat>, pos: nat): Written
    decreases |name|
  {
    if name == [] then Written([0], offsets)
    else if name in offsets then Written(Pointer(offsets[name]), offsets)
    else
      var first := Label(name);
      var r := WriteName(Remainder(name), offsets[name := pos], pos + 1 + |first|);
      Written([LowByte(|first|)] + first + r.bytes, r.offsets)
  }

  /** The positions at which `Serialize` writes the labels of `name`. */
  function LabelPositions(name: Bytes, offsets: map<Bytes, nat>, pos: nat): seq<nat>
    decreases |name|
  {
    if name == [] || name in offsets then []
    else [pos] + LabelPositions(Remainder(name), offsets[name := pos], pos + 1 + |Label(name)|)
  }

  /** The name read so far followed by a dot, as `Deserialize` puts one
      before each label and at the end of a name that has any. */
  function Dotted(name: Bytes): Bytes
  {
    if name == [] then [] else name + [Dot]
  }

  /** `m_name.substr(i)`: empty past the end. */
  function Suffix(name: Bytes, i: int): Bytes
  {
    if 0 <= i <= |name| then name[i..] else []
  }

  /** Where the label loop of `Deserialize` stops: whether it succeeded, the
      name as far as it was read, the bytes read (0 on failure), and the
      positions of the labels it read. */
  datatype NameRead = NameRead(ok: bool, name: Bytes, size: nat, marks: seq<nat>)

  /** A successful reading that started `k` bytes later. */
  function Shift(k: nat, r: NameRead): NameRead
  {
    if r.ok then NameRead(true, r.name, k + r.size, r.marks) else r
  }

  /** The label loop of `Deserialize` on the bytes `b` left in the buffer,
      the first of them at position `at` of the message, with `name` and
      `marks` read so far: the loop runs while bytes remain. */
  function ReadLabels(b: Bytes, at: nat, compressed: map<nat, Bytes>, name: Bytes, marks: seq<nat>): (r: NameRead)
    ensures r.ok ==> r.size <= |b|
    ensures !r.ok ==> r.size == 0
    decreases |b|, 1
  {
    if b == [] then NameRead(true, name, 0, marks) else ReadStep(b, at, compressed, name, marks)
  }

  /** One turn of the loop. A byte whose top two bits are set, with one
      more byte after it, is a pointer (its low 14 bits) that must be known; otherwise it is
      a length that must fit in what remains, and 0 ends the name. */
  function ReadStep(b: Bytes, at: nat, compressed: map<nat, Bytes>, name: Bytes, marks: seq<nat>): (r: NameRead)
    requires b != []
    ensures r.ok ==> 0 < r.size <= |b|
    ensures !r.ok ==> r.size == 0
    decreases |b|, 0
  {
    if 0xC0 <= b[0] && |b| > 1 then
      var pointer := (b[0] as int - 0xC0) * 256 + b[1] as int;
      if pointer in compressed then NameRead(true, Dotted(name) + compressed[pointer], 2, marks)
      else NameRead(false, name, 0, marks)
    else if |b| - 1 < b[0] then NameRead(false, name, 0, marks)
    else if b[0] == 0 then NameRead(true, Dotted(name), 1, marks)
    else
      Shift(1 + b[0], ReadLabels(b[1 + b[0]..], at + 1 + b[0], compressed, Dotted(name) + b[1..1 + b[0]], marks + [at]))
  }

  /** `Deserialize` before the offsets are recorded: an empty buffer is
      refused before the loop. */
  function ReadName(buf: Bytes, compressed: map<nat, Bytes>, headerOffset: nat): (r: NameRead)
    ensures r.ok ==> 0 < r.size <= |buf|
  {
    if |buf| < 1 then NameRead(false, [], 0, [])
    else ReadLabels(buf, headerOffset, compressed, [], [])
  }

  /** The closing loop of `Deserialize`: each label position read is
      entered in `compressedOffsets` with the name from that label on. */
  function Register(compressed: map<nat, Bytes>, marks: seq<nat>, name: Bytes, headerOffset: nat): map<nat, Bytes>
    decreases |marks|
  {
    if marks == [] then compressed
    else Register(compressed[marks[0] := Suffix(name, marks[0] - headerOffset)], marks[1..], name, headerOffset)
  }

  /** Every name the writer's `offsets` knows, of at most `k` bytes, is
      where a pointer can reach, and the reader's `compressedOffsets` has
      it there. */
  ghost predicate AgreeUpTo(offsets: map<Bytes, nat>, compressed: map<nat, Bytes>, k: nat)
  {
    forall n {:trigger offsets[n]} :: n in offsets && |n| <= k ==>
      offsets[n] < 0x4000 && offsets[n] in compressed && compressed[offsets[n]] == n
  }

  /** The writer's and the reader's maps agree on every name. */
  ghost predicate Agree(offsets: map<Bytes, nat>, compressed: map<nat, Bytes>)
  {
    forall n :: n in offsets ==>
      offsets[n] < 0x4000 && offsets[n] in compressed && compressed[offsets[n]] == n
  }

  // ---------------------------------------------------------------------
  // Measuring and writing

  /** `GetSerializedSize` predicts the number of bytes `Serialize` writes,
      and enters the same names, when both start from maps with the same
      names. */
  lemma {:induction false} MeasureMatchesWrite(name: Bytes, measured: map<Bytes, nat>, written: map<Bytes, nat>, pos: nat)
    requires measured.Keys == written.Keys
    decreases |name|
    ensures MeasureName(name, measured).size == |WriteName(name, written, pos).bytes|
    ensures MeasureName(name, measured).offsets.Keys == WriteName(name, written, pos).offsets.Keys
  {
    if name != [] && name !in measured {
      MeasureMatchesWrite(Remainder(name), measured[name := 0], written[name := pos], pos + 1 + |Label(name)|);
    }
  }

  /** A pointer's first byte has its top two bits set, and the two bytes
      give back the low 14 bits of the offset. */
  lemma PointerRead(offset: nat)
    ensures 0xC0 <= Pointer(offset)[0]
    ensures (Pointer(offset)[0] as int - 0xC0) * 256 + Pointer(offset)[1] as int == offset % 0x4000
  {
    var q, r := offset / 256, offset % 256;
    var hi, lo := q / 64, q % 64;
    assert offset == 0x4000 * hi + (256 * lo + r);
    LowBits(offset, hi, 256 * lo + r);
  }

  /** The low 14 bits are the one `r` with `n == 0x4000 * q + r` and
      `0 <= r < 0x4000`. */
  lemma LowBits(n: nat, q: nat, r: nat)
    requires n == 0x4000 * q + r && r < 0x4000
    ensures n % 0x4000 == r
  {
  }

  /** Bytes that end in a 0 byte or in a pointer, whose first byte has its
      top two bits set. */
  predicate Terminated(w: Bytes)
  {
    0 < |w| && (w[|w| - 1] == 0 || (2 <= |w| && 0xC0 <= w[|w| - 2]))
  }

  /** What `Serialize` writes ends in a 0 byte or in a pointer, whose first
      byte has its top two bits set. */
  lemma {:induction false} WrittenEnd(name: Bytes, offsets: map<Bytes, nat>, pos: nat)
    decreases |name|
    ensures Terminated(WriteName(name, offsets, pos).bytes)
  {
    if name == [] {
    } else if name in offsets {
      PointerRead(offsets[name]);
    } else {
      var first := Label(name);
      var r := WriteName(Remainder(name), offsets[name := pos], pos + 1 + |first|).bytes;
      WrittenEnd(Remainder(name), offsets[name := pos], pos + 1 + |first|);
      SameEnd([LowByte(|first|)] + first, r);
    }
  }

  /** Bytes put before terminated ones leave them terminated. */
  lemma SameEnd(a: Bytes, r: Bytes)
    requires Terminated(r)
    ensures Terminated(a + r)
  {
    assert (a + r)[|a + r| - 1] == r[|r| - 1];
    assert 2 <= |r| ==> (a + r)[|a + r| - 2] == r[|r| - 2];
  }

  // ---------------------------------------------------------------------
  // Reading back

  /** A name with a dot is its first label, the dot, and the rest. */
  lemma LabelSplit(name: Bytes)
    requires FirstDot(name) < |name|
    ensures name == Label(name) + [Dot] + Remainder(name)
  {
    FirstDotFound(name);
    SplitAround(name, FirstDot(name));
  }

  lemma SplitAround(s: Bytes, i: nat)
    requires i < |s|
    ensures s == s[..i] + [s[i]] + s[i + 1..]
  {
    assert s == s[..i] + s[i..];
    assert s[i..] == [s[i]] + s[i + 1..];
  }

  /** `Serialize` writes `w` for `name`, with labels at `positions`. */
  ghost predicate WritesAs(name: Bytes, offsets: map<Bytes, nat>, at: nat, w: Bytes, positions: seq<nat>)
  {
    WriteName(name, offsets, at).bytes == w && LabelPositions(name, offsets, at) == positions
  }

  /** Reading the labels of `b` gives `r`. */
  ghost predicate ReadsAs(b: Bytes, at: nat, compressed: map<nat, Bytes>, acc: Bytes, marks: seq<nat>, r: NameRead)
  {
    ReadLabels(b, at, compressed, acc, marks) == r
  }

  /** A 0 byte ends the name read so far. */
  lemma ReadEnd(at: nat, compressed: map<nat, Bytes>, acc: Bytes, marks: seq<nat>, rest: Bytes)
    ensures ReadLabels([0] + rest, at, compressed, acc, marks) == NameRead(true, Dotted(acc), 1, marks)
  {
  }

  /** A pointer to a known offset ends the name with the name recorded
      there. */
  lemma ReadPointer(offset: nat, at: nat, compressed: map<nat, Bytes>, acc: Bytes, marks: seq<nat>, rest: Bytes)
    requires offset < 0x4000 && offset in compressed
    ensures ReadLabels(Pointer(offset) + rest, at, compressed, acc, marks) ==
      NameRead(true, Dotted(acc) + compressed[offset], 2, marks)
  {
    PointerRead(offset);
  }

  /** A label is added to the name read so far, its position is marked,
      and the loop goes on after it. */
  lemma ReadLabel(first: Bytes, tail: Bytes, at: nat, compressed: map<nat, Bytes>, acc: Bytes, marks: seq<nat>)
    requires 0 < |first| < 64
    ensures ReadLabels([LowByte(|first|)] + first + tail, at, compressed, acc, marks) ==
      Shift(1 + |first|, ReadLabels(tail, at + 1 + |first|, compressed, Dotted(acc) + first, marks + [at]))
  {
    var b := [LowByte(|first|)] + first + tail;
    LowByteSmall(|first|);
    assert b[0] == |first|;
    assert b[1..1 + |first|] == first;
    assert b[1 + |first|..] == tail;
  }

  /** A qualified name is its first label, a dot, and a qualified rest. */
  lemma QualifiedStep(name: Bytes)
    requires Qualified(name) && name != []
    ensures 0 < |Label(name)| < 64 && Qualified(Remainder(name))
    ensures name == Label(name) + [Dot] + Remainder(name)
  {
    LabelSplit(name);
  }


  /** Entering `name` in the writer's map leaves it agreeing with the
      reader's on the names shorter than `name`. */
  lemma AgreeShorter(offsets: map<Bytes, nat>, compressed: map<nat, Bytes>, name: Bytes, pos: nat, k: nat)
    requires AgreeUpTo(offsets, compressed, |name|) && k < |name|
    ensures AgreeUpTo(offsets[name := pos], compressed, k)
  {
  }

  /** The label loop of `Deserialize` reads back a fully qualified name as
      `Serialize` wrote it at the same position, pointers included, when
      the reader's map has every name the writer's map could point to;
      it stops right after it and marks where its labels were. */
  lemma {:induction false} LabelsRoundTrip(name: Bytes, offsets: map<Bytes, nat>, compressed: map<nat, Bytes>,
      at: nat, acc: Bytes, marks: seq<nat>, rest: Bytes, w: Bytes, positions: seq<nat>)
    requires Qualified(name) && AgreeUpTo(offsets, compressed, |name|)
    requires WritesAs(name, offsets, at, w, positions) == true
    decreases |name|, 1
    ensures ReadsAs(w + rest, at, compressed, acc, marks, NameRead(true, Dotted(acc) + name, |w|, marks + positions)) == true
  {
    if name == [] {
      ReadEnd(at, compressed, acc, marks, rest);
      assert marks + [] == marks;
    } else if name in offsets {
      ReadPointer(offsets[name], at, compressed, acc, marks, rest);
      assert marks + [] == marks;
    } else {
      LabelRoundTrip(name, offsets, compressed, at, acc, marks, rest, w, positions);
    }
  }

  /** The case of a name not written before: its first label, then the
      rest of it read back by the same loop. */
  lemma {:induction false} LabelRoundTrip(name: Bytes, offsets: map<Bytes, nat>, compressed: map<nat, Bytes>,
      at: nat, acc: Bytes, marks: seq<nat>, rest: Bytes, w: Bytes, positions: seq<nat>)
    requires name != [] && name !in offsets
    requires Qualified(name) && AgreeUpTo(offsets, compressed, |name|)
    requires WritesAs(name, offsets, at, w, positions) == true
    decreases |name|, 0
    ensures ReadsAs(w + rest, at, compressed, acc, marks, NameRead(true, Dotted(acc) + name, |w|, marks + positions)) == true
  {
    QualifiedStep(name);
    WriteStep(name, offsets, at, w, positions);
    AgreeShorter(offsets, compressed, name, at, |Remainder(name)|);
    LabelsRoundTrip(Remainder(name), offsets[name := at], compressed, at + 1 + |Label(name)|,
      Dotted(acc) + Label(name), marks + [at], rest, w[1 + |Label(name)|..], positions[1..]);
    LabelCase(Label(name), Remainder(name), name, w[1 + |Label(name)|..], rest, at, compressed, acc, marks,
      positions[1..], w, positions);
  }


  /** The label step of the round trip: once the rest of the name reads
      back after the label, the whole name does. */
  lemma LabelCase(first: Bytes, rem: Bytes, whole: Bytes, w: Bytes, rest: Bytes, at: nat, compressed: map<nat, Bytes>,
      acc: Bytes, marks: seq<nat>, positions: seq<nat>, written: Bytes, allPositions: seq<nat>)
    requires 0 < |first| < 64 && whole == first + [Dot] + rem
    requires written == [LowByte(|first|)] + first + w && allPositions == [at] + positions
    requires ReadsAs(w + rest, at + 1 + |first|, compressed, Dotted(acc) + first, marks + [at],
      NameRead(true, Dotted(Dotted(acc) + first) + rem, |w|, marks + [at] + positions)) == true
    ensures ReadsAs(written + rest, at, compressed, acc, marks,
      NameRead(true, Dotted(acc) + whole, |written|, marks + allPositions)) == true
  {
    Assoc(written, [], rest);
    Assoc([LowByte(|first|)] + first, w, rest);
    ReadLabel(first, w + rest, at, compressed, acc, marks);
    Assoc<nat>(marks, [at], positions);
    Assoc(Dotted(acc), first + [Dot], rem);
    assert Dotted(Dotted(acc) + first) == Dotted(acc) + first + [Dot];
  }


  /** What `Serialize` writes for a name it has not written before: its
      first label, then the rest of the name written after it. */
  lemma WriteStep(name: Bytes, offsets: map<Bytes, nat>, at: nat, w: Bytes, positions: seq<nat>)
    requires name != [] && name !in offsets && WritesAs(name, offsets, at, w, positions)
    ensures 1 + |Label(name)| <= |w| && 0 < |positions|
    ensures w == [LowByte(|Label(name)|)] + Label(name) + w[1 + |Label(name)|..] && positions == [at] + positions[1..]
    ensures WritesAs(Remainder(name), offsets[name := at], at + 1 + |Label(name)|, w[1 + |Label(name)|..], positions[1..]) == true
  {
    var r := WriteName(Remainder(name), offsets[name := at], at + 1 + |Label(name)|).bytes;
    assert w == [LowByte(|Label(name)|)] + Label(name) + r;
    assert w[1 + |Label(name)|..] == r;
  }


  /** `Deserialize` reads back a fully qualified name as `Serialize` wrote
      it, whatever follows, when the reader's map agrees with the writer's:
      the same name, the bytes written, and the positions of the labels
      written out. */
  lemma NameRoundTrip(name: Bytes, offsets: map<Bytes, nat>, compressed: map<nat, Bytes>, headerOffset: nat, rest: Bytes)
    requires Qualified(name) && Agree(offsets, compressed)
    ensures ReadName(WriteName(name, offsets, headerOffset).bytes + rest, compressed, headerOffset) ==
      NameRead(true, name, |WriteName(name, offsets, headerOffset).bytes|, LabelPositions(name, offsets, headerOffset))
  {
    WrittenEnd(name, offsets, headerOffset);
    LabelsRoundTrip(name, offsets, compressed, headerOffset, [], [], rest,
      WriteName(name, offsets, headerOffset).bytes, LabelPositions(name, offsets, headerOffset));
    assert [] + name == name;
  }

  /** `Serialize` has written `out` and has `name` left to write, with
      `offsets` as it stands: what it will have written in the end is
      `total`. */
  ghost predicate WritesOn(out: Bytes, name: Bytes, offsets: map<Bytes, nat>, headerOffset: nat, total: Written)
  {
    var w := WriteName(name, offsets, headerOffset + |out|);
    Written(out + w.bytes, w.offsets) == total
  }

  /** Nothing written yet: the whole name is left. */
  lemma WritesOnStart(name: Bytes, offsets: map<Bytes, nat>, headerOffset: nat)
    ensures WritesOn([], name, offsets, headerOffset, WriteName(name, offsets, headerOffset)) == true
  {
    var w := WriteName(name, offsets, headerOffset);
    assert [] + w.bytes == w.bytes;
    assert Written(w.bytes, w.offsets) == w;
  }

  /** The empty name is written as the terminating zero. */
  lemma WritesOnEnd(out: Bytes, offsets: map<Bytes, nat>, headerOffset: nat, total: Written)
    requires WritesOn(out, [], offsets, headerOffset, total) == true
    ensures total == Written(out + [0], offsets)
  {
  }

  /** A suffix written before is written as a pointer to it. */
  lemma WritesOnPointer(out: Bytes, name: Bytes, offsets: map<Bytes, nat>, headerOffset: nat, total: Written)
    requires name != [] && name in offsets
    requires WritesOn(out, name, offsets, headerOffset, total) == true
    ensures total == Written(out + Pointer(offsets[name]), offsets)
  {
  }

  /** A new suffix: its position is entered, its first label written, and
      the rest of the name is left. */
  lemma WritesOnLabel(out: Bytes, name: Bytes, offsets: map<Bytes, nat>, headerOffset: nat, total: Written)
    requires name != [] && name !in offsets
    requires WritesOn(out, name, offsets, headerOffset, total) == true
    ensures WritesOn(out + ([LowByte(|Label(name)|)] + Label(name)), Remainder(name),
      offsets[name := headerOffset + |out|], headerOffset, total) == true
  {
    var pos := headerOffset + |out|;
    var first := [LowByte(|Label(name)|)] + Label(name);
    var r := WriteName(Remainder(name), offsets[name := pos], pos + 1 + |Label(name)|);
    assert WriteName(name, offsets, pos) == Written(first + r.bytes, r.offsets);
    Assoc(out, first, r.bytes);
  }

  /** The label loop of `Deserialize` has read `size` bytes of `buf`, with
      `name` and `marks` so far: what it reads in the end is `total`. */
  ghost predicate ReadsOn(buf: Bytes, size: nat, headerOffset: nat, compressed: map<nat, Bytes>, name: Bytes, marks: seq<nat>, total: NameRead)
  {
    size <= |buf| && Shift(size, ReadLabels(buf[size..], headerOffset + size, compressed, name, marks)) == total
  }

  /** Nothing read yet from a buffer that is not empty. */
  lemma ReadsOnStart(buf: Bytes, compressed: map<nat, Bytes>, headerOffset: nat)
    requires 0 < |buf|
    ensures ReadsOn(buf, 0, headerOffset, compressed, [], [], ReadName(buf, compressed, headerOffset)) == true
  {
    assert buf[0..] == buf;
  }

  /** The buffer ran out after a label: the name ends there. */
  lemma ReadsOnEmpty(buf: Bytes, size: nat, headerOffset: nat, compressed: map<nat, Bytes>, name: Bytes, marks: seq<nat>, total: NameRead)
    requires size == |buf|
    requires ReadsOn(buf, size, headerOffset, compressed, name, marks, total)
    ensures total == NameRead(true, name, size, marks)
  {
    assert buf[size..] == [];
  }

  /** A pointer ends the name with the one recorded at its offset, or fails
      when none is. */
  lemma ReadsOnPointer(buf: Bytes, size: nat, headerOffset: nat, compressed: map<nat, Bytes>, name: Bytes, marks: seq<nat>, total: NameRead)
    requires size + 1 < |buf| && 0xC0 <= buf[size]
    requires ReadsOn(buf, size, headerOffset, compressed, name, marks, total)
    ensures var pointer := (buf[size] as int - 0xC0) * 256 + buf[size + 1] as int;
      total == if pointer in compressed then NameRead(true, Dotted(name) + compressed[pointer], size + 2, marks)
        else NameRead(false, name, 0, marks)
  {
    var b := buf[size..];
    assert b[0] == buf[size] && b[1] == buf[size + 1];
    assert ReadLabels(b, headerOffset + size, compressed, name, marks) == ReadStep(b, headerOffset + size, compressed, name, marks);
  }

  /** A length larger than what is left fails. */
  lemma ReadsOnShort(buf: Bytes, size: nat, headerOffset: nat, compressed: map<nat, Bytes>, name: Bytes, marks: seq<nat>, total: NameRead)
    requires size < |buf| && !(0xC0 <= buf[size] && size + 1 < |buf|) && |buf| - size - 1 < buf[size]
    requires ReadsOn(buf, size, headerOffset, compressed, name, marks, total)
    ensures total == NameRead(false, name, 0, marks)
  {
    var b := buf[size..];
    assert b[0] == buf[size];
    assert ReadLabels(b, headerOffset + size, compressed, name, marks) == ReadStep(b, headerOffset + size, compressed, name, marks);
  }

  /** A zero length ends the name. */
  lemma ReadsOnZero(buf: Bytes, size: nat, headerOffset: nat, compressed: map<nat, Bytes>, name: Bytes, marks: seq<nat>, total: NameRead)
    requires size < |buf| && buf[size] == 0
    requires ReadsOn(buf, size, headerOffset, compressed, name, marks, total)
    ensures total == NameRead(true, Dotted(name), size + 1, marks)
  {
    var b := buf[size..];
    assert b[0] == buf[size];
    assert ReadLabels(b, headerOffset + size, compressed, name, marks) == ReadStep(b, headerOffset + size, compressed, name, marks);
  }

  /** A label that fits: its start is marked, its bytes join the name, and
      the loop goes on after it. */
  lemma ReadsOnLabel(buf: Bytes, size: nat, headerOffset: nat, compressed: map<nat, Bytes>, name: Bytes, marks: seq<nat>, total: NameRead)
    requires size < |buf| && !(0xC0 <= buf[size] && size + 1 < |buf|) && 0 < buf[size] <= |buf| - size - 1
    requires ReadsOn(buf, size, headerOffset, compressed, name, marks, total)
    ensures ReadsOn(buf, size + 1 + buf[size], headerOffset, compressed,
      Dotted(name) + buf[size + 1..size + 1 + buf[size]], marks + [headerOffset + size], total) == true
  {
    var b := buf[size..];
    assert b[0] == buf[size];
    assert b[1..1 + b[0]] == buf[size + 1..size + 1 + buf[size]];
    assert b[1 + b[0]..] == buf[size + 1 + buf[size]..];
    assert ReadLabels(b, headerOffset + size, compressed, name, marks) == ReadStep(b, headerOffset + size, compressed, name, marks);
  }

  // ---------------------------------------------------------------------
  // The class

  /** `MDNSDomainName`: the name it holds, as bytes. */
  class DomainName {
    var name: Bytes

    constructor()
      ensures name == []
    {
      name := [];
    }

    method SetName(n: Bytes)
      modifies this
      ensures name == n
    {
      name := n;
    }

    function GetName(): (n: Bytes)
      reads this
      ensures n == name
    {
      name
    }

    /** `GetSerializedSize`: the size `Serialize` will need, entering each
        suffix it would write out in `offsets` with the placeholder 0. */
    method GetSerializedSize(offsets: map<Bytes, nat>) returns (size: nat, offsets': map<Bytes, nat>)
      ensures Measured(size, offsets') == MeasureName(name, offsets)
    {
      size, offsets' := 0, offsets;
      var n := name;
      while true
        invariant Measured(size + MeasureName(n, offsets').size, MeasureName(n, offsets').offsets) ==
          MeasureName(name, offsets)
        decreases |n|
      {
        if n == [] {
          size := size + 1;
          break;
        } else if n in offsets' {
          size := size + 2;
          break;
        } else {
          offsets' := offsets'[n := 0];
          var temp := Label(n);
          size := size + 1 + |temp|;
          n := Remainder(n);
        }
      }
    }

    /** `Serialize` into a buffer at position `headerOffset` of the message:
        the bytes written, their number, and `offsets` with every suffix
        written out entered at its position. */
    method Serialize(offsets: map<Bytes, nat>, headerOffset: nat) returns (out: Bytes, size: nat, offsets': map<Bytes, nat>)
      ensures Written(out, offsets') == WriteName(name, offsets, headerOffset) && size == |out|
    {
      ghost var total := WriteName(name, offsets, headerOffset);
      out, offsets' := [], offsets;
      var n := name;
      WritesOnStart(name, offsets, headerOffset);
      while true
        invariant WritesOn(out, n, offsets', headerOffset, total) == true
        decreases |n|
      {
        if n == [] {
          WritesOnEnd(out, offsets', headerOffset, total);
          out := out + [0];
          break;
        } else if n in offsets' {
          WritesOnPointer(out, n, offsets', headerOffset, total);
          out := out + Pointer(offsets'[n]);
          break;
        } else {
          WritesOnLabel(out, n, offsets', headerOffset, total);
          var temp := Label(n);
          offsets' := offsets'[n := headerOffset + |out|];
          out := out + ([LowByte(|temp|)] + temp);
          n := Remainder(n);
        }
      }
      size := |out|;
    }

    /** `Deserialize` from the bytes `buf` found at position `headerOffset`
        of the message: the bytes read, 0 on failure, and the
        `compressedOffsets` map, which records where each label read
        starts once the whole name has been read. */
    method Deserialize(buf: Bytes, compressed: map<nat, Bytes>, headerOffset: nat) returns (size: nat, compressed': map<nat, Bytes>)
      modifies this
      ensures size == ReadName(buf, compressed, headerOffset).size
      ensures name == ReadName(buf, compressed, headerOffset).name
      ensures compressed' == if ReadName(buf, compressed, headerOffset).ok
        then Register(compressed, ReadName(buf, compressed, headerOffset).marks, name, headerOffset)
        else compressed
    {
      name := [];
      size, compressed' := 0, compressed;
      if |buf| < 1 {
        return;
      }
      ghost var total := ReadName(buf, compressed, headerOffset);
      var marks: seq<nat> := [];
      var bufsize := |buf|;
      ReadsOnStart(buf, compressed, headerOffset);
      while bufsize > 0
        invariant 0 <= bufsize && size + bufsize == |buf|
        invariant ReadsOn(buf, size, headerOffset, compressed, name, marks, total) == true
        decreases bufsize
      {
        if 0xC0 <= buf[size] && bufsize > 1 {
          ReadsOnPointer(buf, size, headerOffset, compressed, name, marks, total);
          var pointer := (buf[size] as int - 0xC0) * 256 + buf[size + 1] as int;
          if pointer in compressed {
            name := Dotted(name) + compressed[pointer];
            size := size + 2;
            break;
          } else {
            size := 0;
            return;
          }
        }
        var tempSize := buf[size];
        if bufsize - 1 < tempSize {
          ReadsOnShort(buf, size, headerOffset, compressed, name, marks, total);
          size := 0;
          return;
        }
        if tempSize > 0 {
          ReadsOnLabel(buf, size, headerOffset, compressed, name, marks, total);
          marks := marks + [headerOffset + size];
          name := Dotted(name) + buf[size + 1..size + 1 + tempSize];
          bufsize, size := bufsize - 1 - tempSize, size + 1 + tempSize;
        } else {
          ReadsOnZero(buf, size, headerOffset, compressed, name, marks, total);
          name := Dotted(name);
          size := size + 1;
          break;
        }
      }
      if bufsize == 0 {
        ReadsOnEmpty(buf, size, headerOffset, compressed, name, marks, total);
      }
      var i := 0;
      while i < |marks|
        invariant i <= |marks|
        invariant Register(compressed', marks[i..], name, headerOffset) == Register(compressed, marks, name, headerOffset)
      {
        assert marks[i..][1..] == marks[i + 1..];
        compressed' := compressed'[marks[i] := Suffix(name, marks[i] - headerOffset)];
        i := i + 1;
      }
    }
  }
}
