/** The SocketCAN frame shared by the CAN programs, and the byte-level facts
    about its control byte that the segmentation proofs need. */
module CanFrame {

  /** A classic CAN frame: the 32-bit identifier word (29-bit identifier plus
      the EFF/RTR/ERR flag bits), the data length code, and the `dlc` data bytes. */
  datatype Frame = Frame(canId: bv32, dlc: nat, data: seq<bv8>)

  /** What the kernel hands out: at most 8 data bytes, exactly `dlc` of them. */
  predicate WellFormed(f: Frame)
  {
    f.dlc <= 8 && |f.data| == f.dlc
  }

  predicate AllWellFormed(fs: seq<Frame>)
  {
    forall k :: 0 <= k < |fs| ==> WellFormed(fs[k])
  }

  lemma WellFormedSuffix(fs: seq<Frame>, k: nat)
    requires AllWellFormed(fs) && k <= |fs|
    ensures AllWellFormed(fs[k..])
  {
    forall j | 0 <= j < |fs| - k ensures WellFormed(fs[k..][j]) {
      assert fs[k..][j] == fs[k + j];
    }
  }

  lemma PrefixSplit<T>(s: seq<T>, i: nat, j: nat)
    requires i <= j <= |s|
    ensures s[..i] + s[i..j] == s[..j]
  {
  }

  /** Writing `p` just after the prefix `a` of `a + s[|a|..]` gives `a + p`
      followed by the rest of `s`. */
  lemma Splice<T>(a: seq<T>, s: seq<T>, p: seq<T>)
    requires |a| + |p| <= |s|
    ensures Overwrite(a + s[|a|..], |a|, p) == (a + p) + s[|a| + |p|..]
  {
    assert (a + s[|a|..])[..|a|] == a;
    assert (a + s[|a|..])[|a| + |p|..] == s[|a| + |p|..];
  }

  lemma TakeLast<T>(s: seq<T>, k: nat)
    requires 0 < k <= |s|
    ensures s[..k] == s[..k - 1] + [s[k - 1]]
  {
  }

  /** `b` with `p` written from offset `off`. */
  function Overwrite<T>(b: seq<T>, off: nat, p: seq<T>): (r: seq<T>)
    requires off + |p| <= |b|
    ensures |r| == |b|
  {
    b[..off] + p + b[off + |p|..]
  }

  lemma OverwriteAt<T>(b: seq<T>, off: nat, p: seq<T>, j: nat)
    requires off + |p| <= |b| && j < |b|
    ensures Overwrite(b, off, p)[j] == if off <= j < off + |p| then p[j - off] else b[j]
  {
  }

  /** `memcpy(buffer + offset, bytes, |bytes|)`: the other bytes are kept. */
  method Memcpy(buffer: array<bv8>, offset: nat, bytes: seq<bv8>)
    requires offset + |bytes| <= buffer.Length
    modifies buffer
    ensures buffer[..] == Overwrite(old(buffer[..]), offset, bytes)
  {
    var k := 0;
    while k < |bytes|
      invariant 0 <= k <= |bytes|
      invariant forall j :: 0 <= j < buffer.Length && !(offset <= j < offset + k) ==> buffer[j] == old(buffer[j])
      invariant forall j :: offset <= j < offset + k ==> buffer[j] == bytes[j - offset]
    {
      buffer[offset + k] := bytes[k];
      k := k + 1;
    }
    ghost var want := old(buffer[..offset]) + bytes + old(buffer[offset + |bytes|..]);
    assert |want| == buffer.Length;
    forall j | 0 <= j < buffer.Length ensures buffer[j] == want[j] {
      if j < offset {
      } else if j < offset + |bytes| {
      } else {
      }
    }
    assert buffer[..] == want;
  }

  /** Data byte `k`; bytes past the frame's data read as 0. */
  function ByteAt(f: Frame, k: nat): bv8
  {
    if k < |f.data| then f.data[k] else 0
  }

  datatype Option<T> = None | Some(value: T)

  /** Data byte 0 (the protocol control byte); an empty frame reads as 0. */
  function Control(f: Frame): bv8
  {
    if |f.data| > 0 then f.data[0] else 0
  }

  /** The data bytes after the control byte. */
  function Payload(f: Frame): seq<bv8>
  {
    if |f.data| > 0 then f.data[1..] else []
  }

  /** The payloads of `fs`, concatenated in order. */
  function Payloads(fs: seq<Frame>): seq<bv8>
  {
    if fs == [] then [] else Payload(fs[0]) + Payloads(fs[1..])
  }

  lemma {:induction false} PayloadsAppend(fs: seq<Frame>, gs: seq<Frame>)
    ensures Payloads(fs + gs) == Payloads(fs) + Payloads(gs)
  {
    if fs == [] {
      assert fs + gs == gs;
    } else {
      assert (fs + gs)[1..] == fs[1..] + gs;
      PayloadsAppend(fs[1..], gs);
    }
  }

  lemma PayloadsOne(f: Frame)
    ensures Payloads([f]) == Payload(f)
  {
    assert [f][1..] == [];
  }

  /** `b | k << 3` keeps `b` in the low three bits and `k` above them. */
  lemma PackFields(k: bv8, s: bv8)
    requires k < 32 && s < 8
    ensures (s | (k << 3)) & 7 == s && (s | (k << 3)) >> 3 == k
  {
  }

  lemma SmallNatToByte(k: nat)
    requires k < 32
    ensures (k as bv8) as int == k
  {
  }
}
