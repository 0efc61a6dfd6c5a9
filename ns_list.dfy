/** Records written one after another, as the question and answer loops of
    `_NSPacket` in router/ns/IpNsProtocol.cc write and read them. Each loop
    is the same whatever the record: `enc` writes one record, `size`
    predicts its length, `parse` reads one back into a fresh record and
    says how many bytes it took. */
module NsList {
  import opened CanFrame
  import opened NsWire

  /** The records of `xs`, each written by `enc`, in order. */
  function Concat<T>(enc: T -> Bytes, xs: seq<T>): Bytes
  {
    if xs == [] then [] else enc(xs[0]) + Concat(enc, xs[1..])
  }

  /** The sum of the predicted lengths. */
  function Total<T>(size: T -> nat, xs: seq<T>): nat
  {
    if xs == [] then 0 else size(xs[0]) + Total(size, xs[1..])
  }

  /** `f` of each record, in order. */
  function Map<T, U>(f: T -> U, xs: seq<T>): (ys: seq<U>)
    ensures |ys| == |xs|
  {
    if xs == [] then [] else [f(xs[0])] + Map(f, xs[1..])
  }

  /** A reader that never claims more bytes than it was given. */
  ghost predicate Consumes<T>(parse: Bytes -> Option<(T, nat)>)
  {
    forall b :: parse(b).Some? ==> parse(b).value.1 <= |b|
  }

  /** Where a reading loop stopped: the records read, the offset reached,
      and whether every announced record was read. */
  datatype Progress<T> = Progress(items: seq<T>, next: nat, complete: bool)

  /** A reading loop of `_NSPacket::Deserialize`: `k` more records from
      offset `p` of `buf`, after those in `acc`. */
  function ReadAll<T>(parse: Bytes -> Option<(T, nat)>, buf: Bytes, p: nat, k: nat, acc: seq<T>): (r: Progress<T>)
    requires Consumes(parse) && p <= |buf|
    ensures p <= r.next <= |buf|
    ensures |acc| <= |r.items| <= |acc| + k
    ensures r.complete <==> |r.items| == |acc| + k
    decreases k, 1
  {
    if k == 0 then Progress(acc, p, true) else ReadNext(parse, buf, p, k, acc)
  }

  /** One turn of the loop: the next record is read and the loop goes on,
      or it cannot be read and the loop stops there. */
  function ReadNext<T>(parse: Bytes -> Option<(T, nat)>, buf: Bytes, p: nat, k: nat, acc: seq<T>): (r: Progress<T>)
    requires Consumes(parse) && p <= |buf| && 0 < k
    ensures p <= r.next <= |buf|
    ensures |acc| <= |r.items| <= |acc| + k
    ensures r.complete <==> |r.items| == |acc| + k
    decreases k, 0
  {
    match parse(buf[p..])
    case None => Progress(acc, p, false)
    case Some((x, n)) => ReadAll(parse, buf, p + n, k - 1, acc + [x])
  }

  /** One record read: the loop goes on after it with one fewer to read. */
  lemma ReadAllStep<T>(parse: Bytes -> Option<(T, nat)>, buf: Bytes, p: nat, k: nat, acc: seq<T>, x: T, n: nat)
    requires Consumes(parse) && p <= |buf| && 0 < k && parse(buf[p..]) == Some((x, n))
    ensures p + n <= |buf|
    ensures ReadAll(parse, buf, p, k, acc) == ReadAll(parse, buf, p + n, k - 1, acc + [x])
  {
  }

  /** A record `parse` cannot read ends the loop where it stands. */
  lemma ReadAllStops<T>(parse: Bytes -> Option<(T, nat)>, buf: Bytes, p: nat, k: nat, acc: seq<T>)
    requires Consumes(parse) && p <= |buf| && 0 < k && parse(buf[p..]).None?
    ensures ReadAll(parse, buf, p, k, acc) == Progress(acc, p, false)
  {
  }

  /** The loop itself: each record read in turn until `count` are read or
      one cannot be; the records read, where reading stopped, and whether
      all were read. */
  method ReadLoop<T>(parse: Bytes -> Option<(T, nat)>, buf: Bytes, p: nat, count: nat) returns (items: seq<T>, next: nat, ok: bool)
    requires Consumes(parse) && p <= |buf|
    ensures Progress(items, next, ok) == ReadAll(parse, buf, p, count, [])
  {
    items, next := [], p;
    var i := 0;
    while i < count
      invariant 0 <= i <= count && next <= |buf|
      invariant ReadAll(parse, buf, next, count - i, items) == ReadAll(parse, buf, p, count, [])
    {
      var r := parse(buf[next..]);
      if r.None? {
        return items, next, false;
      }
      items := items + [r.value.0];
      next := next + r.value.1;
      i := i + 1;
    }
    ok := true;
  }

  /** Every record of `xs`, written by `enc` where the writing loop puts
      it, with `rest` after the last, is read back by `parse` as `recv` of
      it, taking exactly its bytes. */
  ghost predicate ReadsBack<T, U>(parse: Bytes -> Option<(T, nat)>, enc: U -> Bytes, recv: U -> T, xs: seq<U>, rest: Bytes)
    decreases |xs|
  {
    xs != [] ==>
      parse(enc(xs[0]) + (Concat(enc, xs[1..]) + rest)) == Some((recv(xs[0]), |enc(xs[0])|)) &&
      ReadsBack(parse, enc, recv, xs[1..], rest)
  }

  /** The first record of a list and what follows it, found at `p`. */
  lemma SplitAt(buf: Bytes, p: nat, b: Bytes, others: Bytes, rest: Bytes)
    requires p <= |buf| && buf[p..] == b + others + rest
    ensures buf[p..] == b + (others + rest)
    ensures p + |b| <= |buf| && buf[p + |b|..] == others + rest
  {
    assert b + others + rest == b + (others + rest);
    assert buf[p..][|b|..] == others + rest;
  }

  /** The reading loop reads back what the writing loop wrote, every record
      as `recv` of it, and stops right after it, whatever follows. */
  lemma {:induction false} ReadAllRoundTrip<T, U>(parse: Bytes -> Option<(T, nat)>, enc: U -> Bytes, recv: U -> T,
      buf: Bytes, p: nat, xs: seq<U>, rest: Bytes, acc: seq<T>)
    requires Consumes(parse) && ReadsBack(parse, enc, recv, xs, rest)
    requires p <= |buf| && buf[p..] == Concat(enc, xs) + rest
    decreases |xs|
    ensures ReadAll(parse, buf, p, |xs|, acc) == Progress(acc + Map(recv, xs), p + |Concat(enc, xs)|, true)
  {
    if xs == [] {
      assert acc + [] == acc;
    } else {
      var b, others, x := enc(xs[0]), Concat(enc, xs[1..]), recv(xs[0]);
      SplitAt(buf, p, b, others, rest);
      ReadAllStep(parse, buf, p, |xs|, acc, x, |b|);
      ReadAllRoundTrip(parse, enc, recv, buf, p + |b|, xs[1..], rest, acc + [x]);
      assert Concat(enc, xs) == b + others;
      assert Map(recv, xs) == [x] + Map(recv, xs[1..]);
      Assoc(acc, [x], Map(recv, xs[1..]));
    }
  }

  /** Writing one more record appends its bytes. */
  lemma {:induction false} ConcatSnoc<T>(enc: T -> Bytes, xs: seq<T>, x: T)
    ensures Concat(enc, xs + [x]) == Concat(enc, xs) + enc(x)
  {
    if xs == [] {
      assert [] + [x] == [x];
      assert [x][1..] == [];
    } else {
      assert (xs + [x])[1..] == xs[1..] + [x];
      ConcatSnoc(enc, xs[1..], x);
      assert enc(xs[0]) + (Concat(enc, xs[1..]) + enc(x)) == enc(xs[0]) + Concat(enc, xs[1..]) + enc(x);
    }
  }

  /** Measuring one more record adds its predicted length. */
  lemma {:induction false} TotalSnoc<T>(size: T -> nat, xs: seq<T>, x: T)
    ensures Total(size, xs + [x]) == Total(size, xs) + size(x)
  {
    if xs == [] {
      assert [] + [x] == [x];
      assert [x][1..] == [];
    } else {
      assert (xs + [x])[1..] == xs[1..] + [x];
      TotalSnoc(size, xs[1..], x);
    }
  }

  /** When every record's predicted length is its written length, so is
      the sum. */
  lemma {:induction false} TotalCoherent<T>(size: T -> nat, enc: T -> Bytes, xs: seq<T>)
    requires forall i :: 0 <= i < |xs| ==> size(xs[i]) == |enc(xs[i])|
    ensures Total(size, xs) == |Concat(enc, xs)|
  {
    if xs != [] {
      assert size(xs[0]) == |enc(xs[0])|;
      forall i | 0 <= i < |xs[1..]|
        ensures size(xs[1..][i]) == |enc(xs[1..][i])|
      {
        assert xs[1..][i] == xs[i + 1];
      }
      TotalCoherent(size, enc, xs[1..]);
    }
  }
}
