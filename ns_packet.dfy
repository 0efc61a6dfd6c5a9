/** `_NSPacket` of router/ns/IpNsProtocol.cc: a name-service message made
    of a version byte, a count of questions, a count of answers, a timer,
    then the WHO-HAS questions and the IS-AT answers one after another. */
module NsPacket {
  import opened CanFrame
  import opened NsWire
  import opened NsRecords
  import opened NsList

  /** The four fixed bytes: version, question count, answer count, timer,
      each count cut to its low byte. */
  function Header(version: byte, timer: byte, qs: seq<WhoHas>, rs: seq<IsAt>): Bytes
  {
    [version, LowByte(|qs|), LowByte(|rs|), timer]
  }

  /** What `_NSPacket::Serialize` writes. */
  function PacketBytes(version: byte, timer: byte, qs: seq<WhoHas>, rs: seq<IsAt>): Bytes
  {
    Header(version, timer, qs, rs) + Concat(WhoHasBytes, qs) + Concat(IsAtBytes, rs)
  }

  /** What `_NSPacket::GetSerializedSize` computes. */
  function PacketSize(qs: seq<WhoHas>, rs: seq<IsAt>): nat
  {
    4 + Total(WhoHasSize, qs) + Total(IsAtSize, rs)
  }

  /** `WhoHas::Deserialize` into a fresh WHO-HAS given the packet's version. */
  function QuestionParser(version: byte): Bytes -> Option<(WhoHas, nat)>
  {
    b => ParseWhoHas(FreshWhoHas(version), b)
  }

  /** `IsAt::Deserialize` into a fresh IS-AT given the packet's version. */
  function AnswerParser(version: byte): Bytes -> Option<(IsAt, nat)>
  {
    b => ParseIsAt(FreshIsAt(version), b)
  }

  /** What a question comes back as when read into a fresh record. */
  function QuestionReceiver(version: byte): WhoHas -> WhoHas
  {
    w => WhoHasReceived(FreshWhoHas(version), w)
  }

  /** What an answer comes back as when read into a fresh record. */
  function AnswerReceiver(version: byte): IsAt -> IsAt
  {
    a => IsAtReceived(FreshIsAt(version), a)
  }

  lemma QuestionParserConsumes(version: byte)
    ensures Consumes(QuestionParser(version))
  {
    forall b: Bytes
      ensures QuestionParser(version)(b).Some? ==> QuestionParser(version)(b).value.1 <= |b|
    {
      WhoHasWithin(FreshWhoHas(version), b);
    }
  }

  lemma AnswerParserConsumes(version: byte)
    ensures Consumes(AnswerParser(version))
  {
    forall b: Bytes
      ensures AnswerParser(version)(b).Some? ==> AnswerParser(version)(b).value.1 <= |b|
    {
      IsAtWithin(FreshIsAt(version), b);
    }
  }

  /** The question loop of `Deserialize`: `k` questions from offset `p`. */
  function QuestionsFrom(buf: Bytes, p: nat, k: nat, version: byte): Progress<WhoHas>
    requires p <= |buf|
  {
    QuestionParserConsumes(version);
    ReadAll(QuestionParser(version), buf, p, k, [])
  }

  /** The answer loop of `Deserialize`: `k` answers from offset `p`. */
  function AnswersFrom(buf: Bytes, p: nat, k: nat, version: byte): Progress<IsAt>
    requires p <= |buf|
  {
    AnswerParserConsumes(version);
    ReadAll(AnswerParser(version), buf, p, k, [])
  }

  /** The outcome of `_NSPacket::Deserialize`: rejected before anything is
      set, or the version and timer set, the questions and answers read
      (those read before a failure included) and the size returned, 0 on
      failure. */
  datatype Decoded = Rejected
    | Decoded(version: byte, timer: byte, questions: seq<WhoHas>, answers: seq<IsAt>, size: nat)

  /** `_NSPacket::Deserialize` on `buf`: a buffer shorter than four bytes or
      a message version other than 0 or 1 is rejected; the answers are read
      only when every question was. */
  function DecodePacket(buf: Bytes): (d: Decoded)
    ensures d.Rejected? <==> |buf| < 4 || MessageVersion(buf[0]) > 1
    ensures d.Decoded? ==> d.version == buf[0] && d.timer == buf[3] && d.size <= |buf|
    ensures d.Decoded? ==> |d.questions| <= buf[1] && |d.answers| <= buf[2]
    ensures d.Decoded? && d.size != 0 ==> 4 <= d.size && |d.questions| == buf[1] && |d.answers| == buf[2]
  {
    if |buf| < 4 || MessageVersion(buf[0]) > 1 then Rejected
    else
      var q := QuestionsFrom(buf, 4, buf[1], buf[0]);
      if !q.complete then Decoded(buf[0], buf[3], q.items, [], 0)
      else
        var a := AnswersFrom(buf, q.next, buf[2], buf[0]);
        Decoded(buf[0], buf[3], q.items, a.items, if a.complete then a.next else 0)
  }

  /** Questions of the packet's version that fit their count bytes. */
  predicate QuestionsEncodable(version: byte, qs: seq<WhoHas>)
  {
    forall i :: 0 <= i < |qs| ==> WhoHasEncodable(qs[i]) && qs[i].version == version
  }

  /** Answers of the packet's version that fit their count bytes. */
  predicate AnswersEncodable(version: byte, rs: seq<IsAt>)
  {
    forall i :: 0 <= i < |rs| ==> IsAtEncodable(rs[i]) && rs[i].version == version
  }

  lemma QuestionsEncodableTail(version: byte, qs: seq<WhoHas>)
    requires qs != [] && QuestionsEncodable(version, qs)
    ensures WhoHasEncodable(qs[0]) && qs[0].version == version && QuestionsEncodable(version, qs[1..])
  {
    forall i | 0 <= i < |qs[1..]|
      ensures WhoHasEncodable(qs[1..][i]) && qs[1..][i].version == version
    {
      assert qs[1..][i] == qs[i + 1];
    }
  }

  lemma AnswersEncodableTail(version: byte, rs: seq<IsAt>)
    requires rs != [] && AnswersEncodable(version, rs)
    ensures IsAtEncodable(rs[0]) && rs[0].version == version && AnswersEncodable(version, rs[1..])
  {
    forall i | 0 <= i < |rs[1..]|
      ensures IsAtEncodable(rs[1..][i]) && rs[1..][i].version == version
    {
      assert rs[1..][i] == rs[i + 1];
    }
  }

  /** Each question the question loop of `Serialize` wrote is read back by
      `WhoHas::Deserialize` where it stands. */
  lemma {:induction false} QuestionsReadBack(version: byte, qs: seq<WhoHas>, rest: Bytes)
    requires QuestionsEncodable(version, qs)
    decreases |qs|
    ensures ReadsBack(QuestionParser(version), WhoHasBytes, QuestionReceiver(version), qs, rest)
  {
    if qs != [] {
      QuestionsEncodableTail(version, qs);
      WhoHasRoundTrip(FreshWhoHas(version), qs[0], Concat(WhoHasBytes, qs[1..]) + rest);
      QuestionsReadBack(version, qs[1..], rest);
    }
  }

  /** Each answer the answer loop of `Serialize` wrote is read back by
      `IsAt::Deserialize` where it stands. */
  lemma {:induction false} AnswersReadBack(version: byte, rs: seq<IsAt>, rest: Bytes)
    requires MessageVersion(version) <= 1 && AnswersEncodable(version, rs)
    decreases |rs|
    ensures ReadsBack(AnswerParser(version), IsAtBytes, AnswerReceiver(version), rs, rest)
  {
    if rs != [] {
      AnswersEncodableTail(version, rs);
      IsAtRoundTrip(FreshIsAt(version), rs[0], Concat(IsAtBytes, rs[1..]) + rest);
      AnswersReadBack(version, rs[1..], rest);
    }
  }

  /** The question loop of `Deserialize` reads back every question the
      question loop of `Serialize` wrote, and stops right after them. */
  lemma QuestionsRoundTrip(buf: Bytes, p: nat, qs: seq<WhoHas>, rest: Bytes, version: byte)
    requires QuestionsEncodable(version, qs)
    requires p <= |buf| && buf[p..] == Concat(WhoHasBytes, qs) + rest
    ensures QuestionsFrom(buf, p, |qs|, version) ==
      Progress(Map(QuestionReceiver(version), qs), p + |Concat(WhoHasBytes, qs)|, true)
  {
    QuestionParserConsumes(version);
    QuestionsReadBack(version, qs, rest);
    ReadAllRoundTrip(QuestionParser(version), WhoHasBytes, QuestionReceiver(version), buf, p, qs, rest, []);
    assert [] + Map(QuestionReceiver(version), qs) == Map(QuestionReceiver(version), qs);
  }

  /** The answer loop of `Deserialize` reads back every answer the answer
      loop of `Serialize` wrote, and stops right after them. */
  lemma AnswersRoundTrip(buf: Bytes, p: nat, rs: seq<IsAt>, rest: Bytes, version: byte)
    requires MessageVersion(version) <= 1 && AnswersEncodable(version, rs)
    requires p <= |buf| && buf[p..] == Concat(IsAtBytes, rs) + rest
    ensures AnswersFrom(buf, p, |rs|, version) ==
      Progress(Map(AnswerReceiver(version), rs), p + |Concat(IsAtBytes, rs)|, true)
  {
    AnswerParserConsumes(version);
    AnswersReadBack(version, rs, rest);
    ReadAllRoundTrip(AnswerParser(version), IsAtBytes, AnswerReceiver(version), buf, p, rs, rest, []);
    assert [] + Map(AnswerReceiver(version), rs) == Map(AnswerReceiver(version), rs);
  }

  /** Where the pieces of a written packet stand in it. */
  lemma PacketLayout(version: byte, timer: byte, qs: seq<WhoHas>, rs: seq<IsAt>, rest: Bytes)
    requires |qs| < 256 && |rs| < 256
    ensures var buf := PacketBytes(version, timer, qs, rs) + rest;
      |PacketBytes(version, timer, qs, rs)| == 4 + |Concat(WhoHasBytes, qs)| + |Concat(IsAtBytes, rs)| &&
      buf[0] == version && buf[1] == |qs| && buf[2] == |rs| && buf[3] == timer &&
      buf[4..] == Concat(WhoHasBytes, qs) + (Concat(IsAtBytes, rs) + rest) &&
      buf[4 + |Concat(WhoHasBytes, qs)|..] == Concat(IsAtBytes, rs) + rest
  {
    LowByteSmall(|qs|);
    LowByteSmall(|rs|);
    Split(Header(version, timer, qs, rs), Concat(WhoHasBytes, qs), Concat(IsAtBytes, rs), rest);
  }

  /** Four header bytes, then two runs of records, then whatever follows. */
  lemma Split(h: Bytes, qb: Bytes, ab: Bytes, rest: Bytes)
    requires |h| == 4
    ensures var buf := h + qb + ab + rest;
      |h + qb + ab| == 4 + |qb| + |ab| &&
      buf[0] == h[0] && buf[1] == h[1] && buf[2] == h[2] && buf[3] == h[3] &&
      buf[4..] == qb + (ab + rest) && buf[4 + |qb|..] == ab + rest
  {
    Assoc(h + qb, ab, rest);
    Assoc(h, qb, ab + rest);
    assert (h + (qb + (ab + rest)))[4..] == qb + (ab + rest);
    assert (qb + (ab + rest))[|qb|..] == ab + rest;
  }

  /** `Deserialize` reads back what `Serialize` wrote for a packet of
      version 0 or 1 whose records share its version and whose counts fit
      their bytes: every record comes back, and the size returned is the
      number of bytes written, whatever follows them. */
  lemma PacketRoundTrip(version: byte, timer: byte, qs: seq<WhoHas>, rs: seq<IsAt>, rest: Bytes)
    requires MessageVersion(version) <= 1 && |qs| < 256 && |rs| < 256
    requires QuestionsEncodable(version, qs) && AnswersEncodable(version, rs)
    ensures DecodePacket(PacketBytes(version, timer, qs, rs) + rest) ==
      Decoded(version, timer, Map(QuestionReceiver(version), qs), Map(AnswerReceiver(version), rs),
        |PacketBytes(version, timer, qs, rs)|)
  {
    var qb, ab := Concat(WhoHasBytes, qs), Concat(IsAtBytes, rs);
    var buf := PacketBytes(version, timer, qs, rs) + rest;
    PacketLayout(version, timer, qs, rs, rest);
    QuestionsRoundTrip(buf, 4, qs, ab + rest, version);
    AnswersRoundTrip(buf, 4 + |qb|, rs, rest, version);
    DecodeComplete(buf, version, timer, |qs|, |rs|, Map(QuestionReceiver(version), qs), Map(AnswerReceiver(version), rs),
      4 + |qb|, 4 + |qb| + |ab|);
  }

  /** A packet whose questions and answers are all read decodes to them,
      its size the offset after the last answer. */
  lemma DecodeComplete(buf: Bytes, version: byte, timer: byte, qn: nat, an: nat, qi: seq<WhoHas>, ai: seq<IsAt>, qnext: nat, anext: nat)
    requires 4 <= qnext <= |buf| && MessageVersion(version) <= 1
    requires buf[0] == version && buf[1] == qn && buf[2] == an && buf[3] == timer
    requires QuestionsFrom(buf, 4, qn, version) == Progress(qi, qnext, true)
    requires AnswersFrom(buf, qnext, an, version) == Progress(ai, anext, true)
    ensures DecodePacket(buf) == Decoded(version, timer, qi, ai, anext)
  {
  }

  /** `GetSerializedSize` is what `Serialize` writes when every question has
      version 0 or 1 and every endpoint an answer announces has its
      family's address length. */
  lemma PacketSizeCoherent(version: byte, timer: byte, qs: seq<WhoHas>, rs: seq<IsAt>)
    requires forall i :: 0 <= i < |qs| ==> MessageVersion(qs[i].version) <= 1
    requires forall i :: 0 <= i < |rs| ==> EndpointsFit(rs[i])
    ensures PacketSize(qs, rs) == |PacketBytes(version, timer, qs, rs)|
  {
    forall i | 0 <= i < |qs|
      ensures WhoHasSize(qs[i]) == |WhoHasBytes(qs[i])|
    {
      WhoHasSizeCoherent(qs[i]);
    }
    forall i | 0 <= i < |rs|
      ensures IsAtSize(rs[i]) == |IsAtBytes(rs[i])|
    {
      IsAtSizeCoherent(rs[i]);
    }
    TotalCoherent(WhoHasSize, WhoHasBytes, qs);
    TotalCoherent(IsAtSize, IsAtBytes, rs);
  }

  /** The answer at `index` removed, or nothing when there is none. */
  function Erase(rs: seq<IsAt>, index: nat): seq<IsAt>
  {
    if index < |rs| then rs[..index] + rs[index + 1..] else rs
  }

  /** Removing an answer keeps the others in order. */
  lemma EraseShifts(rs: seq<IsAt>, index: nat)
    requires index < |rs|
    ensures |Erase(rs, index)| == |rs| - 1
    ensures forall k :: 0 <= k < index ==> Erase(rs, index)[k] == rs[k]
    ensures forall k :: index <= k < |rs| - 1 ==> Erase(rs, index)[k] == rs[k + 1]
    ensures multiset(Erase(rs, index)) + multiset{rs[index]} == multiset(rs)
  {
    assert rs == rs[..index] + [rs[index]] + rs[index + 1..];
  }

  /** The question loop of `GetSerializedSize`. */
  method MeasureQuestions(qs: seq<WhoHas>) returns (size: nat)
    ensures size == Total(WhoHasSize, qs)
  {
    size := 0;
    var i := 0;
    while i < |qs|
      invariant 0 <= i <= |qs|
      invariant size == Total(WhoHasSize, qs[..i])
    {
      var s := WhoHasSerializedSize(qs[i]);
      TotalSnoc(WhoHasSize, qs[..i], qs[i]);
      assert qs[..i + 1] == qs[..i] + [qs[i]];
      size := size + s;
      i := i + 1;
    }
    assert qs[..i] == qs;
  }

  /** The answer loop of `GetSerializedSize`. */
  method MeasureAnswers(rs: seq<IsAt>) returns (size: nat)
    ensures size == Total(IsAtSize, rs)
  {
    size := 0;
    var i := 0;
    while i < |rs|
      invariant 0 <= i <= |rs|
      invariant size == Total(IsAtSize, rs[..i])
    {
      var s := IsAtSerializedSize(rs[i]);
      TotalSnoc(IsAtSize, rs[..i], rs[i]);
      assert rs[..i + 1] == rs[..i] + [rs[i]];
      size := size + s;
      i := i + 1;
    }
    assert rs[..i] == rs;
  }

  /** The question loop of `Serialize`. */
  method WriteQuestions(qs: seq<WhoHas>) returns (out: Bytes)
    ensures out == Concat(WhoHasBytes, qs)
  {
    out := [];
    var i := 0;
    while i < |qs|
      invariant 0 <= i <= |qs|
      invariant out == Concat(WhoHasBytes, qs[..i])
    {
      var b, n := SerializeWhoHas(qs[i]);
      ConcatSnoc(WhoHasBytes, qs[..i], qs[i]);
      assert qs[..i + 1] == qs[..i] + [qs[i]];
      out := out + b;
      i := i + 1;
    }
    assert qs[..i] == qs;
  }

  /** The answer loop of `Serialize`. */
  method WriteAnswers(rs: seq<IsAt>) returns (out: Bytes)
    ensures out == Concat(IsAtBytes, rs)
  {
    out := [];
    var i := 0;
    while i < |rs|
      invariant 0 <= i <= |rs|
      invariant out == Concat(IsAtBytes, rs[..i])
    {
      var b, n := SerializeIsAt(rs[i]);
      ConcatSnoc(IsAtBytes, rs[..i], rs[i]);
      assert rs[..i + 1] == rs[..i] + [rs[i]];
      out := out + b;
      i := i + 1;
    }
    assert rs[..i] == rs;
  }

  /** The question loop of `Deserialize`: the questions read, where reading
      stopped, and whether all `count` were read. */
  method DeserializeQuestions(buf: Bytes, p: nat, count: nat, version: byte) returns (items: seq<WhoHas>, next: nat, ok: bool)
    requires p <= |buf|
    ensures Progress(items, next, ok) == QuestionsFrom(buf, p, count, version)
  {
    QuestionParserConsumes(version);
    items, next, ok := ReadLoop(QuestionParser(version), buf, p, count);
  }

  /** The answer loop of `Deserialize`. */
  method DeserializeAnswers(buf: Bytes, p: nat, count: nat, version: byte) returns (items: seq<IsAt>, next: nat, ok: bool)
    requires p <= |buf|
    ensures Progress(items, next, ok) == AnswersFrom(buf, p, count, version)
  {
    AnswerParserConsumes(version);
    items, next, ok := ReadLoop(AnswerParser(version), buf, p, count);
  }

  /** A name-service packet: the fields of `_NSPacket` and the two it takes
      from `_Packet`. */
  class NSPacket {
    var version: byte
    var timer: byte
    var questions: seq<WhoHas>
    var answers: seq<IsAt>

    constructor()
      ensures version == 0 && timer == 0 && questions == [] && answers == []
    {
      version, timer := 0, 0;
      questions, answers := [], [];
    }

    /** `_NSPacket::Reset`: the questions and answers are dropped. */
    method Reset()
      modifies this
      ensures questions == [] && answers == []
      ensures version == old(version) && timer == old(timer)
    {
      questions, answers := [], [];
    }

    /** `_NSPacket::AddQuestion`. */
    method AddQuestion(q: WhoHas)
      modifies this
      ensures questions == old(questions) + [q]
      ensures answers == old(answers) && version == old(version) && timer == old(timer)
    {
      questions := questions + [q];
    }

    /** `_NSPacket::AddAnswer`. */
    method AddAnswer(a: IsAt)
      modifies this
      ensures answers == old(answers) + [a]
      ensures questions == old(questions) && version == old(version) && timer == old(timer)
    {
      answers := answers + [a];
    }

    /** `_NSPacket::RemoveAnswer`: an index past the end removes nothing. */
    method RemoveAnswer(index: nat)
      modifies this
      ensures answers == Erase(old(answers), index)
      ensures questions == old(questions) && version == old(version) && timer == old(timer)
    {
      if index < |answers| {
        answers := answers[..index] + answers[index + 1..];
      }
    }

    /** `_NSPacket::GetSerializedSize`. */
    method SerializedSize() returns (size: nat)
      ensures size == PacketSize(questions, answers)
    {
      var q := MeasureQuestions(questions);
      var a := MeasureAnswers(answers);
      size := 4 + q + a;
    }

    /** `_NSPacket::Serialize`: the bytes written and their number. */
    method Serialize() returns (out: Bytes, size: nat)
      ensures out == PacketBytes(version, timer, questions, answers) && size == |out|
    {
      out := [version, LowByte(|questions|), LowByte(|answers|), timer];
      var q := WriteQuestions(questions);
      var a := WriteAnswers(answers);
      out := out + q + a;
      size := |out|;
    }

    /** `_NSPacket::Deserialize`: each question and answer read is added to
        those already held; on a failure the ones read before it stay. */
    method Deserialize(buf: Bytes) returns (size: nat)
      modifies this
      ensures DecodePacket(buf).Rejected? ==>
        size == 0 && version == old(version) && timer == old(timer) && questions == old(questions) && answers == old(answers)
      ensures DecodePacket(buf).Decoded? ==>
        version == DecodePacket(buf).version && timer == DecodePacket(buf).timer &&
        questions == old(questions) + DecodePacket(buf).questions &&
        answers == old(answers) + DecodePacket(buf).answers && size == DecodePacket(buf).size
    {
      if |buf| < 4 {
        return 0;
      }
      var msgVersion := buf[0] % 16;
      if msgVersion != 0 && msgVersion != 1 {
        return 0;
      }
      version := buf[0];
      var qCount := buf[1];
      var aCount := buf[2];
      timer := buf[3];
      var qs, next, ok := DeserializeQuestions(buf, 4, qCount, version);
      questions := questions + qs;
      if !ok {
        assert answers + [] == answers;
        return 0;
      }
      var rs, last, done := DeserializeAnswers(buf, next, aCount, version);
      answers := answers + rs;
      size := if done then last else 0;
    }
  }
}
