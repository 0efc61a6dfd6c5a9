/** The record lists of `_MDNSPacket` in router/ns/IpNsProtocol.cc and the
    helpers that add to them, count them, look records up and remove
    them. Each lookup walks its vector from the front; a pointer to the
    record found is given here as its index. */
module MdnsPacket {
  import opened CanFrame
  import opened NsWire
  import opened MdnsRData

  // ---------------------------------------------------------------------
  // Walking a vector
  // ---------------------------------------------------------------------

  /** The first element from `i` on that `p` accepts. */
  function FirstFrom<T>(xs: seq<T>, p: T -> bool, i: nat): (r: Option<nat>)
    ensures r.Some? ==> i <= r.value < |xs| && p(xs[r.value])
    ensures r.Some? ==> forall j :: i <= j < r.value ==> !p(xs[j])
    ensures r.None? ==> forall j :: i <= j < |xs| ==> !p(xs[j])
    decreases |xs| - i
  {
    if i >= |xs| then None
    else if p(xs[i]) then Some(i)
    else FirstFrom(xs, p, i + 1)
  }

  /** The first element that `p` accepts. */
  function FirstMatch<T>(xs: seq<T>, p: T -> bool): Option<nat>
  {
    FirstFrom(xs, p, 0)
  }

  /** How many elements from `i` on `p` accepts. */
  function CountFrom<T>(xs: seq<T>, p: T -> bool, i: nat): (n: nat)
    ensures i <= |xs| ==> n <= |xs| - i
    decreases |xs| - i
  {
    if i >= |xs| then 0
    else (if p(xs[i]) then 1 else 0) + CountFrom(xs, p, i + 1)
  }

  /** The element from `i` on that is the `k`-th (from 0) that `p`
      accepts. */
  function NthFrom<T>(xs: seq<T>, p: T -> bool, i: nat, k: nat): (r: Option<nat>)
    ensures r.Some? ==> i <= r.value < |xs| && p(xs[r.value])
    decreases |xs| - i
  {
    if i >= |xs| then None
    else if p(xs[i]) then (if k == 0 then Some(i) else NthFrom(xs, p, i + 1, k - 1))
    else NthFrom(xs, p, i + 1, k)
  }

  /** There is a `k`-th accepted element exactly when fewer than `k + 1`
      is not all there are. */
  lemma {:induction false} NthExists<T>(xs: seq<T>, p: T -> bool, i: nat, k: nat)
    ensures NthFrom(xs, p, i, k).Some? <==> k < CountFrom(xs, p, i)
    decreases |xs| - i
  {
    if i < |xs| {
      if p(xs[i]) && k > 0 {
        NthExists(xs, p, i + 1, k - 1);
      } else if !p(xs[i]) {
        NthExists(xs, p, i + 1, k);
      }
    }
  }

  /** The 0-th accepted element is the first. */
  lemma {:induction false} NthFirst<T>(xs: seq<T>, p: T -> bool, i: nat)
    ensures NthFrom(xs, p, i, 0) == FirstFrom(xs, p, i)
    decreases |xs| - i
  {
    if i < |xs| && !p(xs[i]) {
      NthFirst(xs, p, i + 1);
    }
  }

  /** The accepted elements come in order: the `k+1`-th is after the
      `k`-th. */
  lemma {:induction false} NthOrdered<T>(xs: seq<T>, p: T -> bool, i: nat, k: nat)
    requires NthFrom(xs, p, i, k + 1).Some?
    ensures NthFrom(xs, p, i, k).Some? && NthFrom(xs, p, i, k).value < NthFrom(xs, p, i, k + 1).value
    decreases |xs| - i
  {
    if p(xs[i]) {
      if k > 0 {
        NthOrdered(xs, p, i + 1, k - 1);
      }
    } else {
      NthOrdered(xs, p, i + 1, k);
    }
  }

  /** `xs` without its first element that `p` accepts, or unchanged when
      there is none (`vector::erase` of what the walk found). */
  function RemoveFirst<T>(xs: seq<T>, p: T -> bool): seq<T>
  {
    match FirstMatch(xs, p)
    case None => xs
    case Some(i) => xs[..i] + xs[i + 1..]
  }

  /** Counting the accepted elements from `i` on, split at `m`. */
  lemma {:induction false} CountSplit<T>(xs: seq<T>, p: T -> bool, i: nat, m: nat)
    requires i <= m <= |xs|
    ensures CountFrom(xs, p, i) == CountFrom(xs[..m], p, i) + CountFrom(xs, p, m)
    decreases m - i
  {
    if i < m {
      CountSplit(xs, p, i + 1, m);
      assert xs[..m][i] == xs[i];
    }
  }

  /** Counting from `i` counts the elements of `xs[i..]`. */
  lemma {:induction false} CountShift<T>(xs: seq<T>, p: T -> bool, i: nat)
    requires i <= |xs|
    ensures CountFrom(xs, p, i) == CountFrom(xs[i..], p, 0)
    decreases |xs| - i
  {
    if i < |xs| {
      CountShift(xs, p, i + 1);
      CountShift(xs[i..], p, 1);
      assert xs[i..][1..] == xs[i + 1..];
      assert xs[i..][0] == xs[i];
    }
  }

  /** Removing the first accepted element removes one element, and one
      of those `p` accepts, leaving the others in order. */
  lemma RemoveFirstCount<T>(xs: seq<T>, p: T -> bool)
    ensures FirstMatch(xs, p).None? ==> RemoveFirst(xs, p) == xs
    ensures FirstMatch(xs, p).Some? ==>
      |RemoveFirst(xs, p)| == |xs| - 1 &&
      CountFrom(RemoveFirst(xs, p), p, 0) == CountFrom(xs, p, 0) - 1
  {
    if FirstMatch(xs, p).Some? {
      var i := FirstMatch(xs, p).value;
      var r := xs[..i] + xs[i + 1..];
      CountSplit(xs, p, 0, i);
      CountSplit(r, p, 0, i);
      assert r[..i] == xs[..i];
      CountShift(r, p, i);
      CountShift(xs, p, i + 1);
      assert r[i..] == xs[i + 1..];
    }
  }

  /** The walk that finds the first accepted element. */
  method FindFirst<T>(xs: seq<T>, p: T -> bool) returns (r: Option<nat>)
    ensures r == FirstMatch(xs, p)
  {
    var i := 0;
    while i < |xs|
      invariant i <= |xs| && FirstFrom(xs, p, i) == FirstMatch(xs, p)
    {
      if p(xs[i]) {
        return Some(i);
      }
      i := i + 1;
    }
    return None;
  }

  /** The walk that counts the accepted elements. */
  method CountMatching<T>(xs: seq<T>, p: T -> bool) returns (n: nat)
    ensures n == CountFrom(xs, p, 0)
  {
    n := 0;
    var i := 0;
    while i < |xs|
      invariant i <= |xs| && n + CountFrom(xs, p, i) == CountFrom(xs, p, 0)
    {
      if p(xs[i]) {
        n := n + 1;
      }
      i := i + 1;
    }
  }

  /** The walk that finds the `index`-th accepted element, counting the
      accepted ones as it goes. */
  method FindNth<T>(xs: seq<T>, p: T -> bool, index: nat) returns (r: Option<nat>)
    ensures r == NthFrom(xs, p, 0, index)
  {
    var i, seen := 0, 0;
    while i < |xs|
      invariant i <= |xs| && seen <= index && NthFrom(xs, p, i, index - seen) == NthFrom(xs, p, 0, index)
    {
      if p(xs[i]) {
        if seen == index {
          return Some(i);
        }
        seen := seen + 1;
      }
      i := i + 1;
    }
    return None;
  }

  // ---------------------------------------------------------------------
  // Names with a wildcard
  // ---------------------------------------------------------------------

  /** `'*'`. */
  const Star: byte := 42

  /** `find_last_of('*')`: where the last `*` is. */
  function LastStar(s: Bytes): (r: Option<nat>)
    ensures r.Some? ==> r.value < |s| && s[r.value] == Star
    ensures r.Some? ==> forall j :: r.value < j < |s| ==> s[j] != Star
    ensures r.None? ==> Star !in s
  {
    if s == [] then None
    else if s[|s| - 1] == Star then Some(|s| - 1)
    else
      var r := LastStar(s[..|s| - 1]);
      assert forall j :: 0 <= j < |s| - 1 ==> s[..|s| - 1][j] == s[j];
      r
  }

  /** Whether the domain name `dname` matches the name asked for, `str`,
      as `GetAdditionalRecord` tests it: without a `*` the names must be
      equal; with one, `dname` must start with what comes before the last
      `*`. */
  function NameMatches(str: Bytes, dname: Bytes): bool
  {
    match LastStar(str)
    case None => dname == str
    case Some(i) => i <= |dname| && dname[..i] == str[..i]
  }

  /** A name without `*` matches only itself. */
  lemma NameMatchesExact(str: Bytes, dname: Bytes)
    requires Star !in str
    ensures NameMatches(str, dname) <==> dname == str
  {
  }

  /** A name with a `*` matches every name that starts with what comes
      before its last `*`; whatever follows that `*` is not looked at. */
  lemma NameMatchesPrefix(pre: Bytes, post: Bytes, dname: Bytes)
    requires Star !in post
    ensures NameMatches(pre + [Star] + post, dname) <==> |pre| <= |dname| && dname[..|pre|] == pre
  {
    var str := pre + [Star] + post;
    assert str[|pre|] == Star;
    assert forall j :: |pre| < j < |str| ==> str[j] == post[j - |pre| - 1];
    assert str[..|pre|] == pre;
  }

  // ---------------------------------------------------------------------
  // The packet
  // ---------------------------------------------------------------------

  /** An `MDNSQuestion`: the name asked about and its type and class. */
  datatype Question = Question(qname: Bytes, qtype: u16, qclass: u16)

  /** An `MDNSResourceRecord`, as far as the helpers look at it: its
      domain name, its type, and the value `GetU16Value("txtvers")` gives
      for its data when that is a TXT record. */
  datatype ResourceRecord = ResourceRecord(domainName: Bytes, rrType: u16, txtVersion: u16)

  /** `MDNSResourceRecord::TXT` (section 3.2.2 of RFC 1035). */
  const TXT: u16 := 16

  /** `uint16_t` of a vector's `size()`. */
  function Count16(n: nat): u16
  {
    n % 0x1_0000
  }

  /** A question asked about `str`. */
  function QuestionFor(str: Bytes): Question -> bool
  {
    (q: Question) => q.qname == str
  }

  /** A record named `str` of type `rrType`. */
  function RecordFor(str: Bytes, rrType: u16): ResourceRecord -> bool
  {
    (r: ResourceRecord) => r.domainName == str && r.rrType == rrType
  }

  /** The same, for a TXT record of the given version. */
  function VersionedFor(str: Bytes, rrType: u16, version: u16): ResourceRecord -> bool
  {
    (r: ResourceRecord) => r.domainName == str && r.rrType == rrType && r.txtVersion == version
  }

  /** A record whose name matches `str`, wildcard included, of type
      `rrType`. */
  function WildcardFor(str: Bytes, rrType: u16): ResourceRecord -> bool
  {
    (r: ResourceRecord) => NameMatches(str, r.domainName) && r.rrType == rrType
  }

  /** The same, for a TXT record of the given version. */
  function WildcardVersionedFor(str: Bytes, rrType: u16, version: u16): ResourceRecord -> bool
  {
    (r: ResourceRecord) => NameMatches(str, r.domainName) && r.rrType == rrType && r.txtVersion == version
  }

  /** `_MDNSPacket`: a header and the four record lists. */
  class MDNSPacket {
    var header: Header
    var questions: seq<Question>
    var answers: seq<ResourceRecord>
    var authority: seq<ResourceRecord>
    var additional: seq<ResourceRecord>

    /** The header counts say how long the lists are, as far as the
        helpers keep them: QDCOUNT, ANCOUNT and ARCOUNT. */
    predicate Counted()
      reads this
    {
      header.qdCount == Count16(|questions|) && header.anCount == Count16(|answers|) &&
      header.arCount == Count16(|additional|)
    }

    /** An empty packet with the default header. */
    constructor()
      ensures header == Header(0, false, 0, 0, 0, 0, 0)
      ensures questions == [] && answers == [] && authority == [] && additional == []
      ensures Counted()
    {
      header := Header(0, false, 0, 0, 0, 0, 0);
      questions, answers, authority, additional := [], [], [], [];
    }

    /** `Clear`: the lists are emptied, the header is kept, counts and
        all. */
    method Clear()
      modifies this
      ensures questions == [] && answers == [] && authority == [] && additional == []
      ensures header == old(header)
    {
      questions, answers, authority, additional := [], [], [], [];
    }

    method SetHeader(h: Header)
      modifies this
      ensures header == h
      ensures questions == old(questions) && answers == old(answers)
      ensures authority == old(authority) && additional == old(additional)
    {
      header := h;
    }

    /** `AddQuestion`: the question goes last and QDCOUNT becomes the new
        number of questions. */
    method AddQuestion(q: Question)
      modifies this
      ensures questions == old(questions) + [q]
      ensures header == old(header).(qdCount := Count16(|questions|))
      ensures answers == old(answers) && authority == old(authority) && additional == old(additional)
      ensures old(Counted()) ==> Counted()
    {
      questions := questions + [q];
      header := header.(qdCount := Count16(|questions|));
    }

    /** `AddAnswer`: the record goes last and ANCOUNT becomes the new
        number of answers. */
    method AddAnswer(r: ResourceRecord)
      modifies this
      ensures answers == old(answers) + [r]
      ensures header == old(header).(anCount := Count16(|answers|))
      ensures questions == old(questions) && authority == old(authority) && additional == old(additional)
      ensures old(Counted()) ==> Counted()
    {
      answers := answers + [r];
      header := header.(anCount := Count16(|answers|));
    }

    /** `AddAdditionalRecord`: the record goes last and ARCOUNT becomes
        the new number of additional records. */
    method AddAdditionalRecord(r: ResourceRecord)
      modifies this
      ensures additional == old(additional) + [r]
      ensures header == old(header).(arCount := Count16(|additional|))
      ensures questions == old(questions) && answers == old(answers) && authority == old(authority)
      ensures old(Counted()) ==> Counted()
    {
      additional := additional + [r];
      header := header.(arCount := Count16(|additional|));
    }

    /** `GetNumQuestions`, which agrees with QDCOUNT while the helpers
        keep the counts. */
    function GetNumQuestions(): (n: u16)
      reads this
      ensures Counted() ==> n == header.qdCount
    {
      Count16(|questions|)
    }

    function GetNumAnswers(): (n: u16)
      reads this
      ensures Counted() ==> n == header.anCount
    {
      Count16(|answers|)
    }

    function GetNumAdditionalRecords(): (n: u16)
      reads this
      ensures Counted() ==> n == header.arCount
    {
      Count16(|additional|)
    }

    /** `GetQuestionAt`: the `i`-th question, or `None` past the end. */
    function GetQuestionAt(i: nat): (r: Option<Question>)
      reads this
      ensures r.Some? <==> i < |questions|
      ensures r.Some? ==> r.value == questions[i]
    {
      if i >= |questions| then None else Some(questions[i])
    }

    function GetAnswerAt(i: nat): (r: Option<ResourceRecord>)
      reads this
      ensures r.Some? <==> i < |answers|
      ensures r.Some? ==> r.value == answers[i]
    {
      if i >= |answers| then None else Some(answers[i])
    }

    function GetAdditionalRecordAt(i: nat): (r: Option<ResourceRecord>)
      reads this
      ensures r.Some? <==> i < |additional|
      ensures r.Some? ==> r.value == additional[i]
    {
      if i >= |additional| then None else Some(additional[i])
    }

    /** `GetQuestion`: the first question about `str`. */
    method GetQuestion(str: Bytes) returns (r: Option<nat>)
      ensures r == FirstMatch(questions, QuestionFor(str))
    {
      r := FindFirst(questions, QuestionFor(str));
    }

    /** `GetAnswer(str, type)`: the first answer named `str` of that
        type. */
    method GetAnswer(str: Bytes, rrType: u16) returns (r: Option<nat>)
      ensures r == FirstMatch(answers, RecordFor(str, rrType))
    {
      r := FindFirst(answers, RecordFor(str, rrType));
    }

    /** `GetAnswer(str, type, version)`: only TXT records are looked for;
        the first answer named `str` of that version. */
    method GetVersionedAnswer(str: Bytes, rrType: u16, version: u16) returns (r: Option<nat>)
      ensures r == if rrType != TXT then None else FirstMatch(answers, VersionedFor(str, rrType, version))
    {
      if rrType != TXT {
        return None;
      }
      r := FindFirst(answers, VersionedFor(str, rrType, version));
    }

    /** `GetAdditionalRecord(str, type)`: the first additional record
        whose name matches `str`, wildcard included, of that type. */
    method GetAdditionalRecord(str: Bytes, rrType: u16) returns (r: Option<nat>)
      ensures r == FirstMatch(additional, WildcardFor(str, rrType))
    {
      r := FindFirst(additional, WildcardFor(str, rrType));
    }

    /** `GetAdditionalRecord(str, type, version)`: the same for TXT
        records of that version only. */
    method GetVersionedAdditionalRecord(str: Bytes, rrType: u16, version: u16) returns (r: Option<nat>)
      ensures r == if rrType != TXT then None else FirstMatch(additional, WildcardVersionedFor(str, rrType, version))
    {
      if rrType != TXT {
        return None;
      }
      r := FindFirst(additional, WildcardVersionedFor(str, rrType, version));
    }

    /** `GetNumMatches`: how many additional records the versioned lookup
        accepts; 0 for a type other than TXT. */
    method GetNumMatches(str: Bytes, rrType: u16, version: u16) returns (n: nat)
      ensures n == if rrType != TXT then 0 else CountFrom(additional, WildcardVersionedFor(str, rrType, version), 0)
    {
      if rrType != TXT {
        return 0;
      }
      n := CountMatching(additional, WildcardVersionedFor(str, rrType, version));
    }

    /** `GetAdditionalRecordAt(str, type, version, index)`: the
        `index`-th of the records `GetNumMatches` counts. */
    method GetMatchAt(str: Bytes, rrType: u16, version: u16, index: nat) returns (r: Option<nat>)
      ensures r == if rrType != TXT then None else NthFrom(additional, WildcardVersionedFor(str, rrType, version), 0, index)
    {
      if rrType != TXT {
        return None;
      }
      r := FindNth(additional, WildcardVersionedFor(str, rrType, version), index);
    }

    /** `RemoveQuestion`: the first question about `str` is erased and
        QDCOUNT updated; with none, nothing changes. */
    method RemoveQuestion(str: Bytes)
      modifies this
      ensures questions == RemoveFirst(old(questions), QuestionFor(str))
      ensures header == if FirstMatch(old(questions), QuestionFor(str)).Some?
        then old(header).(qdCount := Count16(|questions|)) else old(header)
      ensures answers == old(answers) && authority == old(authority) && additional == old(additional)
      ensures old(Counted()) ==> Counted()
    {
      var i := FindFirst(questions, QuestionFor(str));
      if i.Some? {
        questions := questions[..i.value] + questions[i.value + 1..];
        header := header.(qdCount := Count16(|questions|));
      }
    }

    /** `RemoveAnswer`: the first answer named `str` of that type is
        erased and ANCOUNT updated; with none, nothing changes. */
    method RemoveAnswer(str: Bytes, rrType: u16)
      modifies this
      ensures answers == RemoveFirst(old(answers), RecordFor(str, rrType))
      ensures header == if FirstMatch(old(answers), RecordFor(str, rrType)).Some?
        then old(header).(anCount := Count16(|answers|)) else old(header)
      ensures questions == old(questions) && authority == old(authority) && additional == old(additional)
      ensures old(Counted()) ==> Counted()
    {
      var i := FindFirst(answers, RecordFor(str, rrType));
      if i.Some? {
        answers := answers[..i.value] + answers[i.value + 1..];
        header := header.(anCount := Count16(|answers|));
      }
    }

    /** `RemoveAdditionalRecord`: the first additional record named `str`
        (no wildcard here) of that type is erased and ARCOUNT updated. */
    method RemoveAdditionalRecord(str: Bytes, rrType: u16)
      modifies this
      ensures additional == RemoveFirst(old(additional), RecordFor(str, rrType))
      ensures header == if FirstMatch(old(additional), RecordFor(str, rrType)).Some?
        then old(header).(arCount := Count16(|additional|)) else old(header)
      ensures questions == old(questions) && answers == old(answers) && authority == old(authority)
      ensures old(Counted()) ==> Counted()
    {
      var i := FindFirst(additional, RecordFor(str, rrType));
      if i.Some? {
        additional := additional[..i.value] + additional[i.value + 1..];
        header := header.(arCount := Count16(|additional|));
      }
    }
  }
}
