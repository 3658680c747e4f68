/** DNS messages (RFC 1035 section 4.1): the question section as handleQuery reads it, the
    responses as the builders write them (dns.go:121-163, 202-269), and a reader of responses
    made of the same name parser. */
module DnsMessage {
  import opened Bytes
  import opened DottedNames
  import opened IpAddress
  import opened DnsName
  import opened DnsTermination
  import opened DnsMeaning
  import opened DnsEncoding

  type uint16 = n: nat | n < 0x10000
  type uint32 = n: nat | n < 0x1_0000_0000

  datatype Question = Question(name: bytes, qtype: uint16, qclass: uint16)

  // ---------------------------------------------------------------- questions

  datatype Questions = Questions(list: seq<Question>) | BadQuestions | QuestionsOverflow

  function EncodeQuestion(q: Question): bytes {
    EncodeName(q.name) + Put16(q.qtype) + Put16(q.qclass)
  }

  function EncodeQuestions(qs: seq<Question>): bytes {
    if qs == [] then [] else EncodeQuestion(qs[0]) + EncodeQuestions(qs[1..])
  }

  /** The loop of handleQuery: up to `count` questions, fewer if the data ends between two. */
  function ParseQuestions(data: bytes, offset: nat, count: nat, stack: nat): Questions
    decreases count
  {
    if count == 0 || offset >= |data| then Questions([])
    else
      match ParseName(data, offset, stack)
      case Overflow => QuestionsOverflow
      case Malformed => BadQuestions
      case Name(name, next) =>
        if next + 4 > |data| then BadQuestions
        else
          var q := Question(name, Uint16(data, next), Uint16(data, next + 2));
          After([q], ParseQuestions(data, next + 4, count - 1, stack))
  }

  function After(before: seq<Question>, r: Questions): Questions {
    match r
    case Questions(list) => Questions(before + list)
    case _ => r
  }

  lemma AfterNothing(r: Questions)
    ensures After([], r) == r
  {
    if r.Questions? {
      assert [] + r.list == r.list;
    }
  }

  lemma AfterOutcome(before: seq<Question>)
    ensures After(before, BadQuestions) == BadQuestions
    ensures After(before, QuestionsOverflow) == QuestionsOverflow
    ensures After(before, Questions([])) == Questions(before)
  {
    assert before + [] == before;
  }

  lemma AfterTwice(before: seq<Question>, q: Question, r: Questions)
    ensures After(before, After([q], r)) == After(before + [q], r)
  {
    if r.Questions? {
      assert before + ([q] + r.list) == before + [q] + r.list;
    }
  }

  method ParseQuestionSection(data: bytes, count: nat, stack: nat) returns (r: Questions)
    requires 12 <= |data|
    ensures r == ParseQuestions(data, 12, count, stack)
  {
    hide ParseName, Uint16, After;
    var offset: nat := 12;
    var questions: seq<Question> := [];
    var i: nat := 0;
    AfterNothing(ParseQuestions(data, 12, count, stack));
    while i < count && offset < |data|
      invariant i <= count
      invariant ParseQuestions(data, 12, count, stack)
             == After(questions, ParseQuestions(data, offset, count - i, stack))
      decreases count - i
    {
      var parsed := ParseDnsName(data, offset, stack);
      AfterOutcome(questions);
      if parsed.Overflow? { return QuestionsOverflow; }
      if parsed.Malformed? || parsed.next + 4 > |data| { return BadQuestions; }
      var q := Question(parsed.name, Uint16(data, parsed.next), Uint16(data, parsed.next + 2));
      AfterTwice(questions, q, ParseQuestions(data, parsed.next + 4, count - i - 1, stack));
      questions := questions + [q];
      offset := parsed.next + 4;
      i := i + 1;
    }
    AfterOutcome(questions);
    return Questions(questions);
  }

  /** Among the questions that the loop gets to there is one whose chain of pointers comes back
      to an offset. */
  ghost predicate ReachesLoop(data: bytes, offset: nat, count: nat)
    decreases count
  {
    && count > 0 && offset < |data|
    && (Revisits(data, offset) ||
        match ParseName(data, offset, |data| + 1)
        case Name(_, next) => next + 4 <= |data| && ReachesLoop(data, next + 4, count - 1)
        case _ => false)
  }

  /** On a stack with room for one call more than there are bytes, that and nothing else makes
      the question loop overflow. */
  lemma {:induction false} OverflowsOnLoops(data: bytes, offset: nat, count: nat, stack: nat)
    requires |data| < stack
    ensures ParseQuestions(data, offset, count, stack).QuestionsOverflow? <==> ReachesLoop(data, offset, count)
    decreases count
  {
    hide ParseName, Revisits, Uint16;
    if count > 0 && offset < |data| {
      StackOfMessageLengthDecides(data, offset, stack);
      var r := ParseName(data, offset, stack);
      if r.Name? && r.next + 4 <= |data| {
        OverflowsOnLoops(data, r.next + 4, count - 1, stack);
      }
    }
  }

  ghost predicate AllEncodable(qs: seq<Question>) {
    forall i :: 0 <= i < |qs| ==> Encodable(qs[i].name)
  }

  /** One question, standing anywhere. */
  lemma QuestionInContext(prefix: bytes, q: Question, suffix: bytes, stack: nat)
    requires Encodable(q.name) && 0 < stack
    ensures var data := prefix + EncodeQuestion(q) + suffix; var next := |prefix| + |EncodeName(q.name)|;
      && next + 4 == |prefix| + |EncodeQuestion(q)| <= |data|
      && ParseName(data, |prefix|, stack) == Name(q.name, next)
      && Uint16(data, next) == q.qtype && Uint16(data, next + 2) == q.qclass
  {
    hide Put16, ParseName, EncodeName, Encodable;
    var data := prefix + EncodeQuestion(q) + suffix;
    var next := |prefix| + |EncodeName(q.name)|;
    NameRoundTrip(prefix, q.name, Put16(q.qtype) + Put16(q.qclass) + suffix, stack);
    assert prefix + EncodeName(q.name) + (Put16(q.qtype) + Put16(q.qclass) + suffix) == data;
    assert data[next..next + 2] == Put16(q.qtype);
    assert data[next + 2..next + 4] == Put16(q.qclass);
    Put16Read(q.qtype, data, next);
    Put16Read(q.qclass, data, next + 2);
  }

  /** The question loop inverts the encoding of any list of encodable questions. */
  lemma {:induction false} QuestionsRoundTrip(prefix: bytes, qs: seq<Question>, suffix: bytes, stack: nat)
    requires AllEncodable(qs) && 0 < stack
    ensures ParseQuestions(prefix + EncodeQuestions(qs) + suffix, |prefix|, |qs|, stack) == Questions(qs)
    decreases |qs|
  {
    hide Put16, Uint16, ParseName, EncodeQuestion, EncodeName, ParseQuestions;
    if qs == [] {
      NoQuestions(prefix + EncodeQuestions(qs) + suffix, |prefix|, stack);
    } else {
      var data := prefix + EncodeQuestions(qs) + suffix;
      var others := EncodeQuestions(qs[1..]) + suffix;
      assert prefix + EncodeQuestion(qs[0]) + others == data;
      QuestionInContext(prefix, qs[0], others, stack);
      QuestionsRoundTrip(prefix + EncodeQuestion(qs[0]), qs[1..], suffix, stack);
      assert prefix + EncodeQuestion(qs[0]) + EncodeQuestions(qs[1..]) + suffix == data;
      OneMoreQuestion(data, |prefix|, |qs|, stack, qs[0], |prefix| + |EncodeName(qs[0].name)|, qs[1..]);
      assert [qs[0]] + qs[1..] == qs;
    }
  }

  lemma NoQuestions(data: bytes, offset: nat, stack: nat)
    ensures ParseQuestions(data, offset, 0, stack) == Questions([])
  {
  }

  lemma OneMoreQuestion(
    data: bytes, offset: nat, count: nat, stack: nat, q: Question, next: nat, others: seq<Question>)
    requires 0 < count && next + 4 <= |data|
    requires ParseName(data, offset, stack) == Name(q.name, next)
    requires Uint16(data, next) == q.qtype && Uint16(data, next + 2) == q.qclass
    requires ParseQuestions(data, next + 4, count - 1, stack) == Questions(others)
    ensures ParseQuestions(data, offset, count, stack) == Questions([q] + others)
  {
    hide ParseName, Uint16;
  }

  // ---------------------------------------------------------------- responses

  const FLAGS_OK := 0x8180
  const FLAGS_NXDOMAIN := 0x8183

  function Header(id: uint16, flags: uint16, answers: nat): (h: bytes)
    ensures |h| == 12
  {
    Put16(id) + Put16(flags) + [0, 1] + Put16(answers) + [0, 0] + [0, 0]
  }

  /** An answer: the owner is a pointer to the name of the question, at offset 12. */
  function AnswerBytes(ip: bytes, ttl: uint32): bytes {
    [0xC0, 0x0C] + [0, 1] + [0, 1] + Put32(ttl) + [0, 4] + To4(ip)
  }

  function AnswersBytes(ips: seq<bytes>, ttl: uint32): bytes {
    if ips == [] then [] else AnswerBytes(ips[0], ttl) + AnswersBytes(ips[1..], ttl)
  }

  function ResponseBytes(id: uint16, flags: uint16, q: Question, ips: seq<bytes>, ttl: uint32): bytes {
    Header(id, flags, |ips|) + EncodeQuestion(q) + AnswersBytes(ips, ttl)
  }

  method BuildResponse(id: uint16, q: Question, ip: bytes, ttl: uint32) returns (buf: bytes)
    ensures buf == ResponseBytes(id, FLAGS_OK, q, [ip], ttl)
  {
    hide EncodeName;
    buf := Put16(id);
    buf := buf + [0x81, 0x80];
    buf := buf + [0, 1];
    buf := buf + [0, 1];
    buf := buf + [0, 0];
    buf := buf + [0, 0];
    assert buf == Header(id, FLAGS_OK, 1);
    var name := EncodeDnsName(q.name);
    buf := buf + name;
    buf := buf + Put16(q.qtype);
    buf := buf + Put16(q.qclass);
    assert buf == Header(id, FLAGS_OK, 1) + EncodeQuestion(q);
    buf := buf + [0xC0, 0x0C];
    buf := buf + [0, 1];
    buf := buf + [0, 1];
    buf := buf + Put32(ttl);
    buf := buf + [0, 4];
    buf := buf + To4(ip);
    assert AnswersBytes([ip], ttl) == AnswerBytes(ip, ttl);
  }

  method BuildMultiResponse(id: uint16, q: Question, ips: seq<bytes>, ttl: uint32) returns (buf: bytes)
    ensures buf == ResponseBytes(id, FLAGS_OK, q, ips, ttl)
  {
    hide EncodeName;
    buf := Put16(id);
    buf := buf + [0x81, 0x80];
    buf := buf + [0, 1];
    buf := buf + Put16(|ips|);
    buf := buf + [0, 0];
    buf := buf + [0, 0];
    assert buf == Header(id, FLAGS_OK, |ips|);
    var name := EncodeDnsName(q.name);
    buf := buf + name;
    buf := buf + Put16(q.qtype);
    buf := buf + Put16(q.qclass);
    assert buf == Header(id, FLAGS_OK, |ips|) + EncodeQuestion(q);
    ghost var front := buf;
    hide Put16, Put32, Header, EncodeQuestion, To4, AnswerBytes;
    for i := 0 to |ips|
      invariant buf + AnswersBytes(ips[i..], ttl) == front + AnswersBytes(ips, ttl)
    {
      AnswerAppended(buf, ips[i], ttl, AnswersBytes(ips[i + 1..], ttl));
      buf := buf + [0xC0, 0x0C];
      buf := buf + [0, 1];
      buf := buf + [0, 1];
      buf := buf + Put32(ttl);
      buf := buf + [0, 4];
      buf := buf + To4(ips[i]);
      assert ips[i..][1..] == ips[i + 1..];
    }
    assert ips[|ips|..] == [];
    assert buf + [] == buf;
  }

  lemma AnswerAppended(buf: bytes, ip: bytes, ttl: uint32, rest: bytes)
    ensures buf + [0xC0, 0x0C] + [0, 1] + [0, 1] + Put32(ttl) + [0, 4] + To4(ip) + rest
         == buf + (AnswerBytes(ip, ttl) + rest)
  {
  }

  method BuildNxDomain(id: uint16, q: Question) returns (buf: bytes)
    ensures buf == ResponseBytes(id, FLAGS_NXDOMAIN, q, [], 0)
  {
    hide EncodeName;
    buf := Put16(id);
    buf := buf + [0x81, 0x83];
    buf := buf + [0, 1];
    buf := buf + [0, 0];
    buf := buf + [0, 0];
    buf := buf + [0, 0];
    assert buf == Header(id, FLAGS_NXDOMAIN, 0);
    var name := EncodeDnsName(q.name);
    buf := buf + name;
    buf := buf + Put16(q.qtype);
    buf := buf + Put16(q.qclass);
  }

  // ---------------------------------------------------------------- reading a response

  datatype Record = Record(owner: bytes, rtype: uint16, rclass: uint16, ttl: uint32, rdata: bytes)

  datatype Response = Response(id: uint16, flags: uint16, question: Question, answers: seq<Record>)

  /** A resource record (RFC 1035 section 4.1.3) and the offset after it. */
  function ParseRecord(data: bytes, at: nat, stack: nat): Option<(Record, nat)> {
    match ParseName(data, at, stack)
    case Name(owner, next) =>
      if next + 10 > |data| then None
      else
        var length := Uint16(data, next + 8);
        var end := next + 10 + length;
        if end > |data| then None
        else
          Some((Record(owner, Uint16(data, next), Uint16(data, next + 2), Uint32(data, next + 4),
                       data[next + 10..end]), end))
    case _ => None
  }

  function ParseRecords(data: bytes, at: nat, count: nat, stack: nat): Option<(seq<Record>, nat)>
    decreases count
  {
    if count == 0 then Some(([], at))
    else
      match ParseRecord(data, at, stack)
      case None => None
      case Some((record, next)) =>
        match ParseRecords(data, next, count - 1, stack)
        case None => None
        case Some((records, end)) => Some(([record] + records, end))
  }

  /** A response with one question, as this server's have, and the offset after its answers. */
  function ParseResponse(data: bytes, stack: nat): Option<(Response, nat)> {
    if |data| < 12 || Uint16(data, 4) != 1 then None
    else
      match ParseName(data, 12, stack) {
        case Name(name, next) =>
          if next + 4 > |data| then None
          else
            var q := Question(name, Uint16(data, next), Uint16(data, next + 2));
            match ParseRecords(data, next + 4, Uint16(data, 6), stack) {
              case Some((answers, end)) => Some((Response(Uint16(data, 0), Uint16(data, 2), q, answers), end))
              case None => None
            }
        case Malformed => None
        case Overflow => None
      }
  }

  /** The record that an answer for `ip` is to be read as. */
  function ARecord(owner: bytes, ip: bytes, ttl: uint32): Record {
    Record(owner, 1, 1, ttl, To4(ip))
  }

  function ARecords(owner: bytes, ips: seq<bytes>, ttl: uint32): (rs: seq<Record>)
    ensures |rs| == |ips| && forall i :: 0 <= i < |ips| ==> rs[i] == ARecord(owner, ips[i], ttl)
  {
    seq(|ips|, i requires 0 <= i < |ips| => ARecord(owner, ips[i], ttl))
  }

  ghost predicate AllHave4(ips: seq<bytes>) {
    forall i :: 0 <= i < |ips| ==> |To4(ips[i])| == 4
  }

  lemma AnswerFields(before: bytes, ip: bytes, ttl: uint32, after: bytes)
    ensures var data := before + AnswerBytes(ip, ttl) + after; var p := |before|;
      && p + 12 <= |data|
      && IsPointer(data, p) && Target(data, p) == 12
      && Uint16(data, p + 2) == 1 && Uint16(data, p + 4) == 1
      && Uint32(data, p + 6) == ttl && Uint16(data, p + 10) == 4
      && data[p + 12..p + 12 + |To4(ip)|] == To4(ip)
  {
    hide Put32, To4, Uint32;
    var data := before + AnswerBytes(ip, ttl) + after;
    var p := |before|;
    assert data[p..p + 6] == [0xC0, 0x0C, 0, 1, 0, 1];
    assert data[p] == data[p..p + 6][0] && data[p + 1] == data[p..p + 6][1];
    assert data[p + 2] == data[p..p + 6][2] && data[p + 3] == data[p..p + 6][3];
    assert data[p + 4] == data[p..p + 6][4] && data[p + 5] == data[p..p + 6][5];
    assert data[p + 6..p + 10] == Put32(ttl);
    Put32Read(ttl, data, p + 6);
    assert data[p + 10..p + 12] == [0, 4];
    assert data[p + 10] == data[p + 10..p + 12][0] && data[p + 11] == data[p + 10..p + 12][1];
  }

  /** One answer, standing anywhere behind a question whose name is at offset 12: it is read as
      the address record for that name, if and only if the address has a 4-byte form. */
  lemma AnswerInContext(before: bytes, ip: bytes, ttl: uint32, after: bytes, owner: bytes, next: nat, stack: nat)
    requires 1 < stack
    requires ParseName(before + AnswerBytes(ip, ttl) + after, 12, stack - 1) == Name(owner, next)
    ensures var data := before + AnswerBytes(ip, ttl) + after; var r := ParseRecord(data, |before|, stack);
      if |To4(ip)| == 4 then r == Some((ARecord(owner, ip, ttl), |before| + |AnswerBytes(ip, ttl)|))
      else r.Some? ==> r.value.0 != ARecord(owner, ip, ttl)
  {
    hide ParseName, To4, Uint16, Uint32, Put32;
    AnswerFields(before, ip, ttl, after);
    PointerInFront(before + AnswerBytes(ip, ttl) + after, |before|, stack);
  }

  lemma ARecordsCons(owner: bytes, ips: seq<bytes>, ttl: uint32)
    requires ips != []
    ensures ARecords(owner, ips, ttl) == [ARecord(owner, ips[0], ttl)] + ARecords(owner, ips[1..], ttl)
  {
  }

  lemma AllHave4Cons(ips: seq<bytes>)
    requires ips != []
    ensures AllHave4(ips) <==> |To4(ips[0])| == 4 && AllHave4(ips[1..])
  {
    hide To4;
    if |To4(ips[0])| == 4 && AllHave4(ips[1..]) {
      forall i | 0 <= i < |ips| ensures |To4(ips[i])| == 4 {
        if i > 0 { assert ips[1..][i - 1] == ips[i]; }
      }
    }
  }

  lemma {:induction false} RecordsRoundTrip(
    before: bytes, ips: seq<bytes>, ttl: uint32, after: bytes, owner: bytes, next: nat, stack: nat)
    requires 1 < stack
    requires ParseName(before + AnswersBytes(ips, ttl) + after, 12, stack - 1) == Name(owner, next)
    ensures var data := before + AnswersBytes(ips, ttl) + after;
      var r := ParseRecords(data, |before|, |ips|, stack);
      if AllHave4(ips) then r == Some((ARecords(owner, ips, ttl), |before| + |AnswersBytes(ips, ttl)|))
      else r.Some? ==> r.value.0 != ARecords(owner, ips, ttl)
    decreases |ips|
  {
    hide ParseName, ParseRecord, AnswerBytes, ARecord, ARecords, AllHave4;
    if ips == [] {
      assert AllHave4(ips) && ARecords(owner, ips, ttl) == [] by { NoRecords(owner, ttl); }
    } else {
      var data := before + AnswersBytes(ips, ttl) + after;
      var rest := AnswersBytes(ips[1..], ttl) + after;
      assert data == before + AnswerBytes(ips[0], ttl) + rest;
      AnswerInContext(before, ips[0], ttl, rest, owner, next, stack);
      ARecordsCons(owner, ips, ttl);
      AllHave4Cons(ips);
      if |To4(ips[0])| == 4 {
        assert data == before + AnswerBytes(ips[0], ttl) + AnswersBytes(ips[1..], ttl) + after;
        RecordsRoundTrip(before + AnswerBytes(ips[0], ttl), ips[1..], ttl, after, owner, next, stack);
        var r := ParseRecords(data, |before + AnswerBytes(ips[0], ttl)|, |ips| - 1, stack);
        if r.Some? && r.value.0 != ARecords(owner, ips[1..], ttl) {
          DifferentTails(ARecord(owner, ips[0], ttl), r.value.0, ARecords(owner, ips[1..], ttl));
        }
      }
    }
  }

  lemma NoRecords(owner: bytes, ttl: uint32)
    ensures AllHave4([]) && ARecords(owner, [], ttl) == []
  {
  }

  lemma DifferentTails<T>(x: T, xs: seq<T>, ys: seq<T>)
    requires xs != ys
    ensures [x] + xs != [x] + ys
  {
    assert ([x] + xs)[1..] == xs && ([x] + ys)[1..] == ys;
  }

  lemma HeaderFields(id: uint16, flags: uint16, answers: nat, rest: bytes)
    ensures var data := Header(id, flags, answers) + rest;
      && |data| >= 12
      && Uint16(data, 0) == id && Uint16(data, 2) == flags && Uint16(data, 4) == 1
      && Uint16(data, 6) == answers % 65536
  {
    hide Put16;
    var data := Header(id, flags, answers) + rest;
    assert data[0..2] == Put16(id) && data[2..4] == Put16(flags) && data[6..8] == Put16(answers);
    assert data[4..6] == [0, 1];
    assert data[4] == data[4..6][0] && data[5] == data[4..6][1];
    Put16Read(id, data, 0);
    Put16Read(flags, data, 2);
    Put16Read(answers, data, 6);
  }

  lemma NoAnswerBytes(ttl: uint32)
    ensures AnswersBytes([], ttl) == []
  {
  }

  lemma AnswersCons(ips: seq<bytes>, ttl: uint32)
    requires ips != []
    ensures AnswersBytes(ips, ttl) == AnswerBytes(ips[0], ttl) + AnswersBytes(ips[1..], ttl)
  {
  }

  lemma {:induction false} AnswersAppend(ips: seq<bytes>, more: seq<bytes>, ttl: uint32)
    ensures AnswersBytes(ips + more, ttl) == AnswersBytes(ips, ttl) + AnswersBytes(more, ttl)
  {
    hide AnswerBytes, AnswersBytes;
    if ips == [] {
      NoAnswerBytes(ttl);
      assert ips + more == more;
    } else {
      AnswersAppend(ips[1..], more, ttl);
      AnswersCons(ips, ttl);
      AnswersCons(ips + more, ttl);
      assert (ips + more)[1..] == ips[1..] + more;
    }
  }

  /** The reader, put together from its parts. */
  lemma ReadFromParts(data: bytes, q: Question, next: nat, stack: nat)
    requires 12 <= |data| && Uint16(data, 4) == 1
    requires ParseName(data, 12, stack) == Name(q.name, next) && next + 4 <= |data|
    requires Uint16(data, next) == q.qtype && Uint16(data, next + 2) == q.qclass
    ensures ParseResponse(data, stack) ==
      match ParseRecords(data, next + 4, Uint16(data, 6), stack)
      case Some((answers, end)) => Some((Response(Uint16(data, 0), Uint16(data, 2), q, answers), end))
      case None => None
  {
    hide ParseName, ParseRecords, Uint16;
  }

  /** What a reader makes of a response whose answer count says `|shown|`, modulo 65536, while
      the answers written are those for `shown` and `hidden`. */
  lemma ResponseRead(
    id: uint16, flags: uint16, q: Question, shown: seq<bytes>, hidden: seq<bytes>, ttl: uint32, stack: nat)
    requires Encodable(q.name) && 1 < stack
    requires |shown + hidden| % 65536 == |shown|
    ensures var data := ResponseBytes(id, flags, q, shown + hidden, ttl);
      AllHave4(shown) <==>
      ParseResponse(data, stack)
        == Some((Response(id, flags, q, ARecords(q.name, shown, ttl)), |data| - |AnswersBytes(hidden, ttl)|))
  {
    hide ParseName, ParseRecords, ParseResponse, EncodeQuestion, Header, ARecords, AllHave4, Encodable, EncodeName, Put16,
         Uint16, AnswersBytes;
    var data := ResponseBytes(id, flags, q, shown + hidden, ttl);
    var header := Header(id, flags, |shown + hidden|);
    var answers := AnswersBytes(shown, ttl);
    var after := AnswersBytes(hidden, ttl);
    var next := 12 + |EncodeName(q.name)|;
    AnswersAppend(shown, hidden, ttl);
    HeaderFields(id, flags, |shown + hidden|, EncodeQuestion(q) + (answers + after));
    assert data == header + (EncodeQuestion(q) + (answers + after));
    assert data == header + EncodeQuestion(q) + (answers + after);
    QuestionInContext(header, q, answers + after, stack);
    QuestionInContext(header, q, answers + after, stack - 1);
    ReadFromParts(data, q, next, stack);
    assert data == (header + EncodeQuestion(q)) + answers + after;
    RecordsRoundTrip(header + EncodeQuestion(q), shown, ttl, after, q.name, next, stack);
  }

  lemma QuestionRead(data: bytes, stack: nat)
    requires ParseResponse(data, stack).Some?
    ensures 12 <= |data| && ParseName(data, 12, stack).Name?
    ensures var q := ParseResponse(data, stack).value.0.question; var next := ParseName(data, 12, stack).next;
      next + 4 <= |data|
      && q == Question(ParseName(data, 12, stack).name, Uint16(data, next), Uint16(data, next + 2))
      && ParseRecords(data, next + 4, Uint16(data, 6), stack)
           == Some((ParseResponse(data, stack).value.0.answers, ParseResponse(data, stack).value.1))
  {
    hide ParseName, ParseRecords, Uint16;
  }

  lemma FirstRecordRead(data: bytes, at: nat, count: nat, stack: nat)
    ensures count == 0 ==> ParseRecords(data, at, count, stack) == Some(([], at))
    ensures var r := ParseRecords(data, at, count, stack);
      count > 0 && r.Some? ==>
        ParseRecord(data, at, stack).Some? && |r.value.0| > 0 && r.value.0[0] == ParseRecord(data, at, stack).value.0
  {
    hide ParseRecord;
  }

  lemma RecordAtZeroByte(data: bytes, at: nat, stack: nat)
    requires IsEnd(data, at) && 0 < stack && ParseRecord(data, at, stack).Some?
    ensures at + 3 <= |data| && ParseRecord(data, at, stack).value.0.rtype == Uint16(data, at + 1)
  {
    hide ParseName, Uint16, Uint32;
    EndIsParsed(data, at, stack);
  }

  /** The fields of a question about the root name, read one byte too early. */
  lemma MisreadFields(before: bytes, qtype: uint16, qclass: uint16, after: bytes)
    ensures var data := before + ([0, 0] + Put16(qtype) + Put16(qclass)) + after; var p := |before|;
      && p + 6 <= |data|
      && Uint16(data, p + 1) == qtype / 256
      && Uint16(data, p + 3) == qtype % 256 * 256 + qclass / 256
      && data[p + 5] as nat == qclass % 256
  {
    var data := before + ([0, 0] + Put16(qtype) + Put16(qclass)) + after;
    var p := |before|;
    assert data[p + 1] == 0 && data[p + 2] == Low8(qtype / 256) && data[p + 3] == Low8(qtype);
    assert data[p + 4] == Low8(qclass / 256) && data[p + 5] == Low8(qclass);
  }

  lemma AnswersStart(ips: seq<bytes>, ttl: uint32)
    requires ips != []
    ensures |AnswersBytes(ips, ttl)| >= 2 && AnswersBytes(ips, ttl)[0] == 0xC0 && AnswersBytes(ips, ttl)[1] == 0x0C
  {
    hide Put32, To4;
  }

  lemma RootFields(id: uint16, flags: uint16, q: Question, ips: seq<bytes>, ttl: uint32, stack: nat)
    requires q.name == [] && 0 < stack
    ensures var data := ResponseBytes(id, flags, q, ips, ttl);
      && 18 <= |data| == 18 + |AnswersBytes(ips, ttl)|
      && Uint16(data, 6) == |ips| % 65536
      && ParseName(data, 12, stack) == Name([], 13)
      && Uint16(data, 13) == q.qtype / 256
      && Uint16(data, 15) == q.qtype % 256 * 256 + q.qclass / 256
      && data[17] as nat == q.qclass % 256
      && (ips != [] ==> 20 <= |data| && Uint16(data, 18) == 0xC00C)
  {
    hide ParseName, EncodeName, Header, AnswersBytes, Put16;
    var data := ResponseBytes(id, flags, q, ips, ttl);
    var header := Header(id, flags, |ips|);
    var fields := Put16(q.qtype) + Put16(q.qclass);
    var answers := AnswersBytes(ips, ttl);
    RootNameLeavesAByte(header, fields + answers, stack);
    HeaderFields(id, flags, |ips|, EncodeQuestion(q) + answers);
    assert data == header + (EncodeQuestion(q) + answers);
    assert data == header + EncodeName([]) + (fields + answers);
    MisreadFields(header, q.qtype, q.qclass, answers);
    assert data == header + ([0, 0] + Put16(q.qtype) + Put16(q.qclass)) + answers;
    if ips != [] {
      AnswersStart(ips, ttl);
      assert data[18] == answers[0] && data[19] == answers[1];
    }
  }

  lemma RootQuestionIsMisread(id: uint16, flags: uint16, q: Question, ips: seq<bytes>, ttl: uint32, stack: nat)
    requires q.name == [] && 0 < stack && |ips| <= 65535
    ensures var data := ResponseBytes(id, flags, q, ips, ttl);
      ParseResponse(data, stack) != Some((Response(id, flags, q, ARecords(q.name, ips, ttl)), |data|))
  {
    hide ParseResponse, ResponseBytes, ParseName, ParseRecords, ParseRecord, Uint16, AnswersBytes;
    var data := ResponseBytes(id, flags, q, ips, ttl);
    RootFields(id, flags, q, ips, ttl, stack);
    if ParseResponse(data, stack) == Some((Response(id, flags, q, ARecords(q.name, ips, ttl)), |data|)) {
      QuestionRead(data, stack);
      assert q.qtype == 0 && q.qclass == 0;
      FirstRecordRead(data, 17, |ips|, stack);
      if ips != [] { RecordAtZeroByte(data, 17, stack); }
      assert false;
    }
  }

  /** The builders are undone by the reader: from a response to at most 65535 addresses it
      recovers the identifier, the flags, the question and every answer, in order, each owned
      by the name in the question, and nothing is left over. This takes an encodable name and
      addresses that have a 4-byte form, and neither can be spared. */
  lemma ResponseRoundTrip(id: uint16, flags: uint16, q: Question, ips: seq<bytes>, ttl: uint32, stack: nat)
    requires 1 < stack && |ips| <= 65535
    ensures var data := ResponseBytes(id, flags, q, ips, ttl);
      Encodable(q.name) && AllHave4(ips) <==>
      ParseResponse(data, stack) == Some((Response(id, flags, q, ARecords(q.name, ips, ttl)), |data|))
  {
    hide ParseResponse, ParseName, EncodeName, Header, AnswersBytes, ARecords, AllHave4, Encodable, Uint16, ParseRecords;
    var data := ResponseBytes(id, flags, q, ips, ttl);
    if Encodable(q.name) {
      assert ips + [] == ips;
      assert AnswersBytes([], ttl) == [] by { NoAnswerBytes(ttl); }
      ResponseRead(id, flags, q, ips, [], ttl, stack);
    } else if q.name == [] {
      RootQuestionIsMisread(id, flags, q, ips, ttl, stack);
    } else if ParseResponse(data, stack).Some? {
      var rest := Put16(q.qtype) + Put16(q.qclass) + AnswersBytes(ips, ttl);
      NameReadBack(Header(id, flags, |ips|), q.name, rest, stack);
      assert data == Header(id, flags, |ips|) + EncodeName(q.name) + rest;
      QuestionRead(data, stack);
    }
  }

  /** With more addresses the 16-bit answer count wraps around: in the bytes that the builder
      returns a reader sees only the first |ips| mod 65536 of them, and the rest is left over.
      (Bytes that many do not fit a UDP datagram, so that dns.go:199 cannot send them.) */
  lemma AnswerCountWraps(id: uint16, flags: uint16, q: Question, ips: seq<bytes>, ttl: uint32, stack: nat)
    requires Encodable(q.name) && 1 < stack && AllHave4(ips)
    ensures var n := |ips| % 65536; var data := ResponseBytes(id, flags, q, ips, ttl);
      ParseResponse(data, stack) == Some((Response(id, flags, q, ARecords(q.name, ips[..n], ttl)),
                                          |data| - |AnswersBytes(ips[n..], ttl)|))
  {
    hide ParseResponse, ResponseBytes, ARecords, Encodable, AnswersBytes, To4;
    var n := |ips| % 65536;
    assert ips[..n] + ips[n..] == ips;
    ResponseRead(id, flags, q, ips[..n], ips[n..], ttl, stack);
  }

  // ---------------------------------------------------------------- in bytes

  /** The header of a response: the identifier, the flags 0x8180 or 0x8183, one question, the
      number of answers, and nothing in the other two sections. */
  lemma HeaderWritten(i1: byte, i0: byte, n1: byte, n0: byte)
    ensures var id := i1 as nat * 256 + i0 as nat; var n := n1 as nat * 256 + n0 as nat;
      && Header(id, FLAGS_OK, n) == [i1, i0, 0x81, 0x80, 0, 1, n1, n0, 0, 0, 0, 0]
      && Header(id, FLAGS_NXDOMAIN, n) == [i1, i0, 0x81, 0x83, 0, 1, n1, n0, 0, 0, 0, 0]
  {
    hide Put16;
    BigEndian16(i1, i0);
    BigEndian16(n1, n0);
    BigEndian16(0x81, 0x80);
    BigEndian16(0x81, 0x83);
  }

  /** An answer for a 4-byte address: a pointer to offset 12, type 1, class 1, the lifetime, and
      the address as it is behind its length. */
  lemma AnswerWritten(ip: bytes, t3: byte, t2: byte, t1: byte, t0: byte)
    requires |ip| == 4
    ensures var ttl := t3 as nat * 0x100_0000 + t2 as nat * 0x1_0000 + t1 as nat * 0x100 + t0 as nat;
      AnswersBytes([ip], ttl) == [0xC0, 0x0C, 0, 1, 0, 1, t3, t2, t1, t0, 0, 4] + ip
  {
    hide Put32;
    BigEndian32(t3, t2, t1, t0);
    FourByteForm(ip);
    AnswersCons([ip], t3 as nat * 0x100_0000 + t2 as nat * 0x1_0000 + t1 as nat * 0x100 + t0 as nat);
  }

  lemma QuestionWritten(name: bytes, y1: byte, y0: byte, c1: byte, c0: byte)
    ensures EncodeQuestion(Question(name, y1 as nat * 256 + y0 as nat, c1 as nat * 256 + c0 as nat))
         == EncodeName(name) + [y1, y0, c1, c0]
  {
    hide Put16, EncodeName;
    BigEndian16(y1, y0);
    BigEndian16(c1, c0);
  }

  /** The records for 4-byte addresses hold those addresses, in order. */
  lemma RecordsOfFour(owner: bytes, ips: seq<bytes>, ttl: uint32)
    requires forall i :: 0 <= i < |ips| ==> |ips[i]| == 4
    ensures AllHave4(ips)
    ensures forall i :: 0 <= i < |ips| ==> ARecords(owner, ips, ttl)[i] == Record(owner, 1, 1, ttl, ips[i])
  {
    hide To4;
    forall i | 0 <= i < |ips| ensures |To4(ips[i])| == 4 && ARecords(owner, ips, ttl)[i] == Record(owner, 1, 1, ttl, ips[i]) {
      FourByteForm(ips[i]);
    }
  }
}
