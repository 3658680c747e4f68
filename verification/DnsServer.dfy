/** The name server object (dns.go): its table of peers, and what it does with a query. */
module DnsServer {
  import opened Bytes
  import opened DottedNames
  import opened IpAddress
  import opened DnsName
  import opened DnsTermination
  import opened DnsMeaning
  import opened DnsEncoding
  import opened DnsMessage

  const STAR: byte := 42

  /** What a query leads to; `Crash` is the stack overflow of the name parser. */
  datatype Reaction = Ignore | Crash | AskUpstream | Answer(response: bytes)

  predicate HasSuffix(s: bytes, suffix: bytes) {
    |suffix| <= |s| && s[|s| - |suffix|..] == suffix
  }

  /** The queries that handleQuery keeps to itself: type A, below the domain. */
  predicate IsLocal(q: Question, domain: bytes) {
    HasSuffix(q.name, [DOT] + domain) && q.qtype == 1
  }

  /** How many of `names` have the address `ip`. */
  ghost function Holders(names: set<bytes>, peers: map<bytes, bytes>, ip: bytes): nat {
    |set name | name in names && name in peers && peers[name] == ip|
  }

  /** `ips` lists the addresses in the table, each as often as it is there. */
  ghost predicate ListsValues(ips: seq<bytes>, peers: map<bytes, bytes>) {
    |ips| == |peers| && forall ip :: multiset(ips)[ip] == Holders(peers.Keys, peers, ip)
  }

  /** What a response to a local question has to say, given the table. */
  ghost predicate RightAnswers(q: Question, peers: map<bytes, bytes>, domain: bytes, flags: uint16, ips: seq<bytes>) {
    if q.name in peers then flags == FLAGS_OK && ips == [peers[q.name]]
    else if (q.name == domain || q.name == [STAR, DOT] + domain) && peers != map[] then
      flags == FLAGS_OK && ListsValues(ips, peers)
    else flags == FLAGS_NXDOMAIN && ips == []
  }

  /** The branch for the bare domain is never taken: such a query goes upstream. */
  lemma BareDomainIsNotLocal(q: Question, domain: bytes)
    requires q.name == domain
    ensures !IsLocal(q, domain)
  {
    assert |[DOT] + domain| > |q.name|;
  }

  // ---------------------------------------------------------------- answers in numbers

  /** Local are exactly the questions of type 1 for a name made of something, a dot (46) and
      the domain. */
  lemma LocalMeansBelow(q: Question, domain: bytes)
    ensures IsLocal(q, domain) <==> q.qtype == 1 && Below(q.name, domain)
  {
    if IsLocal(q, domain) {
      var host := q.name[..|q.name| - 1 - |domain|];
      assert q.name == host + [46] + domain;
    }
    if q.qtype == 1 && Below(q.name, domain) {
      var host: bytes :| q.name == host + [46] + domain;
      assert q.name == host + ([46] + domain);
    }
  }

  ghost predicate Below(name: bytes, domain: bytes) {
    exists host: bytes :: name == host + [46] + domain
  }

  /** A reader finds this and nothing else. */
  ghost predicate ReadsAs(response: bytes, id: uint16, flags: uint16, q: Question, records: seq<Record>) {
    ParseResponse(response, 2) == Some((Response(id, flags, q, records), |response|))
  }

  function Rdatas(records: seq<Record>): (ips: seq<bytes>)
    ensures |ips| == |records| && forall i :: 0 <= i < |records| ==> ips[i] == records[i].rdata
  {
    seq(|records|, i requires 0 <= i < |records| => records[i].rdata)
  }

  /** Address records for the addresses in the table, each as often as it is there. */
  ghost predicate ListsRecords(records: seq<Record>, owner: bytes, ttl: uint32, peers: map<bytes, bytes>) {
    && ListsValues(Rdatas(records), peers)
    && forall i :: 0 <= i < |records| ==> records[i] == Record(owner, 1, 1, ttl, records[i].rdata)
  }

  /** What a response has to say, in numbers. A peer: its address, of which a mapped one loses
      its first twelve bytes. "*" (42) and the domain: all addresses. Any other name: code 3. */
  ghost predicate SaysRight(
    response: bytes, id: uint16, q: Question, peers: map<bytes, bytes>, domain: bytes, ttl: uint32)
  {
    if q.name in peers then
      var ip := peers[q.name];
      && (|ip| == 4 ==> ReadsAs(response, id, 0x8180, q, [Record(q.name, 1, 1, ttl, ip)]))
      && (IsMapped(ip) ==> ReadsAs(response, id, 0x8180, q, [Record(q.name, 1, 1, ttl, ip[12..])]))
    else if q.name == [42, 46] + domain && peers != map[] then
      (|peers| <= 65535 && forall name :: name in peers ==> |peers[name]| == 4) ==>
        exists records :: ReadsAs(response, id, 0x8180, q, records) && ListsRecords(records, q.name, ttl, peers)
    else ReadsAs(response, id, 0x8183, q, [])
  }

  lemma OneRecord(owner: bytes, ip: bytes, ttl: uint32)
    ensures AllHave4([ip]) <==> |To4(ip)| == 4
    ensures ARecords(owner, [ip], ttl) == [Record(owner, 1, 1, ttl, To4(ip))]
  {
    hide To4;
    assert ARecords(owner, [ip], ttl)[0] == ARecord(owner, ip, ttl);
  }

  lemma PeerSaidRight(id: uint16, q: Question, peers: map<bytes, bytes>, domain: bytes, ttl: uint32)
    requires q.name in peers && Encodable(q.name)
    ensures SaysRight(ResponseBytes(id, FLAGS_OK, q, [peers[q.name]], ttl), id, q, peers, domain, ttl)
  {
    hide ParseResponse, ResponseBytes, Encodable, To4, ARecords, AllHave4;
    var ip := peers[q.name];
    FourByteForm(ip);
    OneRecord(q.name, ip, ttl);
    if IsMapped(ip) { assert ip[12..] == [ip[12], ip[13], ip[14], ip[15]]; }
    ResponseRoundTrip(id, FLAGS_OK, q, [ip], ttl, 2);
  }

  lemma ListedAreValues(ips: seq<bytes>, peers: map<bytes, bytes>)
    requires ListsValues(ips, peers) && forall name :: name in peers ==> |peers[name]| == 4
    ensures forall i :: 0 <= i < |ips| ==> |ips[i]| == 4
  {
    forall i | 0 <= i < |ips| ensures |ips[i]| == 4 {
      assert multiset(ips)[ips[i]] > 0;
      assert Holders(peers.Keys, peers, ips[i]) > 0;
      var name :| name in (set name | name in peers.Keys && name in peers && peers[name] == ips[i]);
    }
  }

  lemma AllSaidRight(
    id: uint16, q: Question, peers: map<bytes, bytes>, domain: bytes, ips: seq<bytes>, ttl: uint32)
    requires q.name !in peers && q.name == [STAR, DOT] + domain && peers != map[] && Encodable(q.name)
    requires ListsValues(ips, peers)
    ensures SaysRight(ResponseBytes(id, FLAGS_OK, q, ips, ttl), id, q, peers, domain, ttl)
  {
    hide ParseResponse, ResponseBytes, Encodable, To4, ARecords, AllHave4, Holders;
    if |peers| <= 65535 && forall name :: name in peers ==> |peers[name]| == 4 {
      ListedAreValues(ips, peers);
      RecordsOfFour(q.name, ips, ttl);
      ResponseRoundTrip(id, FLAGS_OK, q, ips, ttl, 2);
      var records := ARecords(q.name, ips, ttl);
      assert Rdatas(records) == ips;
      assert ReadsAs(ResponseBytes(id, FLAGS_OK, q, ips, ttl), id, 0x8180, q, records);
      assert ListsRecords(records, q.name, ttl, peers);
    }
  }

  lemma OthersSaidRight(id: uint16, q: Question, peers: map<bytes, bytes>, domain: bytes, ttl: uint32)
    requires q.name !in peers && (q.name != [STAR, DOT] + domain || peers == map[]) && Encodable(q.name)
    ensures SaysRight(ResponseBytes(id, FLAGS_NXDOMAIN, q, [], ttl), id, q, peers, domain, ttl)
  {
    hide ParseResponse, ResponseBytes, Encodable, To4, ARecords, AllHave4;
    NoRecords(q.name, ttl);
    ResponseRoundTrip(id, FLAGS_NXDOMAIN, q, [], ttl, 2);
  }

  lemma RightIsSaidRight(
    id: uint16, q: Question, peers: map<bytes, bytes>, domain: bytes, flags: uint16, ips: seq<bytes>, ttl: uint32)
    requires RightAnswers(q, peers, domain, flags, ips) && IsLocal(q, domain) && Encodable(q.name)
    ensures SaysRight(ResponseBytes(id, flags, q, ips, ttl), id, q, peers, domain, ttl)
  {
    hide ResponseBytes, Encodable, ListsValues, SaysRight;
    if q.name in peers {
      PeerSaidRight(id, q, peers, domain, ttl);
    } else if q.name == [STAR, DOT] + domain && peers != map[] {
      AllSaidRight(id, q, peers, domain, ips, ttl);
    } else {
      OthersSaidRight(id, q, peers, domain, ttl);
    }
  }

  lemma IdFirst(id: uint16, data: bytes, flags: uint16, q: Question, ips: seq<bytes>, ttl: uint32)
    requires 2 <= |data| && id == Uint16(data, 0)
    ensures var response := ResponseBytes(id, flags, q, ips, ttl); |response| >= 12 && response[..2] == data[..2]
  {
    hide EncodeQuestion, AnswersBytes;
    ReadPut16(data, 0);
    HeaderStart(id, flags, |ips|);
    assert ResponseBytes(id, flags, q, ips, ttl)[..2] == Header(id, flags, |ips|)[..2];
  }

  lemma HeaderStart(id: uint16, flags: uint16, answers: nat)
    ensures Header(id, flags, answers)[..2] == Put16(id)
  {
  }

  class Server {
    const domain: bytes
    const ttl: uint32
    var peers: map<bytes, bytes>

    constructor (domain: bytes, ttl: uint32)
      ensures this.domain == domain && this.ttl == ttl && peers == map[]
    {
      this.domain, this.ttl, this.peers := domain, ttl, map[];
    }

    method AddPeer(hostname: bytes, ip: bytes)
      modifies this`peers
      ensures peers == old(peers)[hostname := ip]
    {
      peers := peers[hostname := ip];
    }

    method RemovePeer(hostname: bytes)
      modifies this`peers
      ensures hostname !in peers && peers == old(peers) - {hostname}
    {
      peers := peers - {hostname};
    }

    /** The range loop over the table, whose order Go leaves open. */
    method AllAddresses() returns (ips: seq<bytes>)
      ensures ListsValues(ips, peers)
    {
      ips := [];
      var left := peers.Keys;
      ghost var done: set<bytes> := {};
      while left != {}
        invariant done !! left && done + left == peers.Keys
        invariant |ips| == |done|
        invariant forall ip :: multiset(ips)[ip] == Holders(done, peers, ip)
        decreases |left|
      {
        var name :| name in left;
        OneMoreHolder(done, peers, name);
        ips := ips + [peers[name]];
        left, done := left - {name}, done + {name};
      }
      assert done == peers.Keys;
    }

    method HandleNexusQuery(id: uint16, q: Question) returns (response: bytes)
      ensures exists flags: uint16, ips: seq<bytes> ::
        RightAnswers(q, peers, domain, flags, ips) && response == ResponseBytes(id, flags, q, ips, ttl)
    {
      hide ResponseBytes;
      if q.name in peers {
        response := BuildResponse(id, q, peers[q.name], ttl);
        assert RightAnswers(q, peers, domain, FLAGS_OK, [peers[q.name]]);
        return;
      }
      if q.name == domain || q.name == [STAR, DOT] + domain {
        var ips := AllAddresses();
        if |ips| > 0 {
          response := BuildMultiResponse(id, q, ips, ttl);
          assert RightAnswers(q, peers, domain, FLAGS_OK, ips);
          return;
        }
      }
      response := BuildNxDomain(id, q);
      NoAnswers(id, q, ttl);
      assert RightAnswers(q, peers, domain, FLAGS_NXDOMAIN, []);
    }

    /** What a datagram leads to, whatever is in it. A local question is answered, under the
        identifier of the query. In the buffer handed to the write (dns.go:199) a reader finds
        that question, the right answers and nothing else if and only if the name is
        encodable and all the addresses have a 4-byte form. On any stack with room for more
        calls than the datagram has bytes the server crashes if and only if the question loop
        gets to a name whose pointers come back to an offset. */
    method HandleQuery(data: bytes, stack: nat) returns (r: Reaction)
      ensures |data| < 12 ==> r == Ignore
      ensures |data| >= 12 ==>
        var id := Uint16(data, 0);
        match ParseQuestions(data, 12, Uint16(data, 4), stack)
        case BadQuestions => r == Ignore
        case QuestionsOverflow => r == Crash
        case Questions(qs) =>
          if qs == [] then r == Ignore
          else if !IsLocal(qs[0], domain) then r == AskUpstream
          else
            && r.Answer? && |r.response| >= 12 && r.response[..2] == data[..2]
            && exists flags: uint16, ips: seq<bytes> ::
                 && RightAnswers(qs[0], peers, domain, flags, ips)
                 && r.response == ResponseBytes(id, flags, qs[0], ips, ttl)
                 && (|ips| <= 65535 ==>
                       (Encodable(qs[0].name) && AllHave4(ips) <==>
                          ParseResponse(r.response, 2)
                            == Some((Response(id, flags, qs[0], ARecords(qs[0].name, ips, ttl)), |r.response|))))
                 && (Encodable(qs[0].name) ==> SaysRight(r.response, id, qs[0], peers, domain, ttl))
      ensures |data| >= 12 && |data| < stack ==> (r == Crash <==> ReachesLoop(data, 12, Uint16(data, 4)))
    {
      hide ResponseBytes, ParseResponse, RightAnswers, Encodable, AllHave4, ARecords, ParseName, Uint16, IsLocal,
           ReachesLoop, SaysRight;
      if |data| < 12 { return Ignore; }
      var id, count := Uint16(data, 0), Uint16(data, 4);
      if |data| < stack { OverflowsOnLoops(data, 12, count, stack); }
      if count == 0 { return Ignore; }
      var parsed := ParseQuestionSection(data, count, stack);
      if parsed.BadQuestions? { return Ignore; }
      if parsed.QuestionsOverflow? { return Crash; }
      if parsed.list == [] { return Ignore; }
      var q := parsed.list[0];
      if !IsLocal(q, domain) { return AskUpstream; }
      var response := HandleNexusQuery(id, q);
      ghost var flags: uint16, ips: seq<bytes> :|
        RightAnswers(q, peers, domain, flags, ips) && response == ResponseBytes(id, flags, q, ips, ttl);
      IdFirst(id, data, flags, q, ips, ttl);
      if |ips| <= 65535 { ResponseRoundTrip(id, flags, q, ips, ttl, 2); }
      if Encodable(q.name) { RightIsSaidRight(id, q, peers, domain, flags, ips, ttl); }
      return Answer(response);
    }
  }

  /** A query for "a.n", type A. */
  const SAMPLE_QUERY: bytes := [7, 9, 1, 0, 0, 1, 0, 0, 0, 0, 0, 0, 1, 97, 1, 110, 0, 0, 1, 0, 1]

  /** Its answer when that is the peer 10.0.0.5 and answers live 300 seconds. */
  const SAMPLE_ANSWER: bytes := [
    7, 9, 0x81, 0x80, 0, 1, 0, 1, 0, 0, 0, 0, 1, 97, 1, 110, 0, 0, 1, 0, 1,
    0xC0, 0x0C, 0, 1, 0, 1, 0, 0, 1, 44, 0, 4, 10, 0, 0, 5]

  lemma SampleNameIsParsed(stack: nat)
    requires 0 < stack
    ensures ParseName(SAMPLE_QUERY, 12, stack) == Name([97, 46, 110], 17)
  {
    hide ParseName;
    SampleLabelIsParsed(stack);
    NameSyntax(SAMPLE_QUERY, 12, stack);
    assert SAMPLE_QUERY[13..14] == [97] && [97] + [46] + [110] == [97, 46, 110];
    assert SAMPLE_QUERY[12] == 1 && SAMPLE_QUERY[14] == 1;
  }

  lemma SampleLabelIsParsed(stack: nat)
    requires 0 < stack
    ensures ParseName(SAMPLE_QUERY, 14, stack) == Name([110], 17)
  {
    hide ParseName;
    NameSyntax(SAMPLE_QUERY, 16, stack);
    NameSyntax(SAMPLE_QUERY, 14, stack);
    assert SAMPLE_QUERY[15..16] == [110];
    assert SAMPLE_QUERY[14] == 1 && SAMPLE_QUERY[16] == 0;
  }

  lemma SampleIsParsed(stack: nat)
    requires 0 < stack
    ensures ParseQuestions(SAMPLE_QUERY, 12, 1, stack) == Questions([Question([97, 46, 110], 1, 1)])
  {
    hide ParseName, ParseQuestions;
    var q := Question([97, 46, 110], 1, 1);
    SampleNameIsParsed(stack);
    NoQuestions(SAMPLE_QUERY, 21, stack);
    OneMoreQuestion(SAMPLE_QUERY, 12, 1, stack, q, 17, []);
    assert [q] + [] == [q];
  }

  lemma SampleNameWritten()
    ensures EncodeName([97, 46, 110]) == [1, 97, 1, 110, 0]
  {
    hide EncodeName;
    NameWritten([110], []);
    NameWritten([97], [110]);
    assert [97] + [46] + [110] == [97, 46, 110];
  }

  lemma SampleResponse()
    ensures ResponseBytes(7 * 256 + 9, FLAGS_OK, Question([97, 46, 110], 1, 1), [[10, 0, 0, 5]], 300) == SAMPLE_ANSWER
  {
    hide EncodeName, EncodeQuestion, Header, AnswersBytes;
    HeaderWritten(7, 9, 0, 1);
    SampleNameWritten();
    QuestionWritten([97, 46, 110], 0, 1, 0, 1);
    AnswerWritten([10, 0, 0, 5], 0, 0, 1, 44);
  }

  /** The server byte for byte: this query and no other bytes than these in answer to it. */
  method AnswerSample(server: Server, stack: nat) returns (r: Reaction)
    requires 0 < stack && server.domain == [110] && server.ttl == 300
    requires [97, 46, 110] in server.peers && server.peers[[97, 46, 110]] == [10, 0, 0, 5]
    ensures r == Answer(SAMPLE_ANSWER)
  {
    hide ParseQuestions, ResponseBytes, ParseResponse, Encodable, AllHave4, SaysRight, ReachesLoop;
    SampleIsParsed(stack);
    SampleResponse();
    var q := Question([97, 46, 110], 1, 1);
    assert q.name[1..] == [46, 110];
    r := server.HandleQuery(SAMPLE_QUERY, stack);
  }

  /** A query with the two labels "." and "n", type A. */
  const DOT_QUERY: bytes := [0, 7, 1, 0, 0, 1, 0, 0, 0, 0, 0, 0, 1, 46, 1, 110, 0, 0, 1, 0, 1]

  /** Names in queries need not be encodable: under the domain "n" this one is local, its name
      is "..n", and the two empty parts of it go into the response as two zero bytes. */
  lemma LocalButNotEncodable(stack: nat)
    requires 0 < stack
    ensures var q := Question([DOT, DOT, 110], 1, 1);
      && ParseQuestions(DOT_QUERY, 12, 1, stack) == Questions([q])
      && IsLocal(q, [110]) && !Encodable(q.name) && EncodeName(q.name) == [0, 0, 1, 110, 0]
  {
    DotNameIsParsed(stack);
    DotNameIsGarbled();
    var q := Question([DOT, DOT, 110], 1, 1);
    assert ParseQuestions(DOT_QUERY, 21, 0, stack) == Questions([]);
    OneMoreQuestion(DOT_QUERY, 12, 1, stack, q, 17, []);
    assert [q] + [] == [q];
    assert q.name[1..] == [DOT] + [110];
  }

  lemma DotNameIsParsed(stack: nat)
    requires 0 < stack
    ensures ParseName(DOT_QUERY, 12, stack) == Name([DOT, DOT, 110], 17)
  {
    hide ParseName, Scan;
    LastLabelIsParsed(stack);
    ScanStart(DOT_QUERY, 14);
    LabelInFront(DOT_QUERY, 12, stack);
    assert DOT_QUERY[13..14] == [DOT];
  }

  lemma LastLabelIsParsed(stack: nat)
    requires 0 < stack
    ensures ParseName(DOT_QUERY, 14, stack) == Name([110], 17)
  {
    hide ParseName, Scan;
    EndIsParsed(DOT_QUERY, 16, stack);
    ScanStart(DOT_QUERY, 16);
    LabelInFront(DOT_QUERY, 14, stack);
    assert DOT_QUERY[15..16] == [110];
  }

  lemma DotNameIsGarbled()
    ensures !Encodable([DOT, DOT, 110]) && EncodeName([DOT, DOT, 110]) == [0, 0, 1, 110, 0]
  {
    hide EncodeParts, Split;
    NothingSplit();
    SplitPart([110], []);
    SplitAtDot([], [110]);
    SplitAtDot([], [DOT, 110]);
    assert [] + [DOT] + [110] == [DOT, 110] && [] + [DOT] + [DOT, 110] == [DOT, DOT, 110];
    assert Split([DOT, DOT, 110]) == [[], [], [110]];
    assert !Fits(Split([DOT, DOT, 110])[0]);
    EncodedDotName();
  }

  lemma EncodedDotName()
    ensures EncodeParts([[], [], [110]]) == [0, 0, 1, 110]
  {
    assert EncodeParts([[110]]) == [1, 110];
    assert EncodeParts([[], [110]]) == [0, 1, 110];
  }

  /** A query whose name is a pointer to itself. */
  const LOOP_QUERY: bytes := [0, 7, 1, 0, 0, 1, 0, 0, 0, 0, 0, 0, 0xC0, 0x0C]

  lemma LoopQueryCrashes()
    ensures ReachesLoop(LOOP_QUERY, 12, Uint16(LOOP_QUERY, 4))
  {
    hide ParseName;
    assert CallAt(LOOP_QUERY, 12, 0) == Some(12);
    assert CallAt(LOOP_QUERY, 12, 1) == Some(12);
    assert Revisits(LOOP_QUERY, 12);
  }

  lemma NoAnswers(id: uint16, q: Question, ttl: uint32)
    ensures ResponseBytes(id, FLAGS_NXDOMAIN, q, [], 0) == ResponseBytes(id, FLAGS_NXDOMAIN, q, [], ttl)
  {
  }

  lemma OneMoreHolder(names: set<bytes>, peers: map<bytes, bytes>, name: bytes)
    requires name in peers && name !in names
    ensures forall ip ::
      Holders(names + {name}, peers, ip) == Holders(names, peers, ip) + (if peers[name] == ip then 1 else 0)
  {
    forall ip
      ensures Holders(names + {name}, peers, ip) == Holders(names, peers, ip) + (if peers[name] == ip then 1 else 0)
    {
      var before := set n | n in names && n in peers && peers[n] == ip;
      var after := set n | n in names + {name} && n in peers && peers[n] == ip;
      assert after == if peers[name] == ip then before + {name} else before;
    }
  }
}
