/** The STUN client in bytes and numbers: what a server reports in its datagram is what the
    client remembers (stun.go:79-146, 166-288). */
module StunReports {
  import opened Bytes
  import opened IpAddress
  import opened Stun
  import opened StunClient

  /** A binding response that reports the endpoint `ip`:`port` in the attribute number `first`,
      with other attributes before it, any after it, and anything behind the message. */
  datatype Report = Report(
    transaction: bytes, attrs: seq<Attribute>, first: nat, tail: bytes, ip: bytes, port: nat)

  /** The attribute that holds the endpoint: masked under 0x0020, in the clear under 0x0001. */
  predicate Holds(a: Attribute, ip: bytes, port: nat)
    requires |ip| == 4 && port < 65536
  {
    || (a.kind == 0x0020 && a.value == EncodeXorMapped(ip, port))
    || (a.kind == 0x0001 && a.value == [0, 1, (port / 256) as byte, (port % 256) as byte] + ip)
  }

  ghost predicate Sound(r: Report) {
    && |r.transaction| == 12 && AllWellFormed(r.attrs) && |EncodeAttributes(r.attrs)| <= 1004
    && |r.ip| == 4 && r.port < 65536
    && r.first < |r.attrs| && Holds(r.attrs[r.first], r.ip, r.port)
    && forall j :: 0 <= j < r.first ==> r.attrs[j].kind != 0x0001 && r.attrs[j].kind != 0x0020
  }

  ghost function DatagramOf(r: Report): bytes
    requires Sound(r)
  {
    var n := |EncodeAttributes(r.attrs)|;
    [0x01, 0x01, (n / 256) as byte, (n % 256) as byte, 0x21, 0x12, 0xA4, 0x42] + r.transaction
      + EncodeAttributes(r.attrs) + r.tail
  }

  /** The form in which the address arrives: 4 bytes if it was masked, 16 if not. */
  function Form(a: Attribute, ip: bytes): bytes {
    if a.kind == 0x0020 then ip else [0, 0, 0, 0, 0, 0, 0, 0, 0, 0, 255, 255] + ip
  }

  lemma HeaderWritten(n: nat, transaction: bytes)
    requires n < 65536
    ensures ResponseHeader(n, transaction)
         == [0x01, 0x01, (n / 256) as byte, (n % 256) as byte, 0x21, 0x12, 0xA4, 0x42] + transaction
  {
    hide Put32;
    BigEndian32(0x21, 0x12, 0xA4, 0x42);
    var n1, n0 := (n / 256) as byte, (n % 256) as byte;
    BigEndian16(n1, n0);
    assert n == n1 as nat * 256 + n0 as nat;
    BigEndian16(0x01, 0x01);
  }

  lemma ClearWritten(ip: bytes, port: nat)
    requires |ip| == 4 && port < 65536
    ensures EncodeMapped(ip, port) == [0, 1, (port / 256) as byte, (port % 256) as byte] + ip
  {
    hide Put16;
    var p1, p0 := (port / 256) as byte, (port % 256) as byte;
    BigEndian16(p1, p0);
    assert port == p1 as nat * 256 + p0 as nat;
  }

  lemma HeldIsDecoded(a: Attribute, ip: bytes, port: nat)
    requires |ip| == 4 && port < 65536 && Holds(a, ip, port)
    ensures IsAddress(a.kind) && Decode(a.kind, a.value) == Found(Endpoint(Form(a, ip), port))
  {
    hide DecodeXorMapped, DecodeMapped, EncodeXorMapped, EncodeMapped;
    ClearWritten(ip, port);
    DecodeEncodedXor(ip, port);
    DecodeEncodedMapped(ip, port);
  }

  /** However much of what is behind the message still fits the buffer, the report is read. */
  lemma ReportIsParsed(r: Report, tail: bytes)
    requires Sound(r)
    ensures ParseResponse(DatagramOf(r.(tail := tail))) == Found(Endpoint(Form(r.attrs[r.first], r.ip), r.port))
  {
    hide ParseResponse, EncodeAttributes, Decode, Holds, ResponseHeader, AllWellFormed;
    HeaderWritten(|EncodeAttributes(r.attrs)|, r.transaction);
    HeldIsDecoded(r.attrs[r.first], r.ip, r.port);
    assert FirstAddress(r.attrs, r.first);
    ResponseOfAttributes(r.transaction, r.attrs, tail);
  }

  /** One request: the answer is the endpoint reported, under the name of the server asked. */
  lemma ReportIsResult(server: bytes, r: Report)
    requires Sound(r)
    ensures Binding(server, Datagram(DatagramOf(r)))
         == Some(Result(Form(r.attrs[r.first], r.ip), r.port, server))
  {
    hide Sound, ParseResponse, Form;
    var data := DatagramOf(r);
    BufferHolds(r);
    var tail := if |data| <= 1024 then r.tail else r.tail[..1024 - (|data| - |r.tail|)];
    ReportIsParsed(r, tail);
    assert r.(tail := r.tail) == r;
  }

  lemma BufferHolds(r: Report)
    requires Sound(r)
    ensures var data := DatagramOf(r); var kept := 1024 - (|data| - |r.tail|);
      && kept >= 0 && r.first < |r.attrs|
      && (|data| > 1024 ==>
            && kept <= |r.tail| && Sound(r.(tail := r.tail[..kept]))
            && data[..1024] == DatagramOf(r.(tail := r.tail[..kept])))
  {
    hide EncodeAttributes, Holds, AllWellFormed;
  }

  /** Which replies are answers: those in whose first 1024 bytes an address is found. */
  lemma AnswersInNumbers(reply: Reply)
    ensures Answers(reply) <==>
      reply.Datagram? && ParseResponse(if |reply.data| <= 1024 then reply.data else reply.data[..1024]).Found?
  {
    hide ParseResponse;
  }

  /** A message that is too long for the buffer is refused, whatever is in it. */
  lemma LongMessageIsNoAnswer(data: bytes)
    requires 20 <= |data| && data[2] as nat * 256 + data[3] as nat > 1004
    ensures !Answers(Datagram(data))
  {
    hide ParseResponse;
    var seen := if |data| <= 1024 then data else data[..1024];
    assert seen[2] == data[2] && seen[3] == data[3];
    HeaderChecks(seen);
    AnswersInNumbers(Datagram(data));
  }

  // ---------------------------------------------------------------- one call

  /** A call of Discover in which server `k` is the first to answer, with a report: the result,
      the public endpoint and the entry in the table are what was reported. */
  lemma DiscoverReports(servers: seq<bytes>, m: Memory, call: Call, k: nat, r: Report)
    requires |call.replies| == |servers| && k < |servers| && Sound(r)
    requires call.replies[k] == Datagram(DatagramOf(r)) && forall h :: 0 <= h < k ==> !Answers(call.replies[h])
    ensures var (result, after) := Discovery(servers, m, call); var ip := Form(r.attrs[r.first], r.ip);
      && result == Some(Result(ip, r.port, servers[k]))
      && after.publicIP == ip && after.publicPort == r.port
      && after.results == m.results[servers[k] := Result(ip, r.port, servers[k])]
      && (|servers| == 1 || servers[k] != servers[0] ==> after.natType == m.natType)
      && (|servers| > 1 && servers[k] == servers[0] && !Answers(call.second) ==> after.natType == Unknown)
  {
    hide Binding, Sound, DatagramOf, Form;
    ReportIsResult(servers[k], r);
    AnyServer(call.replies[k]);
    assert Answers(call.replies[k]) && FirstToAnswer(call, k);
    OnlyOneIsFirst(call, k);
    if |servers| > 1 { AnyServer(call.second); }
  }

  /** The NAT test after that: a second report of the same address and port, in whatever form,
      means a cone, any other report means a symmetric NAT. */
  lemma ReportsAreCompared(servers: seq<bytes>, m: Memory, call: Call, k: nat, r: Report, q: Report)
    requires |call.replies| == |servers| && k < |servers| && Sound(r) && Sound(q)
    requires call.replies[k] == Datagram(DatagramOf(r)) && forall h :: 0 <= h < k ==> !Answers(call.replies[h])
    requires |servers| > 1 && servers[k] == servers[0] && call.second == Datagram(DatagramOf(q))
    ensures Discovery(servers, m, call).1.natType
         == if r.ip == q.ip && r.port == q.port then FullCone else Symmetric
  {
    hide Binding, Sound, DatagramOf, Form, Equal;
    ReportIsResult(servers[k], r);
    ReportIsResult(servers[1], q);
    AnyServer(call.replies[k]);
    assert Answers(call.replies[k]) && FirstToAnswer(call, k);
    OnlyOneIsFirst(call, k);
    FormsCompared(r, q);
  }

  lemma FormsCompared(r: Report, q: Report)
    requires Sound(r) && Sound(q)
    ensures Equal(Form(r.attrs[r.first], r.ip), Form(q.attrs[q.first], q.ip)) <==> r.ip == q.ip
  {
    hide EncodeAttributes, EncodeXorMapped, AllWellFormed;
    var a, b := Form(r.attrs[r.first], r.ip), Form(q.attrs[q.first], q.ip);
    if |a| == 16 { assert a[12..] == r.ip; }
    if |b| == 16 { assert b[12..] == q.ip; }
  }

  // ---------------------------------------------------------------- many calls

  /** After any calls, the public endpoint is the one reported in the latest answer. */
  lemma EndpointIsLatestReport(servers: seq<bytes>, calls: seq<Call>, j: nat, i: nat, r: Report)
    requires AllFit(servers, calls) && LatestAnswer(calls, j, i) && Sound(r)
    requires i < |calls[j].replies| && calls[j].replies[i] == Datagram(DatagramOf(r))
    ensures Run(servers, calls).publicIP == Form(r.attrs[r.first], r.ip) && Run(servers, calls).publicPort == r.port
  {
    hide Binding, Run, Sound, DatagramOf, Form, FirstToAnswer;
    EndpointIsLatestAnswer(servers, calls, j, i);
    ReportIsResult(servers[i], r);
  }

  /** The table holds for a server the endpoint that it reported in its latest first answer. */
  lemma ResultIsLatestReport(servers: seq<bytes>, calls: seq<Call>, name: bytes, j: nat, i: nat, r: Report)
    requires AllFit(servers, calls) && LatestAnswerBy(servers, calls, name, j, i) && Sound(r)
    requires i < |calls[j].replies| && calls[j].replies[i] == Datagram(DatagramOf(r))
    ensures name in Run(servers, calls).results
    ensures Run(servers, calls).results[name] == Result(Form(r.attrs[r.first], r.ip), r.port, name)
  {
    hide Binding, Run, Sound, DatagramOf, Form, FirstToAnswer;
    ResultsAreLatest(servers, calls, name);
    ReportIsResult(name, r);
  }

  /** The NAT type compares the two reports of the latest call in which the first configured
      server answered first. */
  lemma NatTypeComparesLatestReports(servers: seq<bytes>, calls: seq<Call>, j: nat, i: nat, r: Report, q: Report)
    requires AllFit(servers, calls) && LatestProbe(servers, calls, j, i) && Sound(r) && Sound(q)
    requires calls[j].replies[i] == Datagram(DatagramOf(r)) && calls[j].second == Datagram(DatagramOf(q))
    ensures Run(servers, calls).natType == if r.ip == q.ip && r.port == q.port then FullCone else Symmetric
  {
    hide Binding, Run, Sound, DatagramOf, Form, FirstToAnswer, Equal;
    NatTypeIsLatestVerdict(servers, calls, j, i);
    ReportIsResult(servers[i], r);
    ReportIsResult(servers[1], q);
    FormsCompared(r, q);
  }

  // ---------------------------------------------------------------- a sample

  const SAMPLE_ATTRIBUTES: bytes := [
    0x80, 0x22, 0x00, 0x0B, 0x74, 0x65, 0x73, 0x74, 0x20, 0x76, 0x65, 0x63, 0x74, 0x6F, 0x72, 0x20,
    0x00, 0x20, 0x00, 0x08, 0x00, 0x01, 0xA1, 0x47, 0xE1, 0x12, 0xA6, 0x43]

  lemma SampleFields(before: bytes, rest: bytes)
    requires |before| == 20
    ensures var data := before + SAMPLE_ATTRIBUTES + rest;
      && Uint16(data, 20) == 0x8022 && Uint16(data, 22) == 11
      && Uint16(data, 36) == 0x0020 && Uint16(data, 38) == 8
      && data[40..48] == [0x00, 0x01, 0xA1, 0x47, 0xE1, 0x12, 0xA6, 0x43]
  {
    var data := before + SAMPLE_ATTRIBUTES + rest;
    assert data[20] == SAMPLE_ATTRIBUTES[0] && data[21] == SAMPLE_ATTRIBUTES[1];
    assert data[22] == SAMPLE_ATTRIBUTES[2] && data[23] == SAMPLE_ATTRIBUTES[3];
    assert data[36] == SAMPLE_ATTRIBUTES[16] && data[37] == SAMPLE_ATTRIBUTES[17];
    assert data[38] == SAMPLE_ATTRIBUTES[18] && data[39] == SAMPLE_ATTRIBUTES[19];
  }

  /** The sample response of RFC 5769 section 2.2, whatever its transaction and the 32 bytes of
      integrity and fingerprint, reports 192.0.2.1, port 32853. */
  lemma SampleResponse(transaction: bytes, rest: bytes)
    requires |transaction| == 12 && |rest| == 32
    ensures ParseResponse([0x01, 0x01, 0x00, 0x3C, 0x21, 0x12, 0xA4, 0x42] + transaction + SAMPLE_ATTRIBUTES + rest)
         == Found(Endpoint([192, 0, 2, 1], 32853))
  {
    hide ParseResponse, FindAddress, DecodeXorMapped, DecodeMapped, Uint16;
    var before := [0x01, 0x01, 0x00, 0x3C, 0x21, 0x12, 0xA4, 0x42] + transaction;
    var data := before + SAMPLE_ATTRIBUTES + rest;
    assert data[4..8] == [0x21, 0x12, 0xA4, 0x42];
    HeaderChecks(data);
    SampleFields(before, rest);
    LoopStep(data, 20, 80);
    LoopStep(data, 36, 80);
    SampleMaskedAddress();
  }
}
