/** The STUN client (stun.go:59-141, 243-288): what it remembers over any number of discoveries,
    whatever the servers answer. */
module StunClient {
  import opened Bytes
  import opened IpAddress
  import opened Stun

  datatype NatType = NatNone | FullCone | RestrictedCone | PortRestricted | Symmetric | Unknown

  /** What comes back for one request: nothing in time, or a datagram. */
  datatype Reply = NoReply | Datagram(data: bytes)

  datatype Result = Result(ip: bytes, port: nat, server: bytes)

  /** One call of Discover: the reply that each configured server would give to its first
      request, and the reply to the request that the NAT test makes to the second server. */
  datatype Call = Call(replies: seq<Reply>, second: Reply)

  const READ_BUFFER := 1024

  /** bindingRequest, as far as the reply goes: at most a buffer full of it is looked at. */
  function Binding(server: bytes, reply: Reply): Option<Result> {
    match reply
    case NoReply => None
    case Datagram(data) =>
      var seen := if |data| <= READ_BUFFER then data else data[..READ_BUFFER];
      match ParseResponse(seen)
      case Found(e) => Some(Result(e.ip, e.port, server))
      case Refused(_) => None
  }

  predicate Answers(reply: Reply) {
    Binding([], reply).Some?
  }

  /** Server `i` is the first of the list to answer. */
  predicate FirstToAnswer(call: Call, i: nat) {
    && i < |call.replies| && Answers(call.replies[i])
    && forall h :: 0 <= h < i ==> !Answers(call.replies[h])
  }

  predicate NobodyAnswers(call: Call) {
    forall h :: 0 <= h < |call.replies| ==> !Answers(call.replies[h])
  }

  /** What the NAT test concludes from the results of the two servers. */
  function Judge(first: Result, second: Option<Result>): NatType {
    match second
    case None => Unknown
    case Some(r) => if Equal(first.ip, r.ip) && first.port == r.port then FullCone else Symmetric
  }

  datatype Memory = Memory(results: map<bytes, Result>, publicIP: bytes, publicPort: nat, natType: NatType)

  const BLANK := Memory(map[], [], 0, NatNone)

  /** The first server of the list to answer, if any. */
  ghost function Answering(call: Call): (who: Option<nat>)
    ensures who.Some? ==> who.value < |call.replies| && FirstToAnswer(call, who.value)
    ensures who.None? ==> forall i: nat :: !FirstToAnswer(call, i)
  {
    if exists i: nat :: FirstToAnswer(call, i) then var i: nat :| FirstToAnswer(call, i); Some(i) else None
  }

  /** The result of one call and the memory after it. */
  ghost function Discovery(servers: seq<bytes>, m: Memory, call: Call): (Option<Result>, Memory)
    requires |call.replies| == |servers|
  {
    match Answering(call)
    case None => (None, m)
    case Some(i) =>
      var r := Binding(servers[i], call.replies[i]).value;
      var m' := Memory(m.results[servers[i] := r], r.ip, r.port, m.natType);
      (Some(r), if Probes(servers, i) then m'.(natType := Judge(r, Binding(servers[1], call.second))) else m')
  }

  /** An answer by server `i` is followed by the NAT test. */
  predicate Probes(servers: seq<bytes>, i: nat)
    requires i < |servers|
  {
    |servers| > 1 && servers[i] == servers[0]
  }

  class Client {
    const servers: seq<bytes>
    var results: map<bytes, Result>
    var publicIP: bytes
    var publicPort: nat
    var natType: NatType

    ghost function State(): Memory
      reads this
    {
      Memory(results, publicIP, publicPort, natType)
    }

    constructor (servers: seq<bytes>)
      ensures this.servers == servers && State() == BLANK
    {
      this.servers := servers;
      results, publicIP, publicPort, natType := map[], [], 0, NatNone;
    }

    method Discover(call: Call) returns (r: Option<Result>)
      requires |call.replies| == |servers|
      modifies this
      ensures (r, State()) == Discovery(servers, old(State()), call)
    {
      hide Binding, Judge;
      for i := 0 to |servers|
        invariant State() == old(State())
        invariant forall h :: 0 <= h < i ==> !Answers(call.replies[h])
      {
        AnyServer(call.replies[i]);
        var result := Binding(servers[i], call.replies[i]);
        if result.None? { continue; }
        assert FirstToAnswer(call, i);
        OnlyOneIsFirst(call, i);
        results := results[servers[i] := result.value];
        publicIP := result.value.ip;
        publicPort := result.value.port;
        if |servers| > 1 && servers[i] == servers[0] {
          DetectNatType(result.value, call.second);
        }
        return result;
      }
      return None;
    }

    /** detectNATType; the test for fewer than two servers never applies when Discover calls it. */
    method DetectNatType(first: Result, reply: Reply)
      modifies this`natType
      ensures natType == if |servers| < 2 then Unknown else Judge(first, Binding(servers[1], reply))
    {
      if |servers| < 2 {
        natType := Unknown;
        return;
      }
      var second := Binding(servers[1], reply);
      if second.None? {
        natType := Unknown;
        return;
      }
      if Equal(first.ip, second.value.ip) && first.port == second.value.port {
        natType := FullCone;
      } else {
        natType := Symmetric;
      }
    }
  }

  lemma AnyServer(reply: Reply)
    ensures forall server :: Binding(server, reply).Some? <==> Answers(reply)
  {
  }

  lemma OnlyOneIsFirst(call: Call, i: nat)
    requires FirstToAnswer(call, i)
    ensures Answering(call) == Some(i)
  {
    hide Answers;
    var j := Answering(call).value;
    assert FirstToAnswer(call, j);
  }

  // ---------------------------------------------------------------- many calls

  ghost predicate AllFit(servers: seq<bytes>, calls: seq<Call>) {
    forall k :: 0 <= k < |calls| ==> |calls[k].replies| == |servers|
  }

  ghost function Run(servers: seq<bytes>, calls: seq<Call>): Memory
    requires AllFit(servers, calls)
  {
    if calls == [] then BLANK
    else Discovery(servers, Run(servers, calls[..|calls| - 1]), calls[|calls| - 1]).1
  }

  /** In call `j` server `i` was the one to answer, and no later call got an answer. */
  ghost predicate LatestAnswer(calls: seq<Call>, j: nat, i: nat) {
    && j < |calls| && FirstToAnswer(calls[j], i)
    && forall k, h: nat :: j < k < |calls| ==> !FirstToAnswer(calls[k], h)
  }

  /** The public endpoint is the one reported by the first server to answer in the latest call
      in which any answered. Calls in which none did leave no trace. */
  lemma {:induction false} EndpointIsLatestAnswer(servers: seq<bytes>, calls: seq<Call>, j: nat, i: nat)
    requires AllFit(servers, calls) && LatestAnswer(calls, j, i)
    ensures var m := Run(servers, calls);
      Binding(servers[i], calls[j].replies[i]) == Some(Result(m.publicIP, m.publicPort, servers[i]))
    decreases |calls|
  {
    hide FirstToAnswer, Binding, Judge;
    var before := calls[..|calls| - 1];
    if j == |calls| - 1 {
      OnlyOneIsFirst(calls[j], i);
      AnswerIsBinding(servers, calls[j], i);
    } else {
      EndpointIsLatestAnswer(servers, before, j, i);
    }
  }

  /** After the last call: what changes the memory is the answer of one server, if any. */
  lemma LastCall(servers: seq<bytes>, calls: seq<Call>)
    requires AllFit(servers, calls) && calls != []
    ensures var before := Run(servers, calls[..|calls| - 1]); var last := calls[|calls| - 1];
      match Answering(last)
      case None => Run(servers, calls) == before
      case Some(i) =>
        && i < |servers| && FirstToAnswer(last, i) && Binding(servers[i], last.replies[i]).Some?
        && var r := Binding(servers[i], last.replies[i]).value;
           Run(servers, calls) == Memory(before.results[servers[i] := r], r.ip, r.port,
             if Probes(servers, i) then Judge(r, Binding(servers[1], last.second)) else before.natType)
  {
    hide Binding, Judge;
    var last := calls[|calls| - 1];
    if Answering(last).Some? {
      AnswerIsBinding(servers, last, Answering(last).value);
    }
  }

  lemma AnswerIsBinding(servers: seq<bytes>, call: Call, i: nat)
    requires |call.replies| == |servers| && FirstToAnswer(call, i)
    ensures Binding(servers[i], call.replies[i]).Some?
    ensures Binding(servers[i], call.replies[i]).value.server == servers[i]
  {
    AnyServer(call.replies[i]);
  }

  lemma {:induction false} FailuresChangeNothing(servers: seq<bytes>, calls: seq<Call>, j: nat)
    requires AllFit(servers, calls) && j <= |calls|
    requires forall k :: j <= k < |calls| ==> NobodyAnswers(calls[k])
    ensures Run(servers, calls) == Run(servers, calls[..j])
    decreases |calls|
  {
    hide Answers, Binding, Judge;
    if j < |calls| {
      var before := calls[..|calls| - 1];
      FailuresChangeNothing(servers, before, j);
      assert before[..j] == calls[..j];
      assert Answering(calls[|calls| - 1]).None?;
    } else {
      assert calls[..j] == calls;
    }
  }

  /** In call `j` server `i` answered and the NAT test followed, and in no later call. */
  ghost predicate LatestProbe(servers: seq<bytes>, calls: seq<Call>, j: nat, i: nat) {
    && j < |calls| && i < |servers| && FirstToAnswer(calls[j], i) && Probes(servers, i)
    && NoProbeAfter(servers, calls, j + 1)
  }

  ghost predicate NoProbeAfter(servers: seq<bytes>, calls: seq<Call>, from: nat) {
    forall k, h: nat :: from <= k < |calls| && h < |servers| && FirstToAnswer(calls[k], h) ==> !Probes(servers, h)
  }

  /** The NAT type is the verdict of the latest call in which the first configured server
      answered first and there was a second one to compare with; none before the first such. */
  lemma {:induction false} NatTypeIsLatestVerdict(servers: seq<bytes>, calls: seq<Call>, j: nat, i: nat)
    requires AllFit(servers, calls) && LatestProbe(servers, calls, j, i)
    ensures Binding(servers[i], calls[j].replies[i]).Some?
    ensures Run(servers, calls).natType
         == Judge(Binding(servers[i], calls[j].replies[i]).value, Binding(servers[1], calls[j].second))
    decreases |calls|
  {
    hide FirstToAnswer, Binding, Judge;
    AnswerIsBinding(servers, calls[j], i);
    if j == |calls| - 1 {
      OnlyOneIsFirst(calls[j], i);
    } else {
      LastCall(servers, calls);
      NatTypeIsLatestVerdict(servers, calls[..|calls| - 1], j, i);
    }
  }

  lemma {:induction false} NoProbeNoVerdict(servers: seq<bytes>, calls: seq<Call>)
    requires AllFit(servers, calls) && NoProbeAfter(servers, calls, 0)
    ensures Run(servers, calls).natType == NatNone
    decreases |calls|
  {
    hide FirstToAnswer, Binding, Judge;
    if calls != [] {
      LastCall(servers, calls);
      NoProbeNoVerdict(servers, calls[..|calls| - 1]);
    }
  }

  /** In call `j` server `i`, of this name, answered first, and none of this name in a later call. */
  ghost predicate LatestAnswerBy(servers: seq<bytes>, calls: seq<Call>, name: bytes, j: nat, i: nat) {
    && j < |calls| && i < |servers| && FirstToAnswer(calls[j], i) && servers[i] == name
    && NoAnswerBy(servers, calls, name, j + 1)
  }

  ghost predicate NoAnswerBy(servers: seq<bytes>, calls: seq<Call>, name: bytes, from: nat) {
    forall k, h: nat :: from <= k < |calls| && h < |servers| && FirstToAnswer(calls[k], h) ==> servers[h] != name
  }

  /** The table of results holds, for each server, what it reported in the latest call that it
      was the first to answer, and nothing for servers that never were. */
  lemma {:induction false} ResultsAreLatest(servers: seq<bytes>, calls: seq<Call>, name: bytes)
    requires AllFit(servers, calls)
    ensures forall j: nat, i: nat :: LatestAnswerBy(servers, calls, name, j, i) ==>
      && name in Run(servers, calls).results
      && Binding(name, calls[j].replies[i]) == Some(Run(servers, calls).results[name])
    ensures NoAnswerBy(servers, calls, name, 0) ==> name !in Run(servers, calls).results
    decreases |calls|
  {
    hide FirstToAnswer, Binding, Judge;
    if calls != [] {
      var before := calls[..|calls| - 1];
      var last := calls[|calls| - 1];
      LastCall(servers, calls);
      ResultsAreLatest(servers, before, name);
      forall j: nat, i: nat | LatestAnswerBy(servers, calls, name, j, i)
        ensures name in Run(servers, calls).results
        ensures Binding(name, calls[j].replies[i]) == Some(Run(servers, calls).results[name])
      {
        AnswerIsBinding(servers, calls[j], i);
        if j == |calls| - 1 {
          OnlyOneIsFirst(last, i);
        } else {
          assert LatestAnswerBy(servers, before, name, j, i);
        }
      }
    }
  }
}
