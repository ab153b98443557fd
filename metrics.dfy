/** Request metrics: a per-method request counter, a per-method in-flight
    gauge, and a per-(method, status) duration histogram, of which only the
    number of samples is modelled. The exporter and its text encoding are
    library code outside this model; the metrics listener's router is modelled
    with the rendered text as a parameter. */
module RequestMetrics {
  import opened Octets
  import opened Http

  type Method = string

  /** An HTTP status code as the recorder receives it: a 16-bit unsigned value. */
  type StatusCode = s: int | 0 <= s < 0x1_0000

  /** The value of a counter series; a series never recorded reads as 0. */
  function CountOf<K>(m: map<K, nat>, k: K): nat {
    if k in m then m[k] else 0
  }

  /** The value of a gauge series; a series never recorded reads as 0. */
  function GaugeOf(m: map<Method, int>, k: Method): int {
    if k in m then m[k] else 0
  }

  /** Everything the recorder holds, as a value. */
  datatype Snapshot = Snapshot(
    requestsTotal: map<Method, nat>,
    requestsInFlight: map<Method, int>,
    durationSamples: map<(Method, StatusCode), nat>)

  /** The recorder right after construction: no series at all. */
  const Fresh: Snapshot := Snapshot(map[], map[], map[])

  /** The effect of recording the start of a request. */
  function WithRequest(s: Snapshot, httpMethod: Method): Snapshot {
    s.(requestsTotal := s.requestsTotal[httpMethod := CountOf(s.requestsTotal, httpMethod) + 1],
       requestsInFlight := s.requestsInFlight[httpMethod := GaugeOf(s.requestsInFlight, httpMethod) + 1])
  }

  /** The effect of recording a response: one more duration sample under
      (method, status), one fewer request in flight for the method. */
  function WithResponse(s: Snapshot, httpMethod: Method, status: StatusCode): Snapshot {
    s.(durationSamples := s.durationSamples[(httpMethod, status) :=
                            CountOf(s.durationSamples, (httpMethod, status)) + 1],
       requestsInFlight := s.requestsInFlight[httpMethod := GaugeOf(s.requestsInFlight, httpMethod) - 1])
  }

  /** The recorder as the source's struct: three maps updated in place. */
  class Metrics {
    var requestsTotal: map<Method, nat>
    var requestsInFlight: map<Method, int>
    var durationSamples: map<(Method, StatusCode), nat>

    function Current(): Snapshot
      reads this
    {
      Snapshot(requestsTotal, requestsInFlight, durationSamples)
    }

    constructor ()
      ensures Current() == Fresh
    {
      requestsTotal := map[];
      requestsInFlight := map[];
      durationSamples := map[];
    }

    method RecordRequest(httpMethod: Method)
      modifies this
      ensures Current() == WithRequest(old(Current()), httpMethod)
      ensures CountOf(requestsTotal, httpMethod) == old(CountOf(requestsTotal, httpMethod)) + 1
      ensures GaugeOf(requestsInFlight, httpMethod) == old(GaugeOf(requestsInFlight, httpMethod)) + 1
      ensures forall m :: m != httpMethod ==>
                && CountOf(requestsTotal, m) == old(CountOf(requestsTotal, m))
                && GaugeOf(requestsInFlight, m) == old(GaugeOf(requestsInFlight, m))
      ensures durationSamples == old(durationSamples)
    {
      requestsTotal := requestsTotal[httpMethod := CountOf(requestsTotal, httpMethod) + 1];
      requestsInFlight := requestsInFlight[httpMethod := GaugeOf(requestsInFlight, httpMethod) + 1];
    }

    method RecordResponse(httpMethod: Method, status: StatusCode)
      modifies this
      ensures Current() == WithResponse(old(Current()), httpMethod, status)
      ensures CountOf(durationSamples, (httpMethod, status))
              == old(CountOf(durationSamples, (httpMethod, status))) + 1
      ensures forall k :: k != (httpMethod, status) ==>
                CountOf(durationSamples, k) == CountOf(old(durationSamples), k)
      ensures GaugeOf(requestsInFlight, httpMethod) == old(GaugeOf(requestsInFlight, httpMethod)) - 1
      ensures forall m :: m != httpMethod ==>
                GaugeOf(requestsInFlight, m) == old(GaugeOf(requestsInFlight, m))
      ensures requestsTotal == old(requestsTotal)
    {
      durationSamples := durationSamples[(httpMethod, status) :=
                           CountOf(durationSamples, (httpMethod, status)) + 1];
      requestsInFlight := requestsInFlight[httpMethod := GaugeOf(requestsInFlight, httpMethod) - 1];
    }
  }

  /** The recording test: five GET requests answered 200, then three POST
      requests answered 404, each recorded as a request/response pair. */
  method MetricsRecordingScenario() returns (metrics: Metrics)
    ensures metrics.requestsTotal.Keys == {"GET", "POST"}
    ensures CountOf(metrics.requestsTotal, "GET") == 5 && CountOf(metrics.requestsTotal, "POST") == 3
    ensures forall m :: m in metrics.requestsInFlight ==> metrics.requestsInFlight[m] == 0
    ensures CountOf(metrics.durationSamples, ("GET", 200)) == 5
    ensures CountOf(metrics.durationSamples, ("POST", 404)) == 3
  {
    metrics := new Metrics();
    for i := 0 to 5
      invariant metrics.requestsTotal.Keys == metrics.requestsInFlight.Keys == if i == 0 then {} else {"GET"}
      invariant CountOf(metrics.requestsTotal, "GET") == i
      invariant forall m :: m in metrics.requestsInFlight ==> metrics.requestsInFlight[m] == 0
      invariant CountOf(metrics.durationSamples, ("GET", 200)) == i
      invariant CountOf(metrics.durationSamples, ("POST", 404)) == 0
    {
      metrics.RecordRequest("GET");
      metrics.RecordResponse("GET", 200);
    }
    for i := 0 to 3
      invariant metrics.requestsTotal.Keys == metrics.requestsInFlight.Keys
                == if i == 0 then {"GET"} else {"GET", "POST"}
      invariant CountOf(metrics.requestsTotal, "GET") == 5 && CountOf(metrics.requestsTotal, "POST") == i
      invariant forall m :: m in metrics.requestsInFlight ==> metrics.requestsInFlight[m] == 0
      invariant CountOf(metrics.durationSamples, ("GET", 200)) == 5
      invariant CountOf(metrics.durationSamples, ("POST", 404)) == i
    {
      metrics.RecordRequest("POST");
      metrics.RecordResponse("POST", 404);
    }
  }

  // ---------------------------------------------------------------------------
  // Any sequence of recorder calls, in any interleaving

  datatype Event = RequestStarted(httpMethod: Method) | ResponseSent(httpMethod: Method, status: StatusCode)

  function Apply(s: Snapshot, e: Event): Snapshot {
    match e
    case RequestStarted(m) => WithRequest(s, m)
    case ResponseSent(m, status) => WithResponse(s, m, status)
  }

  /** The recorder after the calls `events`, in that order, starting from `s`. */
  function Replay(s: Snapshot, events: seq<Event>): Snapshot
    decreases |events|
  {
    if events == [] then s else Replay(Apply(s, events[0]), events[1..])
  }

  /** Number of request calls for `m` in `events`. */
  function Requests(events: seq<Event>, m: Method): nat {
    if events == [] then 0
    else (if events[0] == RequestStarted(m) then 1 else 0) + Requests(events[1..], m)
  }

  /** Number of response calls for `m`, whatever their status. */
  function Responses(events: seq<Event>, m: Method): nat {
    if events == [] then 0
    else (if events[0].ResponseSent? && events[0].httpMethod == m then 1 else 0) + Responses(events[1..], m)
  }

  /** Number of response calls for `m` with `status`. */
  function Samples(events: seq<Event>, m: Method, status: StatusCode): nat {
    if events == [] then 0
    else (if events[0] == ResponseSent(m, status) then 1 else 0) + Samples(events[1..], m, status)
  }

  function AllRequests(events: seq<Event>): nat {
    if events == [] then 0 else (if events[0].RequestStarted? then 1 else 0) + AllRequests(events[1..])
  }

  function AllResponses(events: seq<Event>): nat {
    if events == [] then 0 else (if events[0].ResponseSent? then 1 else 0) + AllResponses(events[1..])
  }

  /** Each series ends at its start value plus what the calls added: the
      request counter by the requests for its method, the gauge by requests
      minus responses, the histogram by the responses with its status. */
  lemma {:induction false} ReplayCounts(s: Snapshot, events: seq<Event>, m: Method, status: StatusCode)
    ensures var t := Replay(s, events);
      && CountOf(t.requestsTotal, m) == CountOf(s.requestsTotal, m) + Requests(events, m)
      && GaugeOf(t.requestsInFlight, m)
         == GaugeOf(s.requestsInFlight, m) + Requests(events, m) - Responses(events, m)
      && CountOf(t.durationSamples, (m, status))
         == CountOf(s.durationSamples, (m, status)) + Samples(events, m, status)
    decreases |events|
  {
    if events != [] {
      ReplayCounts(Apply(s, events[0]), events[1..], m, status);
    }
  }

  /** Sum of all series of a gauge or counter. */
  ghost function Sum(m: map<Method, int>): int
    decreases |m|
  {
    if m == map[] then 0
    else
      var k :| k in m;
      m[k] + Sum(m - {k})
  }

  lemma {:induction false} SumRemove(m: map<Method, int>, k: Method)
    requires k in m
    ensures Sum(m) == m[k] + Sum(m - {k})
    decreases |m|
  {
    var j :| j in m && Sum(m) == m[j] + Sum(m - {j});
    if j != k {
      SumRemove(m - {j}, k);
      SumRemove(m - {k}, j);
      assert m - {j} - {k} == m - {k} - {j};
    }
  }

  lemma SumUpdate(m: map<Method, int>, k: Method, v: int)
    ensures Sum(m[k := v]) == Sum(m) - GaugeOf(m, k) + v
  {
    var u := m[k := v];
    SumRemove(u, k);
    assert u - {k} == m - {k};
    if k in m {
      SumRemove(m, k);
    } else {
      assert m - {k} == m;
    }
  }

  lemma {:induction false} SumOfZeros(m: map<Method, int>)
    requires forall k :: k in m ==> m[k] == 0
    ensures Sum(m) == 0
    decreases |m|
  {
    if m != map[] {
      var k :| k in m;
      SumRemove(m, k);
      SumOfZeros(m - {k});
    }
  }

  /** Summed over methods, the request counter grows by the number of request
      calls and the in-flight gauge by requests minus responses. */
  lemma {:induction false} ReplaySums(s: Snapshot, events: seq<Event>)
    ensures Sum(Replay(s, events).requestsTotal) == Sum(s.requestsTotal) + AllRequests(events)
    ensures Sum(Replay(s, events).requestsInFlight)
            == Sum(s.requestsInFlight) + AllRequests(events) - AllResponses(events)
    decreases |events|
  {
    if events != [] {
      var e := events[0];
      var s' := Apply(s, e);
      ReplaySums(s', events[1..]);
      match e
      case RequestStarted(m) =>
        SumUpdate(s.requestsTotal, m, CountOf(s.requestsTotal, m) + 1);
        SumUpdate(s.requestsInFlight, m, GaugeOf(s.requestsInFlight, m) + 1);
      case ResponseSent(m, status) =>
        SumUpdate(s.requestsInFlight, m, GaugeOf(s.requestsInFlight, m) - 1);
    }
  }

  /** Every request call is matched by a response call for the same method. */
  ghost predicate Balanced(events: seq<Event>) {
    forall m :: Requests(events, m) == Responses(events, m)
  }

  /** From a fresh recorder, any balanced run of calls, in any interleaving,
      counts every request once and leaves every in-flight gauge, and their
      sum, at zero. */
  lemma BalancedCallsDrainInFlight(events: seq<Event>)
    requires Balanced(events)
    ensures var t := Replay(Fresh, events);
      && Sum(t.requestsTotal) == AllRequests(events)
      && (forall m :: GaugeOf(t.requestsInFlight, m) == 0)
      && Sum(t.requestsInFlight) == 0
  {
    var t := Replay(Fresh, events);
    ReplaySums(Fresh, events);
    forall m ensures GaugeOf(t.requestsInFlight, m) == 0 {
      ReplayCounts(Fresh, events, m, 0);
    }
    forall k | k in t.requestsInFlight ensures t.requestsInFlight[k] == 0 {
      assert GaugeOf(t.requestsInFlight, k) == 0;
    }
    SumOfZeros(t.requestsInFlight);
  }

  lemma {:induction false} ReplayAppend(s: Snapshot, a: seq<Event>, b: seq<Event>)
    ensures Replay(s, a + b) == Replay(Replay(s, a), b)
    decreases |a|
  {
    if a == [] {
      assert a + b == b;
    } else {
      assert (a + b)[0] == a[0] && (a + b)[1..] == a[1..] + b;
      ReplayAppend(Apply(s, a[0]), a[1..], b);
    }
  }

  lemma RequestsCommute(s: Snapshot, m1: Method, m2: Method)
    ensures WithRequest(WithRequest(s, m1), m2) == WithRequest(WithRequest(s, m2), m1)
  {
    if m1 != m2 {
      var t: map<Method, nat>, g: map<Method, int> := s.requestsTotal, s.requestsInFlight;
      var t1: nat, t2: nat := CountOf(t, m1) + 1, CountOf(t, m2) + 1;
      var g1: int, g2: int := GaugeOf(g, m1) + 1, GaugeOf(g, m2) + 1;
      assert CountOf(t[m1 := t1], m2) == CountOf(t, m2) && CountOf(t[m2 := t2], m1) == CountOf(t, m1);
      assert GaugeOf(g[m1 := g1], m2) == GaugeOf(g, m2) && GaugeOf(g[m2 := g2], m1) == GaugeOf(g, m1);
      assert t[m1 := t1][m2 := t2] == t[m2 := t2][m1 := t1];
      assert g[m1 := g1][m2 := g2] == g[m2 := g2][m1 := g1];
    }
  }

  lemma ResponsesCommute(s: Snapshot, m1: Method, c1: StatusCode, m2: Method, c2: StatusCode)
    ensures WithResponse(WithResponse(s, m1, c1), m2, c2) == WithResponse(WithResponse(s, m2, c2), m1, c1)
  {
    var a, b := WithResponse(WithResponse(s, m1, c1), m2, c2), WithResponse(WithResponse(s, m2, c2), m1, c1);
    if (m1, c1) != (m2, c2) {
      assert a.durationSamples == b.durationSamples;
    }
    if m1 != m2 {
      assert a.requestsInFlight == b.requestsInFlight;
    }
  }

  lemma RequestResponseCommute(s: Snapshot, m1: Method, m2: Method, c2: StatusCode)
    ensures WithResponse(WithRequest(s, m1), m2, c2) == WithRequest(WithResponse(s, m2, c2), m1)
  {
    var a, b := WithResponse(WithRequest(s, m1), m2, c2), WithRequest(WithResponse(s, m2, c2), m1);
    if m1 != m2 {
      assert a.requestsInFlight == b.requestsInFlight;
    }
  }

  /** Any two recorder calls commute. */
  lemma ApplyCommutes(s: Snapshot, e1: Event, e2: Event)
    ensures Apply(Apply(s, e1), e2) == Apply(Apply(s, e2), e1)
  {
    match (e1, e2)
    case (RequestStarted(m1), RequestStarted(m2)) => RequestsCommute(s, m1, m2);
    case (ResponseSent(m1, c1), ResponseSent(m2, c2)) => ResponsesCommute(s, m1, c1, m2, c2);
    case (RequestStarted(m1), ResponseSent(m2, c2)) => RequestResponseCommute(s, m1, m2, c2);
    case (ResponseSent(m1, c1), RequestStarted(m2)) => RequestResponseCommute(s, m2, m1, c1);
  }

  /** Swapping two neighbouring calls does not change the final state. */
  lemma ReplaySwap(s: Snapshot, before: seq<Event>, e1: Event, e2: Event, after: seq<Event>)
    ensures Replay(s, before + [e1, e2] + after) == Replay(s, before + [e2, e1] + after)
  {
    var mid := Replay(s, before);
    ReplayAppend(s, before + [e1, e2], after);
    ReplayAppend(s, before, [e1, e2]);
    ReplayAppend(s, before + [e2, e1], after);
    ReplayAppend(s, before, [e2, e1]);
    assert [e1, e2][1..] == [e2] && [e2, e1][1..] == [e1];
    assert Replay(mid, [e1, e2]) == Replay(Apply(mid, e1), [e2]) == Apply(Apply(mid, e1), e2);
    assert Replay(mid, [e2, e1]) == Replay(Apply(mid, e2), [e1]) == Apply(Apply(mid, e2), e1);
    ApplyCommutes(mid, e1, e2);
  }

  /** A call anywhere in a run has the same effect as making it first. */
  lemma {:induction false} MoveToFront(s: Snapshot, prefix: seq<Event>, e: Event, suffix: seq<Event>)
    ensures Replay(s, prefix + [e] + suffix) == Replay(Apply(s, e), prefix + suffix)
    decreases |prefix|
  {
    if prefix == [] {
      assert prefix + [e] + suffix == [e] + suffix;
      assert prefix + suffix == suffix;
    } else {
      var x := prefix[0];
      assert (prefix + [e] + suffix)[1..] == prefix[1..] + [e] + suffix;
      assert (prefix + suffix)[1..] == prefix[1..] + suffix;
      MoveToFront(Apply(s, x), prefix[1..], e, suffix);
      ApplyCommutes(s, x, e);
    }
  }

  /** Every interleaving of the same calls ends in the same state: the final
      state depends only on the multiset of calls made. */
  lemma {:induction false} ReplayPermutation(s: Snapshot, a: seq<Event>, b: seq<Event>)
    requires multiset(a) == multiset(b)
    ensures Replay(s, a) == Replay(s, b)
    decreases |a|
  {
    if a == [] {
      assert |b| == |multiset(b)| == 0;
    } else {
      var e := a[0];
      assert e in multiset(b);
      var j :| 0 <= j < |b| && b[j] == e;
      var rest := b[..j] + b[j + 1..];
      assert b == b[..j] + [e] + b[j + 1..];
      assert a == [e] + a[1..];
      calc {
        multiset(a[1..]) + multiset{e};
        multiset(a);
        multiset(b);
        multiset(b[..j]) + multiset{e} + multiset(b[j + 1..]);
        multiset(rest) + multiset{e};
      }
      var ma, mr := multiset(a[1..]), multiset(rest);
      assert forall x :: ma[x] == (ma + multiset{e})[x] - multiset{e}[x] == (mr + multiset{e})[x] - multiset{e}[x] == mr[x];
      assert ma == mr;
      ReplayPermutation(Apply(s, e), a[1..], rest);
      MoveToFront(s, b[..j], e, b[j + 1..]);
    }
  }

  // ---------------------------------------------------------------------------
  // The metrics listener's router

  const METRICS_PATH: string := "/metrics"
  const TEXT_PLAIN: Bytes := FromAscii("text/plain")
  const NOT_FOUND_BODY: Bytes := FromAscii("Not Found")

  /** `/metrics` answers 200 with the rendered exposition text as plain text;
      every other path answers 404 `Not Found`. */
  function MetricsHandler(req: Request, exposition: Bytes): (r: Response)
    ensures r.status == OK <==> req.path == METRICS_PATH
    ensures r.status == OK ==>
              GetHeader(r.headers, "content-type") == Some(TEXT_PLAIN) && r.body == exposition
    ensures r.status != OK ==>
              r.status == NOT_FOUND && r.headers == [] && r.body == NOT_FOUND_BODY
  {
    if req.path == METRICS_PATH then Response(OK, [Header("content-type", TEXT_PLAIN)], exposition)
    else Response(NOT_FOUND, [], NOT_FOUND_BODY)
  }
}
