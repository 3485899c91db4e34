/** The earlier pipeline of `dashboard.py`: one request to the DrugBank
    interactions endpoint per pair of the user's drug names, and a record
    for every pair whose reply lists at least one interaction.

    The endpoint is a parameter: a function from the call's position in the
    run and the request to the response. */
module Dashboard {
  import opened Records
  import opened PairOrder
  import opened Runs

  /** The key written into the source in place of a real one. */
  const ApiKey: string := "YOUR_DRUGBANK_API_KEY"

  /** A GET request: the URL and its `Authorization` header. */
  datatype Request = Request(url: string, authorization: string)

  /** The body of a response as `response.json()` reads it: not JSON at all,
      JSON that is not an object, or an object, with the list under the key
      `"interactions"` when the key is present and not `null`. Each entry of
      the list is an interaction's details, a string-valued dictionary. */
  datatype Body = NotJson | NotObject | Object(interactions: Option<seq<map<string, string>>>)

  datatype Response = Response(status: nat, body: Body)

  /** The exceptions that escape the pair loop. */
  datatype Error =
    | InvalidJson  // `response.json()` raises on a 200 response whose body is not JSON
    | NotAnObject  // `data.get` raises on a JSON body that is not an object

  type Api = (nat, Request) -> Response

  /** The request sent for the pair `drug1`, `drug2`. */
  function RequestFor(drug1: string, drug2: string): Request {
    Request("https://api.drugbank.com/v1/interactions?drug1=" + drug1 + "&drug2=" + drug2, "Bearer " + ApiKey)
  }

  /** The first interaction listed for a pair, read from the `call`-th
      response: none when the status is not 200 or the list is missing or
      empty, and an exception when a 200 body is not a JSON object. */
  function FirstListed(api: Api, call: nat, drug1: string, drug2: string): Result<Option<map<string, string>>, Error> {
    var response := api(call, RequestFor(drug1, drug2));
    if response.status != 200 then Success(None)
    else
      match response.body
      case NotJson => Failure(InvalidJson)
      case NotObject => Failure(NotAnObject)
      case Object(listed) =>
        if listed.Some? && |listed.value| > 0 then Success(Some(listed.value[0])) else Success(None)
  }

  /** One turn of the inner loop for pair `p` as the `call`-th request: the
      exception it raises, or the record it appends. */
  function Step(drugs: seq<string>, api: Api, p: Pair, call: nat): Result<Option<Interaction>, Error>
    requires p.0 < |drugs| && p.1 < |drugs|
  {
    match FirstListed(api, call, drugs[p.0], drugs[p.1])
    case Failure(e) => Failure(e)
    case Success(None) => Success(None)
    case Success(Some(details)) => Success(Some(Interaction(drugs[p.0], drugs[p.1], details)))
  }

  /** The turns for the pairs `ps`, the `k`-th of them as the `k`-th request.
      A pair naming a position outside `drugs` is never visited by the loops
      (see `PairOrder.PairsInRange`); it stands for a turn that appends
      nothing. */
  function Steps(drugs: seq<string>, api: Api, ps: seq<Pair>): (r: seq<Result<Option<Interaction>, Error>>)
    ensures |r| == |ps|
  {
    seq(|ps|, k requires 0 <= k < |ps| =>
      if ps[k].0 < |drugs| && ps[k].1 < |drugs| then Step(drugs, api, ps[k], k) else Success(None))
  }

  /** The requests of the first `c` turns of the run, in pair order. */
  function Requests(drugs: seq<string>, c: nat): (sent: seq<Request>)
    requires c <= |Pairs(|drugs|)|
    ensures |sent| == c
  {
    PairsInRange(|drugs|);
    seq(c, k requires 0 <= k < c => RequestFor(drugs[Pairs(|drugs|)[k].0], drugs[Pairs(|drugs|)[k].1]))
  }

  /** One more turn sends the request of the next pair. */
  lemma RequestsNext(drugs: seq<string>, c: nat)
    requires c < |Pairs(|drugs|)|
    ensures Pairs(|drugs|)[c].0 < |drugs| && Pairs(|drugs|)[c].1 < |drugs|
    ensures Requests(drugs, c + 1) == Requests(drugs, c) + [RequestFor(drugs[Pairs(|drugs|)[c].0], drugs[Pairs(|drugs|)[c].1])]
  {
    PairsInRange(|drugs|);
  }

  lemma RequestAt(drugs: seq<string>, c: nat, k: nat)
    requires k < c <= |Pairs(|drugs|)|
    ensures Pairs(|drugs|)[k].0 < |drugs| && Pairs(|drugs|)[k].1 < |drugs|
    ensures Requests(drugs, c)[k] == RequestFor(drugs[Pairs(|drugs|)[k].0], drugs[Pairs(|drugs|)[k].1])
  {
    PairsInRange(|drugs|);
  }

  /** The request for drugs `i < j` sits where `(i, j)` sits in
      lexicographic order: after the requests of every earlier row, and
      after those of the row's earlier partners. */
  predicate RequestOfPairAt(drugs: seq<string>, i: nat, j: nat)
    requires i < j < |drugs|
  {
    var k := RowsBefore(i, |drugs|) + (j - i - 1);
    k < |Pairs(|drugs|)| && Requests(drugs, |Pairs(|drugs|)|)[k] == RequestFor(drugs[i], drugs[j])
  }

  /** All the turns together send `n * (n - 1) / 2` requests for `n`
      drugs: none for one drug or none. */
  lemma RequestsCount(drugs: seq<string>)
    ensures |Requests(drugs, |Pairs(|drugs|)|)| == |drugs| * (|drugs| - 1) / 2
  {
    PairsCount(|drugs|);
  }

  /** Among them, every pair of drugs `i < j` has its request, naming the
      two drugs, at the pair's place in lexicographic order. */
  lemma RequestsPerPair(drugs: seq<string>)
    ensures forall i, j :: 0 <= i < j < |drugs| ==> RequestOfPairAt(drugs, i, j)
  {
    forall i, j | 0 <= i < j < |drugs|
      ensures RequestOfPairAt(drugs, i, j)
    {
      PairAt(|drugs|, i, j);
      RequestAt(drugs, |Pairs(|drugs|)|, RowsBefore(i, |drugs|) + (j - i - 1));
    }
  }

  /** `check_drug_compatibility(drugs)`: the run over every pair, in the
      order of the nested loops. `sent` logs the requests sent: one per
      pair, in pair order, up to and including the turn that raises. */
  method CheckDrugCompatibility(drugs: seq<string>, api: Api)
    returns (r: Result<seq<Interaction>, Error>, ghost sent: seq<Request>)
    ensures r == Run(Steps(drugs, api, Pairs(|drugs|)))
    ensures r.Success? ==> sent == Requests(drugs, |Pairs(|drugs|)|)
    ensures r.Failure? ==>
      0 < |sent| <= |Pairs(|drugs|)| && sent == Requests(drugs, |sent|) &&
      FirstFailureAt(Steps(drugs, api, Pairs(|drugs|)), |sent| - 1)
  {
    var n := |drugs|;
    PairsTotal(n);
    var interactions: seq<Interaction> := [];
    var calls := 0;
    sent := [];
    ghost var all := Steps(drugs, api, Pairs(n));
    var i := 0;
    while i < n
      invariant i <= n && calls == RowsBefore(i, n) && calls <= |Pairs(n)|
      invariant ResumeFrom(interactions, all, calls) == Run(all)
      invariant sent == Requests(drugs, calls)
      invariant SucceedsBefore(all, calls)
    {
      r, calls, sent := CheckRow(drugs, api, i, interactions, calls, sent);
      if r.Failure? {
        return;
      }
      interactions := r.value;
      i := i + 1;
    }
    r := Success(interactions);
  }

  /** The inner loop for drug `i`: its pairs with every later drug, in
      order, continuing a run that has kept `found`, made `calls` turns and
      sent `sentBefore`. */
  method CheckRow(drugs: seq<string>, api: Api, i: nat, found: seq<Interaction>, calls: nat, ghost sentBefore: seq<Request>)
    returns (r: Result<seq<Interaction>, Error>, callsAfter: nat, ghost sent: seq<Request>)
    requires i < |drugs| && calls == RowsBefore(i, |drugs|) && calls <= |Pairs(|drugs|)|
    requires ResumeFrom(found, Steps(drugs, api, Pairs(|drugs|)), calls) == Run(Steps(drugs, api, Pairs(|drugs|)))
    requires sentBefore == Requests(drugs, calls)
    requires SucceedsBefore(Steps(drugs, api, Pairs(|drugs|)), calls)
    ensures r.Failure? ==> r == Run(Steps(drugs, api, Pairs(|drugs|)))
    ensures r.Failure? ==>
      0 < |sent| <= |Pairs(|drugs|)| && sent == Requests(drugs, |sent|) &&
      FirstFailureAt(Steps(drugs, api, Pairs(|drugs|)), |sent| - 1)
    ensures r.Success? ==> callsAfter == RowsBefore(i + 1, |drugs|) && callsAfter <= |Pairs(|drugs|)|
    ensures r.Success? ==> sent == Requests(drugs, callsAfter)
    ensures r.Success? ==> SucceedsBefore(Steps(drugs, api, Pairs(|drugs|)), callsAfter)
    ensures r.Success? ==>
      ResumeFrom(r.value, Steps(drugs, api, Pairs(|drugs|)), callsAfter) == Run(Steps(drugs, api, Pairs(|drugs|)))
  {
    var n := |drugs|;
    ghost var all := Steps(drugs, api, Pairs(n));
    var interactions := found;
    callsAfter := calls;
    sent := sentBefore;
    var j := i + 1;
    while j < n
      invariant i < j <= n && callsAfter == RowsBefore(i, n) + (j - i - 1) && callsAfter <= |all|
      invariant ResumeFrom(interactions, all, callsAfter) == Run(all)
      invariant sent == Requests(drugs, callsAfter)
      invariant SucceedsBefore(all, callsAfter)
    {
      PairAt(n, i, j);
      r, sent := Visit(drugs, api, i, j, interactions, callsAfter, sent);
      if r.Failure? {
        assert |sent| - 1 == callsAfter && FirstFailureAt(all, callsAfter);
        return;
      }
      interactions := r.value;
      callsAfter := callsAfter + 1;
      j := j + 1;
    }
    r := Success(interactions);
  }

  /** One turn of the inner loop: the request for the pair `(i, j)`, the
      `m`-th pair, is sent and logged, and the first listed interaction, if
      any, appended as the pair's record. */
  method Visit(drugs: seq<string>, api: Api, i: nat, j: nat, found: seq<Interaction>, m: nat, ghost sentBefore: seq<Request>)
    returns (r: Result<seq<Interaction>, Error>, ghost sent: seq<Request>)
    requires i < j < |drugs| && m < |Pairs(|drugs|)| && Pairs(|drugs|)[m] == (i, j)
    requires ResumeFrom(found, Steps(drugs, api, Pairs(|drugs|)), m) == Run(Steps(drugs, api, Pairs(|drugs|)))
    requires sentBefore == Requests(drugs, m)
    requires SucceedsBefore(Steps(drugs, api, Pairs(|drugs|)), m)
    ensures sent == Requests(drugs, m + 1)
    ensures r.Failure? ==> r == Run(Steps(drugs, api, Pairs(|drugs|))) && FirstFailureAt(Steps(drugs, api, Pairs(|drugs|)), m)
    ensures r.Success? ==> SucceedsBefore(Steps(drugs, api, Pairs(|drugs|)), m + 1)
    ensures r.Success? ==>
      ResumeFrom(r.value, Steps(drugs, api, Pairs(|drugs|)), m + 1) == Run(Steps(drugs, api, Pairs(|drugs|)))
  {
    var listed, request := CheckPair(drugs[i], drugs[j], api, m);
    Turn(drugs, api, found, i, j, m, listed);
    RequestsNext(drugs, m);
    sent := sentBefore + [request];
    if listed.Failure? {
      r := Failure(listed.error);
      return;
    }
    SucceedsOneMore(Steps(drugs, api, Pairs(|drugs|)), m);
    if listed.value.Some? {
      r := Success(found + [Interaction(drugs[i], drugs[j], listed.value.value)]);
    } else {
      r := Success(found);
    }
  }

  /** The turn of the pair `(i, j)` at position `m` of the run, whose lookup
      gave `listed`: it raises the lookup's exception, or appends the pair's
      record with the first listed details, or appends nothing. */
  lemma Turn(drugs: seq<string>, api: Api, found: seq<Interaction>, i: nat, j: nat, m: nat,
             listed: Result<Option<map<string, string>>, Error>)
    requires i < j < |drugs| && m < |Pairs(|drugs|)| && Pairs(|drugs|)[m] == (i, j)
    requires listed == FirstListed(api, m, drugs[i], drugs[j])
    ensures var all := Steps(drugs, api, Pairs(|drugs|));
      (listed.Failure? ==> all[m].Failure? && ResumeFrom(found, all, m) == Failure(listed.error)) &&
      (listed.Success? ==> all[m].Success?) &&
      (listed.Success? && listed.value.Some? ==>
        ResumeFrom(found, all, m) == ResumeFrom(found + [Interaction(drugs[i], drugs[j], listed.value.value)], all, m + 1)) &&
      (listed.Success? && listed.value.None? ==> ResumeFrom(found, all, m) == ResumeFrom(found, all, m + 1))
  {
    var all := Steps(drugs, api, Pairs(|drugs|));
    assert all[m] == Step(drugs, api, (i, j), m);
  }

  /** The body of the inner loop for one pair, as the `call`-th request:
      build the URL and header, send the request, and read the first listed
      interaction from a 200 response. `sent` is the request as it was
      passed to `api`. */
  method CheckPair(drug1: string, drug2: string, api: Api, call: nat)
    returns (listed: Result<Option<map<string, string>>, Error>, ghost sent: Request)
    ensures sent == RequestFor(drug1, drug2)
    ensures listed == FirstListed(api, call, drug1, drug2)
    ensures listed.Failure? <==> api(call, sent).status == 200 && !api(call, sent).body.Object?
  {
    var url := "https://api.drugbank.com/v1/interactions?drug1=" + drug1 + "&drug2=" + drug2;
    var authorization := "Bearer " + ApiKey;
    var request := Request(url, authorization);
    sent := request;
    var response := api(call, request);
    listed := Success(None);
    if response.status == 200 {
      match response.body {
        case NotJson =>
          listed := Failure(InvalidJson);
        case NotObject =>
          listed := Failure(NotAnObject);
        case Object(interactions) =>
          if interactions.Some? && |interactions.value| > 0 {
            listed := Success(Some(interactions.value[0]));
          }
      }
    }
  }

  /** The response a pair's turn reads: the 200 response to its request
      lists `details` first. */
  predicate ListsFirst(api: Api, drugs: seq<string>, p: Pair, call: nat, details: map<string, string>)
    requires p.0 < |drugs| && p.1 < |drugs|
  {
    var response := api(call, RequestFor(drugs[p.0], drugs[p.1]));
    response.status == 200 && response.body.Object? && response.body.interactions.Some? &&
    |response.body.interactions.value| > 0 && response.body.interactions.value[0] == details
  }

  /** A completed run keeps a record for exactly the pairs whose response
      has status 200 and a non-empty interaction list, each naming the
      pair's two drugs with the first listed interaction's details. */
  lemma RecordsAreListed(drugs: seq<string>, api: Api, ps: seq<Pair>, x: Interaction)
    requires InRange(ps, |drugs|) && Run(Steps(drugs, api, ps)).Success?
    ensures x in Run(Steps(drugs, api, ps)).value <==>
      exists k :: 0 <= k < |ps| && x.drug1 == drugs[ps[k].0] && x.drug2 == drugs[ps[k].1] &&
        ListsFirst(api, drugs, ps[k], k, x.details)
  {
    var steps := Steps(drugs, api, ps);
    RunKeeps(steps);
    KeptMembers(steps, x);
    forall k | 0 <= k < |ps|
      ensures steps[k] == Success(Some(x)) <==>
        x.drug1 == drugs[ps[k].0] && x.drug2 == drugs[ps[k].1] && ListsFirst(api, drugs, ps[k], k, x.details)
    {
      assert steps[k] == Step(drugs, api, ps[k], k);
    }
  }

  /** The run raises exactly when some pair's response has status 200 and a
      body that is not a JSON object; every other response is skipped or
      kept, never an error. */
  lemma FailsOnlyOnBadBody(drugs: seq<string>, api: Api, ps: seq<Pair>)
    requires InRange(ps, |drugs|)
    ensures Run(Steps(drugs, api, ps)).Failure? <==>
      exists k :: 0 <= k < |ps| &&
        api(k, RequestFor(drugs[ps[k].0], drugs[ps[k].1])).status == 200 &&
        !api(k, RequestFor(drugs[ps[k].0], drugs[ps[k].1])).body.Object?
  {
    var steps := Steps(drugs, api, ps);
    RunSucceedsExactly(steps);
    forall k | 0 <= k < |ps|
      ensures steps[k].Failure? <==>
        api(k, RequestFor(drugs[ps[k].0], drugs[ps[k].1])).status == 200 &&
        !api(k, RequestFor(drugs[ps[k].0], drugs[ps[k].1])).body.Object?
    {
      assert steps[k] == Step(drugs, api, ps[k], k);
    }
  }

  /** With fewer than two drugs there is no request and no record; when no
      response has status 200, the run completes with no record. */
  lemma NothingToKeep(drugs: seq<string>, api: Api)
    ensures |drugs| <= 1 ==> Pairs(|drugs|) == [] && Run(Steps(drugs, api, Pairs(|drugs|))) == Success([])
    ensures (forall k, r :: api(k, r).status != 200) ==> Run(Steps(drugs, api, Pairs(|drugs|))) == Success([])
  {
    PairsCount(|drugs|);
    PairsInRange(|drugs|);
    var steps := Steps(drugs, api, Pairs(|drugs|));
    if forall k, r :: api(k, r).status != 200 {
      forall k | 0 <= k < |steps|
        ensures steps[k] == Success(None)
      {
      }
      RunSucceedsExactly(steps);
      RunKeeps(steps);
      KeptNone(steps);
    }
  }
}
