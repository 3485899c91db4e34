/** The interaction pipeline of `ai_integration_code.py`: one prompt to the
    text-generation service per pair of the user's medications, the verdict
    read from its answer, a record for every pair flagged as a conflict, and
    the network graph drawn from those records.

    The service is a parameter: a function from the call's position in the
    run and the request body to the reply, so it may answer the same prompt
    differently on different calls. */
module AiIntegration {
  import opened Records
  import opened Text
  import opened Verdicts
  import opened PairOrder
  import opened Runs

  /** The JSON body posted to the service. The prompt is carried as the
      template of `check_drug_interaction` filled in with the two drug
      names; its `Text()` is the exact string that is sent. */
  datatype Payload = Payload(prompt: Prompt, maxTokens: int, temperature: real)

  /** What `requests.post` returns: the status code, the body as text, and
      the string under the key `"response"` of the JSON body, when the body
      is a JSON object that has one. */
  datatype Reply = Reply(status: nat, text: string, response: Option<string>)

  /** The exceptions that escape the pipeline. */
  datatype Error =
    | MissingResponse      // `response.json()["response"]` fails on a 200 reply: not JSON, or no such key
    | PatientInfoTooShort  // `patient_info[k]` raises IndexError for some k < 6

  type Service = (nat, Payload) -> Reply

  /** The text returned in place of an answer when the status is not 200. */
  function ErrorText(status: nat, body: string): string {
    "Error: " + Decimal(status) + ", " + body
  }

  /** `get_model_response(prompt, max_tokens, temperature)` as the `call`-th
      request of the run. */
  function GetModelResponse(service: Service, call: nat, prompt: Prompt, maxTokens: int, temperature: real): Result<string, Error> {
    var reply := service(call, Payload(prompt, maxTokens, temperature));
    if reply.status == 200 then
      match reply.response
      case Some(text) => Success(text)
      case None => Failure(MissingResponse)
    else Success(ErrorText(reply.status, reply.text))
  }

  /** `get_model_response` as the step of a run that posts: it sends
      `payload` as the `call`-th request and logs exactly that payload. The
      only exception is a 200 reply without `"response"`; any other status
      comes back as the error text. */
  method PostPayload(service: Service, call: nat, payload: Payload)
    returns (answer: Result<string, Error>, ghost posted: seq<Payload>)
    ensures posted == [payload]
    ensures answer == GetModelResponse(service, call, payload.prompt, payload.maxTokens, payload.temperature)
    ensures answer.Failure? <==> service(call, payload).status == 200 && service(call, payload).response.None?
    ensures service(call, payload).status != 200 ==>
      answer == Success(ErrorText(service(call, payload).status, service(call, payload).text))
  {
    var reply := service(call, payload);
    posted := [payload];
    if reply.status == 200 {
      match reply.response {
        case Some(text) =>
          answer := Success(text);
        case None =>
          answer := Failure(MissingResponse);
      }
    } else {
      answer := Success(ErrorText(reply.status, reply.text));
    }
  }

  /** The prompt of `check_drug_interaction`; it names the two drugs and
      nothing else of the request. */
  datatype Prompt = Prompt(drug1: string, drug2: string) {
    /** The text of the prompt. */
    function Text(): string {
      PromptHead + drug1 + PromptMiddle + drug2 + PromptTail
    }
  }

  const PromptHead: string :=
    "\n    You are a medical AI that checks drug interactions. \n"
    + "    Please only output either \"+1\" if the drugs are safe together or \"-1\" if there is a conflict.\n"
    + "    Do not provide any other text.\n\n"
    + "    Drug 1: "

  const PromptMiddle: string := "\n    Drug 2: "

  const PromptTail: string :=
    "\n\n    MAKE SURE YOUR OUTPUT CONTAINS A \"+1\" if there is no conflict OR \"-1\" if there is a conflict or if one or two of the drugs are unsafe.\n"
    + "    "

  /** The request `check_drug_interaction` sends for a pair. */
  function InteractionPayload(drug1: string, drug2: string): Payload {
    Payload(Prompt(drug1, drug2), 200, 0.3)
  }

  /** `check_drug_interaction` as the `call`-th request of the run. The
      patient line is formatted, and its six fields indexed, before the
      request is sent; the line itself is never used. */
  function CheckDrugInteraction(drug1: string, dosage1: string, drug2: string, dosage2: string,
                                patientInfo: seq<string>, service: Service, call: nat): Result<Verdict, Error> {
    if |patientInfo| < 6 then Failure(PatientInfoTooShort)
    else
      match GetModelResponse(service, call, Prompt(drug1, drug2), 200, 0.3)
      case Failure(e) => Failure(e)
      case Success(text) => Success(ParseVerdict(text))
  }

  /** A reply other than 200 raises nothing: its status and body become the
      text that the verdict parser reads. */
  lemma ErrorReplyIsParsed(drug1: string, dosage1: string, drug2: string, dosage2: string,
                           patientInfo: seq<string>, service: Service, call: nat)
    requires |patientInfo| >= 6
    requires service(call, InteractionPayload(drug1, drug2)).status != 200
    ensures var reply := service(call, InteractionPayload(drug1, drug2));
      CheckDrugInteraction(drug1, dosage1, drug2, dosage2, patientInfo, service, call)
        == Success(ParseVerdict(ErrorText(reply.status, reply.text)))
  {
  }

  /** An error reply with an empty body, for any status of two or more
      digits, reads as `"0"`: nothing in `"Error: NNN, "` is a marker, a
      warning or a standalone `1`. */
  lemma {:induction false} EmptyErrorIsUnknown(status: nat)
    requires status >= 10
    ensures ParseVerdict(ErrorText(status, "")) == Unknown
  {
    var digits := Decimal(status);
    var text := ErrorText(status, "");
    assert text == "Error: " + digits + ", ";
    forall c | c in text
      ensures c == 'E' || c == 'r' || c == 'o' || c == ':' || c == ' ' || c == ',' || IsDigit(c)
    {
    }
    NoProseLetters(text);
    MissingCharNeverContains(text, "-1", '-');
    SqueezedErrorText(digits);
    DigitsHaveNoStandaloneOne(digits);
    UnknownExactly(text);
  }

  lemma SqueezedErrorText(digits: string)
    requires forall i :: 0 <= i < |digits| ==> IsDigit(digits[i])
    ensures Squeeze("Error: " + digits + ", ") == "Error:" + digits + ","
  {
    SqueezeAppend("Error: " + digits, ", ");
    SqueezeAppend("Error: ", digits);
    SqueezeUnspaced(digits);
    ErrorTextPieces();
    SqueezeTrailingSpace("Error:");
    SqueezeTrailingSpace(",");
  }

  /** The two spaced pieces of the error text. */
  lemma ErrorTextPieces()
    ensures "Error: " == "Error:" + " " && ", " == "," + " "
  {
  }

  /** A run of two or more digits between non-digits has no standalone `1`. */
  lemma DigitsHaveNoStandaloneOne(digits: string)
    requires |digits| >= 2 && forall i :: 0 <= i < |digits| ==> IsDigit(digits[i])
    ensures !HasStandaloneOne("Error:" + digits + ",")
  {
    var s := "Error:" + digits + ",";
    forall i: nat | i < |s|
      ensures !StandaloneOneAt(s, i)
    {
      if 6 <= i < 6 + |digits| {
        if i + 1 < 6 + |digits| {
          assert s[i + 1] == digits[i + 1 - 6];
        } else {
          assert s[i - 1] == digits[i - 1 - 6];
        }
      }
    }
  }

  /** A reply other than 200 whose body says "conflict" anywhere (at `k`)
      flags the pair, although no answer was obtained: the error text is
      read as prose. */
  lemma ErrorBodyCanFlag(drug1: string, dosage1: string, drug2: string, dosage2: string,
                         patientInfo: seq<string>, service: Service, call: nat, k: nat)
    requires |patientInfo| >= 6
    requires service(call, InteractionPayload(drug1, drug2)).status != 200
    requires k + 8 <= |service(call, InteractionPayload(drug1, drug2)).text|
    requires service(call, InteractionPayload(drug1, drug2)).text[k..k + 8] == "conflict"
    ensures CheckDrugInteraction(drug1, dosage1, drug2, dosage2, patientInfo, service, call) == Success(Conflict)
  {
    var reply := service(call, InteractionPayload(drug1, drug2));
    var head := "Error: " + Decimal(reply.status) + ", ";
    var text := ErrorText(reply.status, reply.text);
    assert text == head + reply.text;
    assert text[|head| + k..|head| + k + 8] == reply.text[k..k + 8];
    ContainsAt(text, "conflict", |head| + k);
    ProseWarningWins(text);
  }

  /** The prompt names both drugs. */
  lemma PromptNamesBothDrugs(drug1: string, drug2: string)
    ensures Contains(Prompt(drug1, drug2).Text(), drug1)
    ensures Contains(Prompt(drug1, drug2).Text(), drug2)
  {
    var p := Prompt(drug1, drug2).Text();
    var at2 := |PromptHead| + |drug1| + |PromptMiddle|;
    assert p[|PromptHead|..|PromptHead| + |drug1|] == drug1;
    ContainsAt(p, drug1, |PromptHead|);
    assert p[at2..at2 + |drug2|] == drug2;
    ContainsAt(p, drug2, at2);
  }

  /** The dosages and the patient's profile never reach the service: once the
      profile has its six fields, the verdict depends on the two names only. */
  lemma VerdictIgnoresDosageAndProfile(drug1: string, drug2: string, dosage1: string, dosage2: string,
                                       otherDosage1: string, otherDosage2: string,
                                       patientInfo: seq<string>, otherInfo: seq<string>,
                                       service: Service, call: nat)
    requires |patientInfo| >= 6 && |otherInfo| >= 6
    ensures CheckDrugInteraction(drug1, dosage1, drug2, dosage2, patientInfo, service, call)
         == CheckDrugInteraction(drug1, otherDosage1, drug2, otherDosage2, otherInfo, service, call)
  {
  }

  datatype Medication = Medication(name: string, dosage: string)

  /** The details of every record the pair loop produces. */
  const ConflictDetails: map<string, string> :=
    map["severity" := "high", "description" := "Potential conflict detected"]

  /** The record kept for a flagged pair. */
  function RecordFor(drugs: seq<Medication>, p: Pair): Interaction
    requires p.0 < |drugs| && p.1 < |drugs|
  {
    Interaction(drugs[p.0].name, drugs[p.1].name, ConflictDetails)
  }

  /** The verdict for pair `p` as the `call`-th request. */
  function PairVerdict(drugs: seq<Medication>, patientInfo: seq<string>, service: Service, p: Pair, call: nat): Result<Verdict, Error>
    requires p.0 < |drugs| && p.1 < |drugs|
  {
    CheckDrugInteraction(drugs[p.0].name, drugs[p.0].dosage, drugs[p.1].name, drugs[p.1].dosage, patientInfo, service, call)
  }

  /** One turn of the inner loop for pair `p` as the `call`-th request: the
      exception it raises, or the record it appends when the answer reads as
      a conflict. */
  function Step(drugs: seq<Medication>, patientInfo: seq<string>, service: Service, p: Pair, call: nat): Result<Option<Interaction>, Error>
    requires p.0 < |drugs| && p.1 < |drugs|
  {
    match PairVerdict(drugs, patientInfo, service, p, call)
    case Failure(e) => Failure(e)
    case Success(v) => Success(if v == Conflict then Some(RecordFor(drugs, p)) else None)
  }

  /** The turns for the pairs `ps`, the `k`-th of them as the `k`-th request.
      A pair naming a position outside `drugs` is never visited by the loops
      (see `PairOrder.PairsInRange`); it stands for a turn that appends
      nothing. */
  function Steps(drugs: seq<Medication>, patientInfo: seq<string>, service: Service, ps: seq<Pair>): (r: seq<Result<Option<Interaction>, Error>>)
    ensures |r| == |ps|
  {
    seq(|ps|, k requires 0 <= k < |ps| =>
      if ps[k].0 < |drugs| && ps[k].1 < |drugs| then Step(drugs, patientInfo, service, ps[k], k) else Success(None))
  }

  /** The requests of the first `c` turns of the run, in pair order. */
  function Requests(drugs: seq<Medication>, c: nat): (sent: seq<Payload>)
    requires c <= |Pairs(|drugs|)|
    ensures |sent| == c
  {
    PairsInRange(|drugs|);
    seq(c, k requires 0 <= k < c =>
      InteractionPayload(drugs[Pairs(|drugs|)[k].0].name, drugs[Pairs(|drugs|)[k].1].name))
  }

  /** One more turn posts the request of the next pair. */
  lemma RequestsNext(drugs: seq<Medication>, c: nat)
    requires c < |Pairs(|drugs|)|
    ensures Pairs(|drugs|)[c].0 < |drugs| && Pairs(|drugs|)[c].1 < |drugs|
    ensures Requests(drugs, c + 1) ==
      Requests(drugs, c) + [InteractionPayload(drugs[Pairs(|drugs|)[c].0].name, drugs[Pairs(|drugs|)[c].1].name)]
  {
    PairsInRange(|drugs|);
  }

  /** All the turns together post `n * (n - 1) / 2` requests for `n`
      drugs: none for one drug or none. */
  lemma RequestsCount(drugs: seq<Medication>)
    ensures |Requests(drugs, |Pairs(|drugs|)|)| == |drugs| * (|drugs| - 1) / 2
  {
    PairsCount(|drugs|);
  }

  /** Among them, every pair of drugs `i < j` has its request, naming the
      two drugs, at the pair's place in lexicographic order. */
  lemma RequestsPerPair(drugs: seq<Medication>)
    ensures forall i, j :: 0 <= i < j < |drugs| ==> RequestOfPairAt(drugs, i, j)
  {
    forall i, j | 0 <= i < j < |drugs|
      ensures RequestOfPairAt(drugs, i, j)
    {
      PairAt(|drugs|, i, j);
      RequestAt(drugs, |Pairs(|drugs|)|, RowsBefore(i, |drugs|) + (j - i - 1));
    }
  }

  /** The request for drugs `i < j` sits where `(i, j)` sits in
      lexicographic order: after the requests of every earlier row, and
      after those of the row's earlier partners. */
  predicate RequestOfPairAt(drugs: seq<Medication>, i: nat, j: nat)
    requires i < j < |drugs|
  {
    var k := RowsBefore(i, |drugs|) + (j - i - 1);
    k < |Pairs(|drugs|)| && Requests(drugs, |Pairs(|drugs|)|)[k] == InteractionPayload(drugs[i].name, drugs[j].name)
  }

  lemma RequestAt(drugs: seq<Medication>, c: nat, k: nat)
    requires k < c <= |Pairs(|drugs|)|
    ensures Pairs(|drugs|)[k].0 < |drugs| && Pairs(|drugs|)[k].1 < |drugs|
    ensures Requests(drugs, c)[k] == InteractionPayload(drugs[Pairs(|drugs|)[k].0].name, drugs[Pairs(|drugs|)[k].1].name)
  {
    PairsInRange(|drugs|);
  }

  /** `check_drug_compatibility(drugs, patient_info)`: the run over every
      pair, in the order of the nested loops. `sent` logs the requests
      posted to the service: one per pair, in pair order, up to and
      including the turn that raises; none when the profile is too short,
      since the profile is indexed before the first request. */
  method CheckDrugCompatibility(drugs: seq<Medication>, patientInfo: seq<string>, service: Service)
    returns (r: Result<seq<Interaction>, Error>, ghost sent: seq<Payload>)
    ensures r == Run(Steps(drugs, patientInfo, service, Pairs(|drugs|)))
    ensures |patientInfo| < 6 ==> sent == []
    ensures |patientInfo| >= 6 && r.Success? ==> sent == Requests(drugs, |Pairs(|drugs|)|)
    ensures |patientInfo| >= 6 && r.Failure? ==>
      0 < |sent| <= |Pairs(|drugs|)| && sent == Requests(drugs, |sent|) &&
      FirstFailureAt(Steps(drugs, patientInfo, service, Pairs(|drugs|)), |sent| - 1)
  {
    var n := |drugs|;
    PairsTotal(n);
    var interactions: seq<Interaction> := [];
    var calls := 0;
    sent := [];
    ghost var all := Steps(drugs, patientInfo, service, Pairs(n));
    var i := 0;
    while i < n
      invariant i <= n && calls == RowsBefore(i, n) && calls <= |Pairs(n)|
      invariant ResumeFrom(interactions, all, calls) == Run(all)
      invariant |patientInfo| >= 6 ==> sent == Requests(drugs, calls)
      invariant |patientInfo| < 6 ==> sent == []
      invariant SucceedsBefore(all, calls)
    {
      r, calls, sent := CheckRow(drugs, patientInfo, service, i, interactions, calls, sent);
      if r.Failure? {
        return;
      }
      interactions := r.value;
      i := i + 1;
    }
    r := Success(interactions);
  }

  /** The inner loop of `check_drug_compatibility` for drug `i`: its pairs
      with every later drug, in order, continuing a run that has kept
      `found`, made `calls` turns and posted `sentBefore`. */
  method CheckRow(drugs: seq<Medication>, patientInfo: seq<string>, service: Service, i: nat,
                  found: seq<Interaction>, calls: nat, ghost sentBefore: seq<Payload>)
    returns (r: Result<seq<Interaction>, Error>, callsAfter: nat, ghost sent: seq<Payload>)
    requires i < |drugs| && calls == RowsBefore(i, |drugs|) && calls <= |Pairs(|drugs|)|
    requires ResumeFrom(found, Steps(drugs, patientInfo, service, Pairs(|drugs|)), calls) == Run(Steps(drugs, patientInfo, service, Pairs(|drugs|)))
    requires |patientInfo| >= 6 ==> sentBefore == Requests(drugs, calls)
    requires |patientInfo| < 6 ==> sentBefore == []
    requires SucceedsBefore(Steps(drugs, patientInfo, service, Pairs(|drugs|)), calls)
    ensures r.Failure? ==> r == Run(Steps(drugs, patientInfo, service, Pairs(|drugs|)))
    ensures |patientInfo| < 6 ==> sent == []
    ensures r.Failure? && |patientInfo| >= 6 ==>
      0 < |sent| <= |Pairs(|drugs|)| && sent == Requests(drugs, |sent|) &&
      FirstFailureAt(Steps(drugs, patientInfo, service, Pairs(|drugs|)), |sent| - 1)
    ensures r.Success? ==> callsAfter == RowsBefore(i + 1, |drugs|) && callsAfter <= |Pairs(|drugs|)|
    ensures r.Success? && |patientInfo| >= 6 ==> sent == Requests(drugs, callsAfter)
    ensures r.Success? ==> SucceedsBefore(Steps(drugs, patientInfo, service, Pairs(|drugs|)), callsAfter)
    ensures r.Success? ==>
      ResumeFrom(r.value, Steps(drugs, patientInfo, service, Pairs(|drugs|)), callsAfter) == Run(Steps(drugs, patientInfo, service, Pairs(|drugs|)))
  {
    var n := |drugs|;
    ghost var all := Steps(drugs, patientInfo, service, Pairs(n));
    var interactions := found;
    callsAfter := calls;
    sent := sentBefore;
    var j := i + 1;
    while j < n
      invariant i < j <= n && callsAfter == RowsBefore(i, n) + (j - i - 1) && callsAfter <= |all|
      invariant ResumeFrom(interactions, all, callsAfter) == Run(all)
      invariant |patientInfo| >= 6 ==> sent == Requests(drugs, callsAfter)
      invariant |patientInfo| < 6 ==> sent == []
      invariant SucceedsBefore(all, callsAfter)
    {
      PairAt(n, i, j);
      r, sent := Visit(drugs, patientInfo, service, i, j, interactions, callsAfter, sent);
      if r.Failure? {
        assert |patientInfo| >= 6 ==> |sent| - 1 == callsAfter;
        return;
      }
      interactions := r.value;
      callsAfter := callsAfter + 1;
      j := j + 1;
    }
    r := Success(interactions);
  }

  /** One turn of the inner loop: the pair `(i, j)`, the `m`-th pair, is
      checked, its request logged, and its record appended on a conflict. */
  method Visit(drugs: seq<Medication>, patientInfo: seq<string>, service: Service, i: nat, j: nat,
               found: seq<Interaction>, m: nat, ghost sentBefore: seq<Payload>)
    returns (r: Result<seq<Interaction>, Error>, ghost sent: seq<Payload>)
    requires i < j < |drugs| && m < |Pairs(|drugs|)| && Pairs(|drugs|)[m] == (i, j)
    requires ResumeFrom(found, Steps(drugs, patientInfo, service, Pairs(|drugs|)), m) == Run(Steps(drugs, patientInfo, service, Pairs(|drugs|)))
    requires |patientInfo| >= 6 ==> sentBefore == Requests(drugs, m)
    requires |patientInfo| < 6 ==> sentBefore == []
    requires SucceedsBefore(Steps(drugs, patientInfo, service, Pairs(|drugs|)), m)
    ensures r.Failure? ==> r == Run(Steps(drugs, patientInfo, service, Pairs(|drugs|)))
    ensures |patientInfo| < 6 ==> sent == []
    ensures r.Failure? && |patientInfo| >= 6 ==>
      sent == Requests(drugs, m + 1) && FirstFailureAt(Steps(drugs, patientInfo, service, Pairs(|drugs|)), m)
    ensures r.Success? && |patientInfo| >= 6 ==> sent == Requests(drugs, m + 1)
    ensures r.Success? ==> SucceedsBefore(Steps(drugs, patientInfo, service, Pairs(|drugs|)), m + 1)
    ensures r.Success? ==>
      ResumeFrom(r.value, Steps(drugs, patientInfo, service, Pairs(|drugs|)), m + 1) == Run(Steps(drugs, patientInfo, service, Pairs(|drugs|)))
  {
    var result, posted := CheckPair(drugs, patientInfo, service, i, j, m);
    Turn(drugs, patientInfo, service, found, i, j, m, result);
    RequestsNext(drugs, m);
    sent := sentBefore + posted;
    if result.Failure? {
      r := Failure(result.error);
      return;
    }
    SucceedsOneMore(Steps(drugs, patientInfo, service, Pairs(|drugs|)), m);
    if result.value == Conflict {
      r := Success(found + [Interaction(drugs[i].name, drugs[j].name, ConflictDetails)]);
    } else {
      r := Success(found);
    }
  }

  /** The turn of the pair `(i, j)` at position `m` of the run, whose check
      answered `check`: it raises the check's exception, or appends the
      pair's record on a conflict, or appends nothing. */
  lemma Turn(drugs: seq<Medication>, patientInfo: seq<string>, service: Service,
             found: seq<Interaction>, i: nat, j: nat, m: nat, check: Result<Verdict, Error>)
    requires i < j < |drugs| && m < |Pairs(|drugs|)| && Pairs(|drugs|)[m] == (i, j)
    requires check == PairVerdict(drugs, patientInfo, service, (i, j), m)
    ensures var all := Steps(drugs, patientInfo, service, Pairs(|drugs|));
      (check.Failure? ==> all[m].Failure? && ResumeFrom(found, all, m) == Failure(check.error)) &&
      (check.Success? ==> all[m].Success?) &&
      (check == Success(Conflict) ==>
        ResumeFrom(found, all, m) == ResumeFrom(found + [Interaction(drugs[i].name, drugs[j].name, ConflictDetails)], all, m + 1)) &&
      (check.Success? && check != Success(Conflict) ==> ResumeFrom(found, all, m) == ResumeFrom(found, all, m + 1))
  {
    var all := Steps(drugs, patientInfo, service, Pairs(|drugs|));
    assert all[m] == Step(drugs, patientInfo, service, (i, j), m);
  }

  /** `check_drug_interaction(drug1, dosage1, drug2, dosage2, patient_info)`
      for the drugs at `i` and `j`, as the `call`-th request of the run;
      `posted` is the log `PostPayload` keeps of the request it sends, none
      when indexing the profile raises first. */
  method CheckPair(drugs: seq<Medication>, patientInfo: seq<string>, service: Service, i: nat, j: nat, call: nat)
    returns (result: Result<Verdict, Error>, ghost posted: seq<Payload>)
    requires i < |drugs| && j < |drugs|
    ensures result == PairVerdict(drugs, patientInfo, service, (i, j), call)
    ensures posted == if |patientInfo| < 6 then [] else [InteractionPayload(drugs[i].name, drugs[j].name)]
  {
    var drug1, dosage1 := drugs[i].name, drugs[i].dosage;
    var drug2, dosage2 := drugs[j].name, drugs[j].dosage;
    if |patientInfo| < 6 {
      result, posted := Failure(PatientInfoTooShort), [];
      return;
    }
    var payload := InteractionPayload(drug1, drug2);
    var answer;
    answer, posted := PostPayload(service, call, payload);
    match answer {
      case Failure(e) =>
        result := Failure(e);
      case Success(text) =>
        result := Success(ParseVerdict(text));
    }
  }

  /** A completed run keeps a record for exactly the pairs whose answer
      reads as `"-1"`, each naming the pair's two drugs with the fixed
      details. */
  lemma RecordsAreConflicts(drugs: seq<Medication>, patientInfo: seq<string>, service: Service, ps: seq<Pair>, x: Interaction)
    requires InRange(ps, |drugs|) && Run(Steps(drugs, patientInfo, service, ps)).Success?
    ensures x in Run(Steps(drugs, patientInfo, service, ps)).value <==>
      exists k :: 0 <= k < |ps| &&
        PairVerdict(drugs, patientInfo, service, ps[k], k) == Success(Conflict) &&
        x == RecordFor(drugs, ps[k])
  {
    var steps := Steps(drugs, patientInfo, service, ps);
    RunKeeps(steps);
    KeptMembers(steps, x);
    forall k | 0 <= k < |ps|
      ensures steps[k] == Success(Some(x)) <==>
        PairVerdict(drugs, patientInfo, service, ps[k], k) == Success(Conflict) && x == RecordFor(drugs, ps[k])
    {
      assert steps[k] == Step(drugs, patientInfo, service, ps[k], k);
    }
  }

  /** The records come in the order of the pairs, one per pair at most: a
      run where every answer reads as `"-1"` keeps every pair, and one where
      none does keeps nothing. */
  lemma RecordCounts(drugs: seq<Medication>, patientInfo: seq<string>, service: Service, ps: seq<Pair>)
    requires InRange(ps, |drugs|)
    ensures (forall k :: 0 <= k < |ps| ==> PairVerdict(drugs, patientInfo, service, ps[k], k) == Success(Conflict)) ==>
      Run(Steps(drugs, patientInfo, service, ps)) == Success(seq(|ps|, k requires 0 <= k < |ps| => RecordFor(drugs, ps[k])))
    ensures (forall k :: 0 <= k < |ps| ==> PairVerdict(drugs, patientInfo, service, ps[k], k).Success? &&
                                           PairVerdict(drugs, patientInfo, service, ps[k], k) != Success(Conflict)) ==>
      Run(Steps(drugs, patientInfo, service, ps)) == Success([])
  {
    var steps := Steps(drugs, patientInfo, service, ps);
    RunSucceedsExactly(steps);
    if forall k :: 0 <= k < |ps| ==> PairVerdict(drugs, patientInfo, service, ps[k], k) == Success(Conflict) {
      RunKeeps(steps);
      KeptAll(steps, seq(|ps|, k requires 0 <= k < |ps| => RecordFor(drugs, ps[k])));
    }
    if forall k :: 0 <= k < |ps| ==> PairVerdict(drugs, patientInfo, service, ps[k], k).Success? &&
                                     PairVerdict(drugs, patientInfo, service, ps[k], k) != Success(Conflict) {
      RunKeeps(steps);
      KeptNone(steps);
    }
  }

  /** With fewer than two drugs the loops never run: no request, no
      exception, even when the profile is short. With two or more and a
      profile of fewer than six fields, the first turn raises IndexError. */
  lemma FewDrugsOrShortProfile(drugs: seq<Medication>, patientInfo: seq<string>, service: Service)
    ensures InRange(Pairs(|drugs|), |drugs|)
    ensures |drugs| <= 1 ==> Pairs(|drugs|) == [] && Run(Steps(drugs, patientInfo, service, Pairs(|drugs|))) == Success([])
    ensures |drugs| >= 2 && |patientInfo| < 6 ==> Run(Steps(drugs, patientInfo, service, Pairs(|drugs|))) == Failure(PatientInfoTooShort)
  {
    PairsCount(|drugs|);
    PairsInRange(|drugs|);
    if |drugs| >= 2 && |patientInfo| < 6 {
      RunFirstFailure(Steps(drugs, patientInfo, service, Pairs(|drugs|)), 0);
    }
  }

  /** A reply of `"-1"` reads as a conflict. */
  lemma MinusOneIsConflict()
    ensures ParseVerdict("-1") == Conflict
  {
    assert "-1"[0..2] == "-1";
    ContainsAt("-1", "-1", 0);
    MissingCharNeverContains("-1", "+1", '+');
    ConflictExactly("-1");
  }

  /** Two medications and a service that always answers `"-1"`: the run
      keeps the one record for the pair, with the fixed details. */
  lemma AlwaysConflictingPair(drugs: seq<Medication>, patientInfo: seq<string>, service: Service)
    requires |drugs| == 2 && |patientInfo| >= 6
    requires forall call, payload :: service(call, payload) == Reply(200, "", Some("-1"))
    ensures Run(Steps(drugs, patientInfo, service, Pairs(|drugs|))) ==
      Success([Interaction(drugs[0].name, drugs[1].name, ConflictDetails)])
  {
    PairAt(2, 0, 1);
    PairsCount(2);
    var steps := Steps(drugs, patientInfo, service, Pairs(2));
    var record := Interaction(drugs[0].name, drugs[1].name, ConflictDetails);
    MinusOneIsConflict();
    assert Pairs(2)[0] == (0, 1);
    assert steps[0] == Step(drugs, patientInfo, service, (0, 1), 0);
    assert steps[0] == Success(Some(record));
    RunSucceedsExactly(steps);
    RunKeeps(steps);
    KeptAll(steps, [record]);
  }
}
