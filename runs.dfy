/** The shape both `check_drug_compatibility` functions share: a list that
    starts empty, one step per pair that may append one record, and an
    exception that ends the run. A step's outcome is `Success(Some(x))`
    when it appends `x`, `Success(None)` when it appends nothing and
    `Failure(e)` when it raises `e`. */
module Runs {
  import opened Records

  /** The rest of a run from step `m` on, when the list holds `found`: the
      records appended by the remaining steps, in order, or the first
      exception one of them raises. */
  function ResumeFrom<R, E>(found: seq<R>, outcomes: seq<Result<Option<R>, E>>, m: nat): Result<seq<R>, E>
    decreases |outcomes| - m
  {
    if m >= |outcomes| then Success(found)
    else
      match outcomes[m]
      case Failure(e) => Failure(e)
      case Success(None) => ResumeFrom(found, outcomes, m + 1)
      case Success(Some(x)) => ResumeFrom(found + [x], outcomes, m + 1)
  }

  /** A whole run, from the empty list and the first step. */
  function Run<R, E>(outcomes: seq<Result<Option<R>, E>>): Result<seq<R>, E> {
    ResumeFrom([], outcomes, 0)
  }

  /** The records the steps from `m` on would append, ignoring exceptions. */
  function KeptFrom<R, E>(outcomes: seq<Result<Option<R>, E>>, m: nat): seq<R>
    decreases |outcomes| - m
  {
    if m >= |outcomes| then []
    else
      (match outcomes[m] case Success(Some(x)) => [x] case _ => [])
      + KeptFrom(outcomes, m + 1)
  }

  /** The records all the steps would append: the reference a completed run
      is measured against. */
  function Kept<R, E>(outcomes: seq<Result<Option<R>, E>>): seq<R> {
    KeptFrom(outcomes, 0)
  }

  /** No step before step `m` raises. */
  predicate SucceedsBefore<R, E>(outcomes: seq<Result<Option<R>, E>>, m: nat) {
    forall k :: 0 <= k < m && k < |outcomes| ==> outcomes[k].Success?
  }

  /** Step `k` is the first step of the run that raises. */
  predicate FirstFailureAt<R, E>(outcomes: seq<Result<Option<R>, E>>, k: nat) {
    k < |outcomes| && outcomes[k].Failure? && SucceedsBefore(outcomes, k)
  }

  /** One more step that succeeds extends the steps that succeeded. */
  lemma SucceedsOneMore<R, E>(outcomes: seq<Result<Option<R>, E>>, m: nat)
    requires SucceedsBefore(outcomes, m) && m < |outcomes| && outcomes[m].Success?
    ensures SucceedsBefore(outcomes, m + 1)
  {
  }

  /** A failing step after steps that all succeeded is the step whose
      exception the whole run raises. */
  lemma FirstFailureRaises<R, E>(outcomes: seq<Result<Option<R>, E>>, k: nat)
    requires FirstFailureAt(outcomes, k)
    ensures Run(outcomes) == Failure(outcomes[k].error)
  {
    RunFirstFailure(outcomes, k);
  }

  lemma {:induction false} ResumeSucceedsExactly<R, E>(found: seq<R>, outcomes: seq<Result<Option<R>, E>>, m: nat)
    ensures ResumeFrom(found, outcomes, m).Success? <==> forall k :: m <= k < |outcomes| ==> outcomes[k].Success?
    decreases |outcomes| - m
  {
    if m < |outcomes| {
      match outcomes[m]
      case Failure(_) =>
      case Success(None) => ResumeSucceedsExactly(found, outcomes, m + 1);
      case Success(Some(x)) => ResumeSucceedsExactly(found + [x], outcomes, m + 1);
    }
  }

  /** The run completes exactly when no step raises. */
  lemma RunSucceedsExactly<R, E>(outcomes: seq<Result<Option<R>, E>>)
    ensures Run(outcomes).Success? <==> forall k :: 0 <= k < |outcomes| ==> outcomes[k].Success?
  {
    ResumeSucceedsExactly([], outcomes, 0);
  }

  lemma {:induction false} ResumeFirstFailure<R, E>(found: seq<R>, outcomes: seq<Result<Option<R>, E>>, m: nat, k: nat)
    requires m <= k < |outcomes| && outcomes[k].Failure?
    requires forall j :: m <= j < k ==> outcomes[j].Success?
    ensures ResumeFrom(found, outcomes, m) == Failure(outcomes[k].error)
    decreases k - m
  {
    if m < k {
      match outcomes[m]
      case Success(None) => ResumeFirstFailure(found, outcomes, m + 1, k);
      case Success(Some(x)) => ResumeFirstFailure(found + [x], outcomes, m + 1, k);
    }
  }

  /** A run that fails raises the exception of its first failing step. */
  lemma RunFirstFailure<R, E>(outcomes: seq<Result<Option<R>, E>>, k: nat)
    requires k < |outcomes| && outcomes[k].Failure?
    requires forall j :: 0 <= j < k ==> outcomes[j].Success?
    ensures Run(outcomes) == Failure(outcomes[k].error)
  {
    ResumeFirstFailure([], outcomes, 0, k);
  }

  lemma {:induction false} ResumeKeeps<R, E>(found: seq<R>, outcomes: seq<Result<Option<R>, E>>, m: nat)
    requires ResumeFrom(found, outcomes, m).Success?
    ensures ResumeFrom(found, outcomes, m).value == found + KeptFrom(outcomes, m)
    decreases |outcomes| - m
  {
    if m < |outcomes| {
      match outcomes[m]
      case Success(None) =>
        ResumeKeeps(found, outcomes, m + 1);
      case Success(Some(x)) =>
        ResumeKeeps(found + [x], outcomes, m + 1);
        assert found + [x] + KeptFrom(outcomes, m + 1) == found + ([x] + KeptFrom(outcomes, m + 1));
    }
  }

  /** A completed run has appended exactly the records of `Kept`, in order. */
  lemma RunKeeps<R, E>(outcomes: seq<Result<Option<R>, E>>)
    requires Run(outcomes).Success?
    ensures Run(outcomes).value == Kept(outcomes)
  {
    ResumeKeeps([], outcomes, 0);
  }

  lemma {:induction false} KeptFromMembers<R, E>(outcomes: seq<Result<Option<R>, E>>, m: nat, x: R)
    ensures x in KeptFrom(outcomes, m) <==> exists k :: m <= k < |outcomes| && outcomes[k] == Success(Some(x))
    decreases |outcomes| - m
  {
    if m < |outcomes| {
      KeptFromMembers(outcomes, m + 1, x);
    }
  }

  /** `Kept` holds the record of every step that appends one, and nothing
      else. */
  lemma KeptMembers<R, E>(outcomes: seq<Result<Option<R>, E>>, x: R)
    ensures x in Kept(outcomes) <==> exists k :: 0 <= k < |outcomes| && outcomes[k] == Success(Some(x))
  {
    KeptFromMembers(outcomes, 0, x);
  }

  lemma {:induction false} KeptFromLength<R, E>(outcomes: seq<Result<Option<R>, E>>, m: nat)
    requires m <= |outcomes|
    ensures |KeptFrom(outcomes, m)| <= |outcomes| - m
    ensures (forall k :: m <= k < |outcomes| ==> outcomes[k].Success? && outcomes[k].value.Some?) ==>
      |KeptFrom(outcomes, m)| == |outcomes| - m
    decreases |outcomes| - m
  {
    if m < |outcomes| {
      KeptFromLength(outcomes, m + 1);
    }
  }

  /** At most one record per step, and one per step when every step
      appends. */
  lemma KeptLength<R, E>(outcomes: seq<Result<Option<R>, E>>)
    ensures |Kept(outcomes)| <= |outcomes|
    ensures (forall k :: 0 <= k < |outcomes| ==> outcomes[k].Success? && outcomes[k].value.Some?) ==> |Kept(outcomes)| == |outcomes|
  {
    KeptFromLength(outcomes, 0);
  }

  lemma {:induction false} KeptFromAll<R, E>(outcomes: seq<Result<Option<R>, E>>, records: seq<R>, m: nat)
    requires m <= |outcomes| == |records|
    requires forall k :: m <= k < |outcomes| ==> outcomes[k] == Success(Some(records[k]))
    ensures KeptFrom(outcomes, m) == records[m..]
    decreases |outcomes| - m
  {
    if m < |outcomes| {
      KeptFromAll(outcomes, records, m + 1);
      assert records[m..] == [records[m]] + records[m + 1..];
    }
  }

  /** Steps that all append keep all their records. */
  lemma KeptAll<R, E>(outcomes: seq<Result<Option<R>, E>>, records: seq<R>)
    requires |records| == |outcomes| && forall k :: 0 <= k < |outcomes| ==> outcomes[k] == Success(Some(records[k]))
    ensures Kept(outcomes) == records
  {
    KeptFromAll(outcomes, records, 0);
  }

  lemma {:induction false} KeptFromNone<R, E>(outcomes: seq<Result<Option<R>, E>>, m: nat)
    requires forall k :: m <= k < |outcomes| ==> outcomes[k] == Success(None)
    ensures KeptFrom(outcomes, m) == []
    decreases |outcomes| - m
  {
    if m < |outcomes| {
      KeptFromNone(outcomes, m + 1);
    }
  }

  /** Steps that never append keep nothing. */
  lemma KeptNone<R, E>(outcomes: seq<Result<Option<R>, E>>)
    requires forall k :: 0 <= k < |outcomes| ==> outcomes[k] == Success(None)
    ensures Kept(outcomes) == []
  {
    KeptFromNone(outcomes, 0);
  }
}
