/**
 What one call of a chain of chain.go does, said of the signers' answers, the context and the errors
 alone: whom it asks, what it returns, and what the audit log says of each signer.
 */
module ChainMeaning {
  import opened Wrappers
  import opened Bytes
  import opened Chains

  predicate StandsAt(text: string, phrase: string, k: nat) {
    k + |phrase| <= |text| && text[k..k + |phrase|] == phrase
  }

  /** The phrase is found wherever it stands in the text. */
  lemma {:induction false} ContainsMeans(text: string, phrase: string)
    ensures Contains(text, phrase) <==> exists k :: StandsAt(text, phrase, k)
    decreases |text|
  {
    if phrase <= text { assert StandsAt(text, phrase, 0); }
    if text != [] {
      ContainsMeans(text[1..], phrase);
      forall k: nat ensures StandsAt(text[1..], phrase, k) <==> StandsAt(text, phrase, k + 1) {
        assert k + 1 + |phrase| <= |text| ==> text[1..][k..k + |phrase|] == text[k + 1..k + 1 + |phrase|];
      }
    }
    if k: nat :| StandsAt(text, phrase, k) {
      assert k > 0 ==> StandsAt(text[1..], phrase, k - 1);
    }
  }

  /** The error is marked transient and nothing in it refuses. */
  ghost predicate Excused(f: Fault) {
    && Wraps(f, SignerTransient) && !Wraps(f, PolicyRefusal) && !Wraps(f, SignatureMismatch)
    && !Wraps(f, MissingSigner) && !Wraps(f, TooManySignatures) && !Contains(f.text, "server refused")
  }

  /** Signer i failed with an error that excuses it, and the context was still alive after the call. */
  ghost predicate PassedOver<V>(round: Round<V>, i: nat) {
    && i < |round.answers| && round.answers[i].Failed?
    && !round.cancelled(2 * i + 1) && Excused(round.answers[i].err)
  }

  lemma {:induction false} PassedOverMeans<V>(round: Round<V>, i: nat)
    requires i < |round.answers| && round.answers[i].Failed?
    ensures round.FailsTransiently(i) <==> PassedOver(round, i)
    ensures round.FailureAt(i)
            == Attempt(i, if PassedOver(round, i) then TransientFailure else TerminalFailure,
                       Some(round.answers[i].err))
  {
    TransientMeans(round.answers[i].err);
  }

  // ---------- Fallback ----------

  /** The first `called` signers were asked: all but the last of them were passed over, with the context alive. */
  ghost predicate AskedInTurn<V>(round: Round<V>, called: nat) {
    && called <= |round.answers|
    && forall j: nat :: j < called ==> !round.cancelled(2 * j) && (j + 1 < called ==> PassedOver(round, j))
  }

  /** What a fallback call that asked `called` signers returns. */
  ghost predicate FallbackAnswer<V>(round: Round<V>, called: nat, r: Result<V, Stop>)
    requires called <= |round.answers|
  {
    if called == 0 || PassedOver(round, called - 1) then
      if called == |round.answers| then r == Err(Exhausted) else round.cancelled(2 * called) && r == Err(Cancelled)
    else
      match round.answers[called - 1]
      case Signed(v) => r == Ok(v)
      case Failed(err) =>
        r == if round.cancelled(2 * called - 1) then Err(Cancelled) else Err(TerminalAt(called - 1, err))
  }

  /** What the log says of signer j when `called` signers were asked. */
  ghost predicate FallbackEntry<V>(round: Round<V>, called: nat, j: nat, a: Attempt)
    requires j < |round.answers|
  {
    a == if called <= j then Attempt(j, Skipped, None)
         else if round.answers[j].Signed? then Attempt(j, Succeeded, None)
         else Attempt(j, if PassedOver(round, j) then TransientFailure else TerminalFailure, Some(round.answers[j].err))
  }

  lemma {:induction false} MovesOnMeans<V>(round: Round<V>, i: nat)
    requires i < |round.answers|
    ensures round.MovesOn(i) <==> !round.cancelled(2 * i) && PassedOver(round, i)
  {
    if round.answers[i].Failed? { PassedOverMeans(round, i); }
  }

  /** Whom a fallback call asks, what it returns and what it logs. */
  lemma {:induction false} FallbackMeans<V>(round: Round<V>, r: Result<V, Stop>, log: seq<Attempt>, called: nat)
    requires FallbackLog(round, log) && FallbackCalls(round, called) && FallbackReturns(round, r)
    ensures AskedInTurn(round, called) && FallbackAnswer(round, called, r)
    ensures |log| == |round.answers| && forall j :: 0 <= j < |log| ==> FallbackEntry(round, called, j, log[j])
  {
    var end: nat :| round.FallbackEnds(end) && r == round.FallbackResult(end);
    forall j | 0 <= j < |round.answers| ensures round.MovesOn(j) <==> !round.cancelled(2 * j) && PassedOver(round, j) {
      MovesOnMeans(round, j);
    }
    assert end < |round.answers| ==> !round.MovesOn(end);
    assert called == if end < |round.answers| && !round.cancelled(2 * end) then end + 1 else end by {
      assert forall j :: 0 <= j < end ==> round.MovesOn(j);
      assert end < |round.answers| ==> (end < called <==> round.AskedFallback(end));
      assert end > 0 ==> round.AskedFallback(end - 1);
      assert end + 1 < |round.answers| ==> !round.AskedFallback(end + 1);
    }
    forall j: nat | j < called ensures !round.cancelled(2 * j) && (j + 1 < called ==> PassedOver(round, j)) {
      assert j < end ==> round.MovesOn(j);
    }
    assert called > 0 && called == end ==> round.MovesOn(called - 1);
    forall j | 0 <= j < |log| ensures FallbackEntry(round, called, j, log[j]) {
      assert j < called <==> round.AskedFallback(j);
      if round.answers[j].Failed? { PassedOverMeans(round, j); }
    }
  }

  /** A fallback call returns v exactly when the first signer that is not passed over signs v. */
  lemma {:induction false} FallbackSignsExactly<V>(round: Round<V>, r: Result<V, Stop>, log: seq<Attempt>, called: nat,
                                                   v: V)
    requires FallbackLog(round, log) && FallbackCalls(round, called) && FallbackReturns(round, r)
    ensures r == Ok(v) <==> exists i: nat :: i < |round.answers| && round.answers[i] == Signed(v)
                                             && AskedInTurn(round, i + 1)
  {
    FallbackMeans(round, r, log, called);
    if i: nat :| i < |round.answers| && round.answers[i] == Signed(v) && AskedInTurn(round, i + 1) {
      assert called > i + 1 ==> PassedOver(round, i);
      assert forall j: nat :: j < i ==> PassedOver(round, j);
    }
    if r == Ok(v) {
      assert round.answers[called - 1] == Signed(v);
      assert AskedInTurn(round, called - 1 + 1);
    }
  }

  // ---------- Quorum ----------

  /** The signers before i that returned a signature. */
  ghost function SignedBefore<V>(round: Round<V>, i: nat): (s: set<nat>)
    requires i <= |round.answers|
  {
    set j: nat | j < i && round.answers[j].Signed?
  }

  /** Signer i's signature encodes, and to the same bytes as every signature before it. */
  ghost predicate Agrees<V>(round: Round<V>, i: nat) {
    && i < |round.answers| && round.answers[i].Signed? && round.marshal(round.answers[i].value).Ok?
    && forall j :: 0 <= j < i && round.answers[j].Signed? ==>
         round.marshal(round.answers[j].value) == round.marshal(round.answers[i].value)
  }

  /** A quorum call may ask signer i: the context is alive and the quorum can still be met. */
  ghost predicate MayAsk<V>(round: Round<V>, i: nat) {
    i < |round.answers| && !round.cancelled(2 * i) && |SignedBefore(round, i)| + (|round.answers| - i) >= round.quorum
  }

  /** Signer i's answer leaves the call open: it is passed over, or agrees without completing the quorum. */
  ghost predicate LeavesOpen<V>(round: Round<V>, i: nat) {
    i < |round.answers| && (PassedOver(round, i) || (Agrees(round, i) && |SignedBefore(round, i + 1)| < round.quorum))
  }

  ghost predicate QuorumInTurn<V>(round: Round<V>, called: nat) {
    && called <= |round.answers|
    && forall j: nat :: j < called ==> MayAsk(round, j) && (j + 1 < called ==> LeavesOpen(round, j))
  }

  predicate Increasing(list: seq<nat>) {
    forall a, b :: 0 <= a < b < |list| ==> list[a] < list[b]
  }

  /** The signers before i that signed, in the order they were asked. */
  ghost predicate ListsSigners<V>(round: Round<V>, i: nat, list: seq<nat>)
    requires i <= |round.answers|
  {
    (forall j :: j in list <==> j in SignedBefore(round, i)) && Increasing(list)
  }

  /** What a quorum call that asked `called` signers returns. */
  ghost predicate QuorumAnswer<V>(round: Round<V>, called: nat, r: Result<V, Stop>)
    requires called <= |round.answers|
  {
    if called == 0 || LeavesOpen(round, called - 1) then
      && !MayAsk(round, called)
      && r == if called < |round.answers| && round.cancelled(2 * called) then Err(Cancelled)
              else Err(NotMet(|SignedBefore(round, called)|))
    else
      var i := called - 1;
      match round.answers[i]
      case Failed(err) => r == if round.cancelled(2 * i + 1) then Err(Cancelled) else Err(TerminalAt(i, err))
      case Signed(v) =>
        if round.marshal(v).Err? then r == Err(TerminalAt(i, round.marshal(v).error))
        else if Agrees(round, i) then |SignedBefore(round, i + 1)| == round.quorum && r == Ok(v)
        else r.Err? && r.error.Disagreement? && r.error.index == i && ListsSigners(round, i, r.error.agreedBy)
  }

  /** What the log says of signer j when `called` signers were asked. */
  ghost predicate QuorumEntry<V>(round: Round<V>, called: nat, j: nat, a: Attempt)
    requires j < |round.answers|
  {
    a == if called <= j then Attempt(j, Skipped, None)
         else match round.answers[j]
           case Failed(err) => Attempt(j, if PassedOver(round, j) then TransientFailure else TerminalFailure, Some(err))
           case Signed(v) =>
             if round.marshal(v).Err? then Attempt(j, TerminalFailure, Some(round.marshal(v).error))
             else Attempt(j, if Agrees(round, j) then Succeeded else TerminalFailure, None)
  }

  lemma {:induction false} SignersListed<V>(round: Round<V>, i: nat)
    requires i <= |round.answers|
    ensures ListsSigners(round, i, round.Signers(i)) && |round.Signers(i)| == |SignedBefore(round, i)|
  {
    SignersAreThose(round, i);
    SignersAscend(round, i);
    SignersCounted(round, i);
  }

  lemma {:induction false} SignersCounted<V>(round: Round<V>, i: nat)
    requires i <= |round.answers|
    ensures |round.Signers(i)| == |SignedBefore(round, i)|
  {
    if i == 0 {
      assert SignedBefore(round, 0) == {};
    } else {
      SignersCounted(round, i - 1);
      SignedStep(round, i - 1);
    }
  }

  lemma {:induction false} SignersAscend<V>(round: Round<V>, i: nat)
    requires i <= |round.answers|
    ensures Increasing(round.Signers(i))
  {
    if i > 0 {
      SignersAscend(round, i - 1);
      SignersAreThose(round, i - 1);
      var list := round.Signers(i - 1);
      assert forall k :: 0 <= k < |list| ==> list[k] in list;
    }
  }

  lemma {:induction false} SignedStep<V>(round: Round<V>, i: nat)
    requires i < |round.answers|
    ensures SignedBefore(round, i + 1) == SignedBefore(round, i) + (if round.answers[i].Signed? then {i} else {})
    ensures |SignedBefore(round, i + 1)| == |SignedBefore(round, i)| + (if round.answers[i].Signed? then 1 else 0)
  {
    assert SignedBefore(round, i + 1) == SignedBefore(round, i) + (if round.answers[i].Signed? then {i} else {});
    assert i !in SignedBefore(round, i);
  }

  lemma {:induction false} ContinuesMeans<V>(round: Round<V>, i: nat)
    requires i < |round.answers| && round.quorum > |SignedBefore(round, i)|
    ensures round.cancelled(2 * i) || !round.Reachable(i) <==> !MayAsk(round, i)
    ensures round.Continues(i) <==> MayAsk(round, i) && LeavesOpen(round, i)
  {
    SignersListed(round, i);
    SignersListed(round, i + 1);
    if round.answers[i].Failed? {
      PassedOverMeans(round, i);
      assert SignedBefore(round, i + 1) == SignedBefore(round, i);
    } else {
      BreaksMeans(round, i);
    }
  }

  lemma {:induction false} BreaksMeans<V>(round: Round<V>, i: nat)
    requires i < |round.answers| && round.answers[i].Signed?
    ensures round.Breaks(i) <==> !Agrees(round, i)
    ensures round.Unencodable(i) <==> round.marshal(round.answers[i].value).Err?
    ensures !round.Unencodable(i) ==> (round.Disagrees(i) <==> !Agrees(round, i))
  {
  }

  /** Before the call ends the quorum is not met, so each turn is what it means. */
  lemma {:induction false} TurnsMean<V>(round: Round<V>, end: nat)
    requires end <= |round.answers| && round.ReachedQuorum(end) && round.quorum > 0
    ensures |SignedBefore(round, end)| < round.quorum
    ensures forall j: nat :: j < end ==> MayAsk(round, j) && LeavesOpen(round, j)
  {
    forall j: nat | j <= end ensures |SignedBefore(round, j)| < round.quorum {
      SignersListed(round, j);
      BelowQuorum(round, end, j);
    }
    forall j: nat | j < end ensures MayAsk(round, j) && LeavesOpen(round, j) {
      assert round.Continues(j);
      ContinuesMeans(round, j);
    }
  }

  lemma {:induction false} QuorumAsked<V>(round: Round<V>, end: nat, called: nat)
    requires round.QuorumEnds(end) && QuorumCalls(round, called)
    ensures called
            == if end < |round.answers| && !round.cancelled(2 * end) && round.Reachable(end) then end + 1 else end
  {
    assert end < |round.answers| ==> !round.Continues(end);
    if end > 0 {
      assert round.Continues(end - 1) && round.AskedQuorum(end - 1);
    }
    assert end < |round.answers| ==> (end < called <==> round.AskedQuorum(end));
    assert end + 1 < |round.answers| ==> !round.AskedQuorum(end + 1);
  }

  /** Whom a quorum call asks and what it returns. */
  lemma {:induction false} QuorumMeans<V>(round: Round<V>, r: Result<V, Stop>, called: nat)
    requires round.quorum > 0 && QuorumCalls(round, called) && QuorumReturns(round, r)
    ensures QuorumInTurn(round, called) && QuorumAnswer(round, called, r)
  {
    var end: nat :| round.QuorumEnds(end) && r == round.QuorumResult(end);
    QuorumAsked(round, end, called);
    TurnsMean(round, end);
    SignersListed(round, end);
    if end < |round.answers| {
      ContinuesMeans(round, end);
      if MayAsk(round, end) { EndMeans(round, end); }
    }
  }

  /** What a quorum call returns when the answer of signer i ends it. */
  lemma {:induction false} EndMeans<V>(round: Round<V>, i: nat)
    requires i < |round.answers| && MayAsk(round, i) && !LeavesOpen(round, i)
    requires |SignedBefore(round, i)| < round.quorum
    ensures QuorumAnswer(round, i + 1, round.QuorumResult(i))
  {
    SignersListed(round, i);
    SignedStep(round, i);
    if round.answers[i].Signed? { BreaksMeans(round, i); }
  }

  /** What a quorum call logs. */
  lemma {:induction false} QuorumLogMeans<V>(round: Round<V>, log: seq<Attempt>, called: nat, j: nat)
    requires QuorumLog(round, log) && QuorumCalls(round, called) && j < |round.answers|
    ensures |log| == |round.answers| && QuorumEntry(round, called, j, log[j])
  {
    assert j < called <==> round.AskedQuorum(j);
    if round.answers[j].Failed? { PassedOverMeans(round, j); } else { BreaksMeans(round, j); }
  }
}
