/**
 chain.go: fallback and quorum chains of interchangeable signers, their audit log, and the
 classification of failures that decides whether a chain may move on.

 A chain asks each signer at most once, so signer i is its answer `answers[i]`. The context
 is observed before and after each call: `cancelled(2 * i)` and `cancelled(2 * i + 1)`.
 */
module Chains {
  import opened Wrappers
  import opened Bytes

  // ---------- Errors and what they wrap ----------

  datatype Sentinel =
    | PolicyRefusal | SignatureMismatch | MissingSigner | TooManySignatures | SignerTransient | OtherSentinel(id: nat)

  /** An error: its own identity if it is a sentinel, its text, and the errors it unwraps to. */
  datatype Fault = Fault(own: Option<Sentinel>, text: string, causes: seq<Fault>)

  function SentinelFault(s: Sentinel): Fault {
    Fault(Some(s), "", [])
  }

  /** MarkTransient: the same text, unwrapping to the marker and to the error. */
  function MarkTransient(f: Fault): Fault {
    Fault(None, f.text, [SentinelFault(SignerTransient), f])
  }

  /** errors.Is: a depth-first search of everything the error wraps. */
  predicate Is(f: Fault, s: Sentinel)
    decreases f, 1
  {
    f.own == Some(s) || IsAny(f.causes, s)
  }

  predicate IsAny(causes: seq<Fault>, s: Sentinel)
    decreases causes, 0
  {
    causes != [] && (Is(causes[0], s) || IsAny(causes[1..], s))
  }

  predicate Contains(text: string, phrase: string)
    decreases |text|
  {
    phrase <= text || (text != [] && Contains(text[1..], phrase))
  }

  /** IsSignatureRejection: a sentinel, or the phrase a remote signer flattens its refusal to. */
  predicate IsRejection(f: Fault) {
    || Is(f, SignatureMismatch) || Is(f, MissingSigner) || Is(f, TooManySignatures)
    || Contains(f.text, "server refused")
  }

  datatype Class = Transient | Terminal

  /** classify. */
  function Classify(f: Fault): (c: Class) {
    if Is(f, PolicyRefusal) || IsRejection(f) then Terminal
    else if Is(f, SignerTransient) then Transient
    else Terminal
  }

  /** The error that a path of unwrap choices leads to. */
  function At(f: Fault, path: seq<nat>): (g: Option<Fault>)
    decreases |path|
  {
    if path == [] then Some(f)
    else if path[0] < |f.causes| then At(f.causes[path[0]], path[1..])
    else None
  }

  /** Some path of unwraps ends at the sentinel. */
  ghost predicate Wraps(f: Fault, s: Sentinel) {
    exists path :: At(f, path).Some? && At(f, path).value.own == Some(s)
  }

  lemma {:induction false} IsAnyMeans(causes: seq<Fault>, s: Sentinel)
    ensures IsAny(causes, s) <==> exists i :: 0 <= i < |causes| && Is(causes[i], s)
  {
    if causes != [] {
      IsAnyMeans(causes[1..], s);
      assert causes == [causes[0]] + causes[1..];
      if i :| 0 <= i < |causes| && Is(causes[i], s) {
        assert i > 0 ==> causes[i] == causes[1..][i - 1];
      }
    }
  }

  lemma {:induction false} IsFollowsPath(f: Fault, path: seq<nat>, s: Sentinel)
    requires At(f, path).Some? && At(f, path).value.own == Some(s)
    ensures Is(f, s)
    decreases |path|
  {
    if path != [] {
      IsFollowsPath(f.causes[path[0]], path[1..], s);
      IsAnyMeans(f.causes, s);
    }
  }

  lemma {:induction false} PathOf(f: Fault, s: Sentinel) returns (path: seq<nat>)
    requires Is(f, s)
    ensures At(f, path).Some? && At(f, path).value.own == Some(s)
    decreases f
  {
    if f.own == Some(s) {
      path := [];
    } else {
      IsAnyMeans(f.causes, s);
      var i :| 0 <= i < |f.causes| && Is(f.causes[i], s);
      var rest := PathOf(f.causes[i], s);
      path := [i] + rest;
      assert path[1..] == rest;
    }
  }

  /** The search finds a sentinel exactly when some chain of unwraps leads to it. */
  lemma {:induction false} IsMeansWraps(f: Fault, s: Sentinel)
    ensures Is(f, s) <==> Wraps(f, s)
  {
    if Is(f, s) {
      var path := PathOf(f, s);
    }
    if Wraps(f, s) {
      var path :| At(f, path).Some? && At(f, path).value.own == Some(s);
      IsFollowsPath(f, path, s);
    }
  }

  /** A policy refusal anywhere in the graph is terminal, and no marker changes that. */
  lemma {:induction false} RefusalIsTerminal(f: Fault)
    requires Wraps(f, PolicyRefusal)
    ensures Classify(f) == Terminal
    ensures Wraps(MarkTransient(f), PolicyRefusal) && Classify(MarkTransient(f)) == Terminal
    ensures forall g: Fault :: f in g.causes ==> Wraps(g, PolicyRefusal) && Classify(g) == Terminal
  {
    IsMeansWraps(f, PolicyRefusal);
    forall g: Fault | f in g.causes ensures Wraps(g, PolicyRefusal) && Classify(g) == Terminal {
      var i :| 0 <= i < |g.causes| && g.causes[i] == f;
      IsAnyMeans(g.causes, PolicyRefusal);
      IsMeansWraps(g, PolicyRefusal);
    }
    assert MarkTransient(f).causes[1] == f;
  }

  /** The chain may move on exactly when the marker is there and nothing in the graph refuses. */
  lemma {:induction false} TransientMeans(f: Fault)
    ensures Classify(f) == Transient
            <==> && Wraps(f, SignerTransient) && !Wraps(f, PolicyRefusal) && !Wraps(f, SignatureMismatch)
                 && !Wraps(f, MissingSigner) && !Wraps(f, TooManySignatures) && !Contains(f.text, "server refused")
  {
    IsMeansWraps(f, SignerTransient);
    IsMeansWraps(f, PolicyRefusal);
    IsMeansWraps(f, SignatureMismatch);
    IsMeansWraps(f, MissingSigner);
    IsMeansWraps(f, TooManySignatures);
  }

  lemma {:induction false} MarkAddsOnlyTheMarker(f: Fault, s: Sentinel)
    ensures Is(MarkTransient(f), s) <==> s == SignerTransient || Is(f, s)
  {
    var causes := MarkTransient(f).causes;
    assert causes[1..] == [f] && [f][1..] == [];
    assert Is(causes[0], s) <==> s == SignerTransient by { assert SentinelFault(SignerTransient).causes == []; }
    assert IsAny([f], s) <==> Is(f, s);
    assert IsAny(causes, s) <==> Is(causes[0], s) || IsAny(causes[1..], s);
  }

  /** Marking an error makes it transient unless something in it refuses. */
  lemma {:induction false} MarkingMakesTransient(f: Fault)
    ensures Classify(MarkTransient(f)) == Transient <==> !Is(f, PolicyRefusal) && !IsRejection(f)
  {
    MarkAddsOnlyTheMarker(f, PolicyRefusal);
    MarkAddsOnlyTheMarker(f, SignatureMismatch);
    MarkAddsOnlyTheMarker(f, MissingSigner);
    MarkAddsOnlyTheMarker(f, TooManySignatures);
    MarkAddsOnlyTheMarker(f, SignerTransient);
  }

  // ---------- One call of a chain ----------

  datatype Answer<+V> = Signed(value: V) | Failed(err: Fault)

  datatype Outcome = Succeeded | TransientFailure | TerminalFailure | Skipped

  datatype Attempt = Attempt(index: nat, outcome: Outcome, err: Option<Fault>)

  datatype Stop =
    | Cancelled
    | TerminalAt(index: nat, err: Fault)
    | Exhausted
    | NotMet(agreed: nat)
    | Disagreement(agreedBy: seq<nat>, index: nat)

  /** What one call of Sign sees. `marshal` is a value's XDR encoding. */
  datatype Round<!V> = Round(answers: seq<Answer<V>>, cancelled: nat -> bool, marshal: V -> Result<seq<byte>, Fault>,
                             quorum: nat)
  {
    function FailureAt(i: nat): Attempt
      requires i < |answers| && answers[i].Failed?
    {
      var err := answers[i].err;
      Attempt(i, if cancelled(2 * i + 1) || Classify(err) == Terminal then TerminalFailure else TransientFailure,
              Some(err))
    }

    /** Signer i was asked and failed in a way that lets the chain continue. */
    predicate FailsTransiently(i: nat) {
      i < |answers| && answers[i].Failed? && FailureAt(i).outcome == TransientFailure
    }

    // ----- Fallback -----

    /** A fallback call that comes to signer i goes on to the next one. */
    predicate MovesOn(i: nat) {
      !cancelled(2 * i) && FailsTransiently(i)
    }

    predicate ReachedFallback(i: nat) {
      forall j :: 0 <= j < i ==> MovesOn(j)
    }

    /** Signer i is asked: every signer before it failed transiently. */
    predicate AskedFallback(i: nat) {
      ReachedFallback(i) && !cancelled(2 * i)
    }

    /** What the audit log must say about signer i, whatever the other entries say. */
    function FallbackAttempt(i: nat): Attempt
      requires i < |answers|
    {
      if !AskedFallback(i) then Attempt(i, Skipped, None)
      else if answers[i].Signed? then Attempt(i, Succeeded, None)
      else FailureAt(i)
    }

    /** The call ends at i: the first signer it does not move on from, or past the last one. */
    predicate FallbackEnds(i: nat) {
      i <= |answers| && ReachedFallback(i) && (i < |answers| ==> !MovesOn(i))
    }

    function FallbackResult(i: nat): Result<V, Stop>
      requires i <= |answers|
    {
      if i == |answers| then Err(Exhausted)
      else if cancelled(2 * i) then Err(Cancelled)
      else match answers[i]
        case Signed(v) => Ok(v)
        case Failed(err) => if cancelled(2 * i + 1) then Err(Cancelled) else Err(TerminalAt(i, err))
    }

    // ----- Quorum -----

    /** The signers among the first k that returned a signature. */
    function Signers(k: nat): (s: seq<nat>)
      requires k <= |answers|
      ensures |s| <= k
    {
      if k == 0 then []
      else if answers[k - 1].Signed? then Signers(k - 1) + [k - 1]
      else Signers(k - 1)
    }

    /** Signer i returned a signature whose bytes differ from an earlier one's. */
    predicate Disagrees(i: nat) {
      && i < |answers| && answers[i].Signed?
      && exists j :: 0 <= j < i && answers[j].Signed? && marshal(answers[j].value) != marshal(answers[i].value)
    }

    predicate Unencodable(i: nat) {
      i < |answers| && answers[i].Signed? && marshal(answers[i].value).Err?
    }

    /** Signer i's answer ends a quorum call: terminal, unencodable or disagreeing. */
    predicate Breaks(i: nat) {
      i < |answers| && if answers[i].Failed? then !FailsTransiently(i) else Unencodable(i) || Disagrees(i)
    }

    predicate Reachable(i: nat)
      requires i <= |answers|
    {
      |Signers(i)| + (|answers| - i) >= quorum
    }

    /** A quorum call that comes to signer i goes on to the next one. */
    predicate Continues(i: nat) {
      i < |answers| && !cancelled(2 * i) && Reachable(i) && !Breaks(i) && |Signers(i + 1)| < quorum
    }

    predicate ReachedQuorum(i: nat) {
      forall j :: 0 <= j < i ==> Continues(j)
    }

    predicate AskedQuorum(i: nat)
      requires i < |answers|
    {
      ReachedQuorum(i) && !cancelled(2 * i) && Reachable(i)
    }

    function QuorumAttempt(i: nat): Attempt
      requires i < |answers|
    {
      if !AskedQuorum(i) then Attempt(i, Skipped, None)
      else if answers[i].Failed? then FailureAt(i)
      else if Unencodable(i) then Attempt(i, TerminalFailure, Some(marshal(answers[i].value).error))
      else if Disagrees(i) then Attempt(i, TerminalFailure, None)
      else Attempt(i, Succeeded, None)
    }

    predicate QuorumEnds(i: nat) {
      i <= |answers| && ReachedQuorum(i) && (i < |answers| ==> !Continues(i))
    }

    function QuorumResult(i: nat): Result<V, Stop>
      requires i <= |answers|
    {
      if i == |answers| then Err(NotMet(|Signers(i)|))
      else if cancelled(2 * i) then Err(Cancelled)
      else if !Reachable(i) then Err(NotMet(|Signers(i)|))
      else match answers[i]
        case Failed(err) => if cancelled(2 * i + 1) then Err(Cancelled) else Err(TerminalAt(i, err))
        case Signed(v) =>
          if Unencodable(i) then Err(TerminalAt(i, marshal(v).error))
          else if Disagrees(i) then Err(Disagreement(Signers(i), i))
          else Ok(v)
    }
  }

  // ---------- The loops ----------

  /** Signers i, i + 1, ... n - 1, all skipped. */
  method SkipFrom(attempts: seq<Attempt>, i: nat, n: nat) returns (all: seq<Attempt>)
    requires i <= n && |attempts| == i
    ensures |all| == n && all[..i] == attempts
    ensures forall j :: i <= j < n ==> all[j] == Attempt(j, Skipped, None)
  {
    all := attempts;
    for k := i to n
      invariant |all| == k && all[..i] == attempts
      invariant forall j :: i <= j < k ==> all[j] == Attempt(j, Skipped, None)
    {
      all := all + [Attempt(k, Skipped, None)];
    }
  }

  /** One log entry per signer, in index order, each what that signer's entry must be. */
  ghost predicate FallbackLog<V>(round: Round<V>, log: seq<Attempt>) {
    |log| == |round.answers| && forall i :: 0 <= i < |log| ==> log[i] == round.FallbackAttempt(i)
  }

  /** Exactly the first `called` signers were asked. */
  ghost predicate FallbackCalls<V>(round: Round<V>, called: nat) {
    called <= |round.answers| && forall i :: 0 <= i < |round.answers| ==> (i < called <==> round.AskedFallback(i))
  }

  /** The result is the one at the place where the call ends. */
  ghost predicate FallbackReturns<V>(round: Round<V>, r: Result<V, Stop>) {
    exists i :: round.FallbackEnds(i) && r == round.FallbackResult(i)
  }

  lemma {:induction false} FallbackDone<V>(round: Round<V>, i: nat, r: Result<V, Stop>, log: seq<Attempt>, called: nat)
    requires i < |round.answers| && round.FallbackEnds(i) && r == round.FallbackResult(i)
    requires called == if round.cancelled(2 * i) then i else i + 1
    requires |log| == |round.answers| && forall j :: 0 <= j < i ==> log[j] == round.FallbackAttempt(j)
    requires log[i] == round.FallbackAttempt(i) && forall j :: i < j < |log| ==> log[j] == Attempt(j, Skipped, None)
    ensures FallbackLog(round, log) && FallbackCalls(round, called) && FallbackReturns(round, r)
  {
    forall j | 0 <= j < |log| ensures log[j] == round.FallbackAttempt(j) && (j < called <==> round.AskedFallback(j)) {
      assert i < j ==> !round.AskedFallback(j) by { assert !round.MovesOn(i); }
      assert j < i ==> round.AskedFallback(j) by { assert j < i ==> round.MovesOn(j); }
    }
  }

  /** signFallback: signers are asked in order, `called` of them in all. */
  method SignFallback<V>(round: Round<V>) returns (r: Result<V, Stop>, attempts: seq<Attempt>, called: nat)
    ensures FallbackLog(round, attempts) && FallbackCalls(round, called)
    ensures FallbackReturns(round, r)
  {
    attempts, called := [], 0;
    var n := |round.answers|;
    for i := 0 to n
      invariant |attempts| == called == i && round.ReachedFallback(i)
      invariant forall j :: 0 <= j < i ==> attempts[j] == round.FallbackAttempt(j)
    {
      if round.cancelled(2 * i) {
        attempts := SkipFrom(attempts, i, n);
        r := Err(Cancelled);
        FallbackDone(round, i, r, attempts, called);
        return;
      }
      var answer := round.answers[i];
      called := called + 1;
      if answer.Signed? {
        attempts := SkipFrom(attempts + [Attempt(i, Succeeded, None)], i + 1, n);
        r := Ok(answer.value);
        FallbackDone(round, i, r, attempts, called);
        return;
      }
      if round.cancelled(2 * i + 1) {
        attempts := SkipFrom(attempts + [Attempt(i, TerminalFailure, Some(answer.err))], i + 1, n);
        r := Err(Cancelled);
        FallbackDone(round, i, r, attempts, called);
        return;
      }
      if Classify(answer.err) == Terminal {
        attempts := SkipFrom(attempts + [Attempt(i, TerminalFailure, Some(answer.err))], i + 1, n);
        r := Err(TerminalAt(i, answer.err));
        FallbackDone(round, i, r, attempts, called);
        return;
      }
      attempts := attempts + [Attempt(i, TransientFailure, Some(answer.err))];
    }
    AllAskedFallback(round);
    assert round.FallbackEnds(n);
    return Err(Exhausted), attempts, called;
  }

  lemma {:induction false} AllAskedFallback<V>(round: Round<V>)
    requires round.ReachedFallback(|round.answers|)
    ensures FallbackCalls(round, |round.answers|)
  {
    forall i | 0 <= i < |round.answers| ensures round.AskedFallback(i) {
      assert round.MovesOn(i);
    }
  }

  ghost predicate QuorumLog<V>(round: Round<V>, log: seq<Attempt>) {
    |log| == |round.answers| && forall i :: 0 <= i < |log| ==> log[i] == round.QuorumAttempt(i)
  }

  ghost predicate QuorumCalls<V>(round: Round<V>, called: nat) {
    called <= |round.answers| && forall i :: 0 <= i < |round.answers| ==> (i < called <==> round.AskedQuorum(i))
  }

  /** The result is the one at the place where the call ends. */
  ghost predicate QuorumReturns<V>(round: Round<V>, r: Result<V, Stop>) {
    exists i :: round.QuorumEnds(i) && r == round.QuorumResult(i)
  }

  lemma {:induction false} QuorumDone<V>(round: Round<V>, i: nat, r: Result<V, Stop>, log: seq<Attempt>, called: nat)
    requires i < |round.answers| && round.QuorumEnds(i) && r == round.QuorumResult(i)
    requires called == if round.cancelled(2 * i) || !round.Reachable(i) then i else i + 1
    requires LogEndsAt(round, i, log)
    ensures QuorumLog(round, log) && QuorumCalls(round, called) && QuorumReturns(round, r)
  {
    forall j | 0 <= j < |log| ensures log[j] == round.QuorumAttempt(j) && (j < called <==> round.AskedQuorum(j)) {
      assert i < j ==> !round.AskedQuorum(j) by { assert !round.Continues(i); }
      assert j < i ==> round.AskedQuorum(j) by { assert j < i ==> round.Continues(j); }
    }
  }

  /** Every signature among the first k answers encodes to these bytes. */
  ghost predicate AllReturned<V>(round: Round<V>, k: nat, bytes: seq<byte>)
    requires k <= |round.answers|
  {
    forall j :: 0 <= j < k && round.answers[j].Signed? ==> round.marshal(round.answers[j].value) == Ok(bytes)
  }

  /** Comparing with the last agreed bytes is comparing with every signature so far. */
  lemma {:induction false} DisagreesMeans<V>(round: Round<V>, i: nat, bytes: seq<byte>)
    requires i < |round.answers| && round.answers[i].Signed? && AllReturned(round, i, bytes)
    ensures round.Disagrees(i) <==> round.Signers(i) != [] && round.marshal(round.answers[i].value) != Ok(bytes)
  {
    SignersAreThose(round, i);
    if round.Signers(i) != [] {
      var j := round.Signers(i)[0];
      assert j in round.Signers(i);
      assert round.answers[j].Signed?;
    }
    if round.Disagrees(i) {
      var j :| 0 <= j < i && round.answers[j].Signed?
               && round.marshal(round.answers[j].value) != round.marshal(round.answers[i].value);
      assert j in round.Signers(i);
    }
  }

  /** The loop of signQuorum before signer i: the log so far and the signature agreed on so far. */
  ghost predicate QuorumState<V>(round: Round<V>, i: nat, log: seq<Attempt>, agreedBytes: seq<byte>,
                                 agreedBy: seq<nat>) {
    && i <= |round.answers| && round.ReachedQuorum(i)
    && |log| == i && (forall j :: 0 <= j < i ==> log[j] == round.QuorumAttempt(j))
    && agreedBy == round.Signers(i) && |agreedBy| < round.quorum && AllReturned(round, i, agreedBytes)
  }

  /** signQuorum: signers are asked in order, `called` of them in all. */
  method SignQuorum<V>(round: Round<V>) returns (r: Result<V, Stop>, attempts: seq<Attempt>, called: nat)
    requires round.quorum > 0
    ensures QuorumLog(round, attempts) && QuorumCalls(round, called) && QuorumReturns(round, r)
  {
    attempts, called := [], 0;
    var agreedBytes, agreedBy := [], [];
    var n := |round.answers|;
    for i := 0 to n
      invariant called == i && QuorumState(round, i, attempts, agreedBytes, agreedBy)
    {
      if round.cancelled(2 * i) {
        attempts := SkipFrom(attempts, i, n);
        r := Err(Cancelled);
        QuorumDone(round, i, r, attempts, called);
        return;
      }
      if |agreedBy| + (n - i) < round.quorum {
        attempts := SkipFrom(attempts, i, n);
        r := Err(NotMet(|agreedBy|));
        QuorumDone(round, i, r, attempts, called);
        return;
      }
      called := called + 1;
      var end: Option<Result<V, Stop>>;
      match round.answers[i] {
      case Failed(err) =>
        end, attempts := TakeFailure(round, i, err, attempts, agreedBytes, agreedBy);
      case Signed(value) =>
        end, attempts, agreedBytes, agreedBy := TakeSignature(round, i, value, attempts, agreedBytes, agreedBy);
      }
      if end.Some? {
        r := end.value;
        QuorumDone(round, i, r, attempts, called);
        return;
      }
    }
    AllAskedQuorum(round);
    assert round.QuorumEnds(n);
    return Err(NotMet(|agreedBy|)), attempts, called;
  }

  /** A log that ends the call at signer i: what came before, i's own entry, and the rest skipped. */
  ghost predicate LogEndsAt<V>(round: Round<V>, i: nat, log: seq<Attempt>) {
    && i < |round.answers| == |log|
    && (forall j :: 0 <= j < i ==> log[j] == round.QuorumAttempt(j)) && log[i] == round.QuorumAttempt(i)
    && forall j :: i < j < |log| ==> log[j] == Attempt(j, Skipped, None)
  }

  /** i's own entry after those before it, and SkipFrom after that, is a log that ends at i. */
  lemma {:induction false} LogEnds<V>(round: Round<V>, i: nat, log: seq<Attempt>, own: Attempt, all: seq<Attempt>)
    requires i < |round.answers| == |all| && |log| == i && own == round.QuorumAttempt(i)
    requires forall j :: 0 <= j < i ==> log[j] == round.QuorumAttempt(j)
    requires all[..i + 1] == log + [own] && forall j :: i < j < |all| ==> all[j] == Attempt(j, Skipped, None)
    ensures LogEndsAt(round, i, all)
  {
    assert forall j :: 0 <= j <= i ==> all[j] == (log + [own])[j];
  }

  lemma {:induction false} BreakEnds<V>(round: Round<V>, i: nat)
    requires i < |round.answers| && round.ReachedQuorum(i) && round.Breaks(i)
    ensures round.QuorumEnds(i)
  {
    assert !round.Continues(i);
  }

  /** The part of the loop body that handles a signer's error. */
  method TakeFailure<V>(round: Round<V>, i: nat, err: Fault, log: seq<Attempt>, agreedBytes: seq<byte>,
                        agreedBy: seq<nat>)
    returns (end: Option<Result<V, Stop>>, attempts: seq<Attempt>)
    requires QuorumState(round, i, log, agreedBytes, agreedBy)
    requires i < |round.answers| && round.AskedQuorum(i) && round.answers[i] == Failed(err)
    ensures end.Some? ==> round.QuorumEnds(i) && end.value == round.QuorumResult(i) && LogEndsAt(round, i, attempts)
    ensures end.None? ==> QuorumState(round, i + 1, attempts, agreedBytes, agreedBy)
  {
    var failed := Attempt(i, TerminalFailure, Some(err));
    if round.cancelled(2 * i + 1) {
      attempts := SkipFrom(log + [failed], i + 1, |round.answers|);
      BreakEnds(round, i);
      LogEnds(round, i, log, failed, attempts);
      return Some(Err(Cancelled)), attempts;
    }
    if Classify(err) == Terminal {
      attempts := SkipFrom(log + [failed], i + 1, |round.answers|);
      BreakEnds(round, i);
      LogEnds(round, i, log, failed, attempts);
      return Some(Err(TerminalAt(i, err))), attempts;
    }
    return None, log + [Attempt(i, TransientFailure, Some(err))];
  }

  /** A signature that agrees either completes the quorum or takes the loop to the next signer. */
  lemma {:induction false} Agreed<V>(round: Round<V>, i: nat, log: seq<Attempt>, agreedBytes: seq<byte>,
                                     agreedBy: seq<nat>,
                                     encoded: seq<byte>)
    requires QuorumState(round, i, log, agreedBytes, agreedBy)
    requires i < |round.answers| && round.AskedQuorum(i) && round.answers[i].Signed?
    requires round.marshal(round.answers[i].value) == Ok(encoded) && (agreedBy == [] || encoded == agreedBytes)
    ensures !round.Breaks(i) && round.QuorumAttempt(i) == Attempt(i, Succeeded, None)
    ensures |agreedBy| + 1 == round.quorum ==>
              round.QuorumEnds(i) && round.QuorumResult(i) == Ok(round.answers[i].value)
    ensures |agreedBy| + 1 != round.quorum ==>
              QuorumState(round, i + 1, log + [Attempt(i, Succeeded, None)], encoded, agreedBy + [i])
  {
    DisagreesMeans(round, i, agreedBytes);
    SignersAreThose(round, i);
    assert round.Signers(i + 1) == agreedBy + [i];
    assert round.Continues(i) <==> |agreedBy| + 1 < round.quorum;
  }

  /** The part of the loop body that compares a signature with those before it. */
  method TakeSignature<V>(round: Round<V>, i: nat, value: V, log: seq<Attempt>, bytes: seq<byte>, agreed: seq<nat>)
    returns (end: Option<Result<V, Stop>>, attempts: seq<Attempt>, agreedBytes: seq<byte>, agreedBy: seq<nat>)
    requires QuorumState(round, i, log, bytes, agreed)
    requires i < |round.answers| && round.AskedQuorum(i) && round.answers[i] == Signed(value)
    ensures end.Some? ==> round.QuorumEnds(i) && end.value == round.QuorumResult(i) && LogEndsAt(round, i, attempts)
    ensures end.None? ==> QuorumState(round, i + 1, attempts, agreedBytes, agreedBy)
  {
    agreedBytes, agreedBy := bytes, agreed;
    var encoded := round.marshal(value);
    if encoded.Err? {
      var failed := Attempt(i, TerminalFailure, Some(encoded.error));
      attempts := SkipFrom(log + [failed], i + 1, |round.answers|);
      end := Some(Err(TerminalAt(i, encoded.error)));
      BreakEnds(round, i);
      LogEnds(round, i, log, failed, attempts);
      return;
    }
    if agreedBy != [] && encoded.value != agreedBytes {
      var failed := Attempt(i, TerminalFailure, None);
      attempts := SkipFrom(log + [failed], i + 1, |round.answers|);
      end := Some(Err(Disagreement(agreedBy, i)));
      DisagreesMeans(round, i, agreedBytes);
      BreakEnds(round, i);
      LogEnds(round, i, log, failed, attempts);
      return;
    }
    Agreed(round, i, log, agreedBytes, agreedBy, encoded.value);
    attempts := log + [Attempt(i, Succeeded, None)];
    agreedBytes, agreedBy := encoded.value, agreedBy + [i];
    end := None;
    if |agreedBy| == round.quorum {
      attempts := SkipFrom(attempts, i + 1, |round.answers|);
      end := Some(Ok(value));
      LogEnds(round, i, log, Attempt(i, Succeeded, None), attempts);
    }
  }

  lemma {:induction false} AllAskedQuorum<V>(round: Round<V>)
    requires round.ReachedQuorum(|round.answers|)
    ensures QuorumCalls(round, |round.answers|)
  {
    forall i | 0 <= i < |round.answers| ensures round.AskedQuorum(i) {
      assert round.Continues(i);
    }
  }

  // ---------- What the results mean ----------

  /** A call ends at one place, so its result is determined. */
  lemma {:induction false} EndsOnce<V>(round: Round<V>, i: nat, j: nat)
    ensures round.FallbackEnds(i) && round.FallbackEnds(j) ==> i == j
    ensures round.QuorumEnds(i) && round.QuorumEnds(j) ==> i == j
  {
    assert i < j && round.ReachedFallback(j) ==> round.MovesOn(i);
    assert j < i && round.ReachedFallback(i) ==> round.MovesOn(j);
    assert i < j && round.ReachedQuorum(j) ==> round.Continues(i);
    assert j < i && round.ReachedQuorum(i) ==> round.Continues(j);
  }

  lemma {:induction false} SignersAreThose<V>(round: Round<V>, k: nat)
    requires k <= |round.answers|
    ensures forall j :: j in round.Signers(k) <==> 0 <= j < k && round.answers[j].Signed?
  {
    if k > 0 {
      SignersAreThose(round, k - 1);
    }
  }

  lemma {:induction false} SignersGrow<V>(round: Round<V>, i: nat, k: nat)
    requires i <= k <= |round.answers|
    ensures |round.Signers(i)| <= |round.Signers(k)| <= |round.Signers(i)| + (k - i)
  {
    if i < k {
      SignersGrow(round, i, k - 1);
    }
  }

  lemma {:induction false} BelowQuorum<V>(round: Round<V>, i: nat, k: nat)
    requires k <= i <= |round.answers| && round.ReachedQuorum(i) && round.quorum > 0
    ensures |round.Signers(k)| < round.quorum
  {
    if k > 0 {
      assert round.Continues(k - 1);
    }
  }

  /** The first k answers are neither terminal, unencodable nor disagreeing, and hold `quorum` signatures. */
  ghost predicate EnoughBefore<V>(round: Round<V>, k: nat) {
    && k <= |round.answers| && (forall i :: 0 <= i < k ==> !round.Breaks(i))
    && |round.Signers(k)| >= round.quorum
  }

  lemma {:induction false} CleanBefore<V>(round: Round<V>, i: nat)
    requires round.QuorumEnds(i) && i < |round.answers| && round.QuorumResult(i).Ok? && round.quorum > 0
    ensures EnoughBefore(round, i + 1) && |round.Signers(i + 1)| == round.quorum
  {
    forall j | 0 <= j < i ensures !round.Breaks(j) {
      assert round.Continues(j);
    }
    BelowQuorum(round, i, i);
  }

  lemma {:induction false} FailureBelowQuorum<V>(round: Round<V>, i: nat, k: nat)
    requires round.QuorumEnds(i) && round.QuorumResult(i).Err? && round.quorum > 0 && forall m :: !round.cancelled(m)
    ensures !EnoughBefore(round, k)
  {
    if k <= i {
      BelowQuorum(round, i, k);
    } else if k <= |round.answers| && !round.Breaks(i) {
      BelowQuorum(round, i, i);
      assert !round.Reachable(i);
      SignersGrow(round, i, k);
    }
  }

  /**
   Without cancellation a quorum call signs exactly when the answers before the first one that
   breaks the call hold `quorum` signatures: giving up early never loses a signature.
   */
  lemma {:induction false} QuorumSignsExactly<V>(round: Round<V>, i: nat)
    requires round.QuorumEnds(i) && round.quorum > 0 && forall m :: !round.cancelled(m)
    ensures round.QuorumResult(i).Ok? <==> exists k :: EnoughBefore(round, k)
  {
    if round.QuorumResult(i).Ok? {
      CleanBefore(round, i);
    } else {
      forall k: nat ensures !EnoughBefore(round, k) {
        FailureBelowQuorum(round, i, k);
      }
    }
  }

  /** The signature returned is the one that exactly `quorum` signers gave, byte for byte. */
  lemma {:induction false} QuorumIsUnanimous<V>(round: Round<V>, i: nat)
    requires round.QuorumEnds(i) && round.QuorumResult(i).Ok? && round.quorum > 0
    ensures i < |round.answers| && |round.Signers(i + 1)| == round.quorum
    ensures forall j :: j in round.Signers(i + 1) ==>
                          && j < |round.answers| && round.answers[j].Signed?
                          && round.marshal(round.answers[j].value) == round.marshal(round.QuorumResult(i).value)
  {
    CleanBefore(round, i);
    SignersAreThose(round, i + 1);
    assert !round.Disagrees(i);
  }

  /** The error a chain returns: a ChainError around an error that names the cause. */
  function ChainFault(text: string, cause: Fault): Fault {
    Fault(None, text, [Fault(None, text, [cause])])
  }

  /** A refusal ends the chain that meets it, and what that chain returns ends any chain around it. */
  lemma {:induction false} RefusalEndsChains<V>(round: Round<V>, i: nat, err: Fault, text: string)
    requires i < |round.answers| && round.answers[i] == Failed(err) && Wraps(err, PolicyRefusal)
    ensures round.ReachedFallback(i) ==> round.FallbackEnds(i) && round.FallbackResult(i).Err?
    ensures round.ReachedQuorum(i) ==> round.QuorumEnds(i) && round.QuorumResult(i).Err?
    ensures Classify(ChainFault(text, err)) == Terminal
  {
    RefusalIsTerminal(err);
    var inner := ChainFault(text, err).causes[0];
    assert err in inner.causes;
    RefusalIsTerminal(inner);
    assert inner in ChainFault(text, err).causes;
  }
}
