/**
 batch_sign.go: AuthorizeBatch, one goroutine per entry behind a counting semaphore.

 Goroutines are modelled by the steps they take, in any interleaving: take a slot of the
 semaphore, find the entry's signers, ask them one by one, write the result, give the slot back.
 */
module BatchSigning {
  import opened Wrappers
  import opened Xdr
  import opened Preimages
  import opened Authorization
  import opened Delegates
  import opened Batches

  // ---------- One entry ----------

  /** authorizeOne. */
  function One(entry: Entry, signers: seq<Option<Signer>>, expiration: u32, passphrase: string):
    (r: Result<Entry, Error>)
  {
    if entry.credentials.SourceAccount? then Ok(entry)
    else
      var creds :- GetCredentials(entry.credentials);
      var _ :- FormatAddress(creds.address);
      var nodes :- NodesOf(entry);
      var matched := Matched(signers, nodes);
      if matched == [] then Err(MissingSigner) else SignEach(entry, matched, expiration, passphrase)
  }

  method AuthorizeOne(entry: Entry, signers: seq<Option<Signer>>, expiration: u32, passphrase: string)
    returns (r: Result<Entry, Error>)
    ensures r == One(entry, signers, expiration, passphrase)
  {
    if entry.credentials.SourceAccount? {
      return Ok(entry);
    }
    var creds :- GetCredentials(entry.credentials);
    var _ :- FormatAddress(creds.address);
    var matched :- SignersForEntry(entry, signers);
    if |matched| == 0 {
      return Err(MissingSigner);
    }
    var signed := entry;
    for k := 0 to |matched|
      invariant SignEach(entry, matched, expiration, passphrase)
                == SignEach(signed, matched[k..], expiration, passphrase)
    {
      assert matched[k..][0] == matched[k] && matched[k..][1..] == matched[k + 1..];
      var s := matched[k];
      var next, _ := AuthorizeEntry(signed, Some(s), expiration, passphrase, Options(Some(s.address), false, []),
                                    false);
      signed :- next;
    }
    return Ok(signed);
  }

  // ---------- The schedules ----------

  /** Where a goroutine is inside authorizeOne, with the variables it has there. */
  datatype Local =
    | Called
    | Looping(signed: Entry, matched: seq<Signer>, next: nat)
    | Returned(result: Result<Entry, Error>)

  /** Where goroutine i is: not yet admitted, holding a slot, written and still holding it, finished. */
  datatype Phase = Waiting | Signing(local: Local) | Wrote | Finished

  /** `inFlight` is the number of tokens in the semaphore channel. */
  datatype Pool = Pool(phase: seq<Phase>, slots: seq<Option<Result<Entry, Error>>>, inFlight: nat)

  /** Match is authorizeOne up to its loop, SignNext one turn of the loop, Store the write to results or errs. */
  datatype Action = Acquire(i: nat) | Match(i: nat) | SignNext(i: nat) | Store(i: nat) | Release(i: nat)

  /** A batch with its arguments fixed. */
  datatype Batch = Batch(entries: seq<Entry>, signers: seq<Option<Signer>>, expiration: u32, passphrase: string,
                         maxWorkers: int)
  {
    /** Fewer than one worker, the default included, means one. */
    function Workers(): (n: nat)
      ensures n >= 1
    {
      if maxWorkers < 1 then 1 else maxWorkers
    }

    function Start(): (p: Pool) {
      Pool(seq(|entries|, _ => Waiting), seq(|entries|, _ => None), 0)
    }

    /** A send on the full channel blocks; every other step can always be taken in its phase. */
    predicate Enabled(p: Pool, a: Action) {
      a.i < |p.phase| && |p.slots| == |p.phase| == |entries|
      && match a
         case Acquire(i) => p.phase[i].Waiting? && p.inFlight < Workers()
         case Match(i) => p.phase[i].Signing? && p.phase[i].local.Called?
         case SignNext(i) =>
           p.phase[i].Signing? && p.phase[i].local.Looping? && p.phase[i].local.next < |p.phase[i].local.matched|
         case Store(i) => p.phase[i].Signing? && p.phase[i].local.Returned?
         case Release(i) => p.phase[i].Wrote? && p.inFlight > 0
    }

    /** authorizeOne before its loop: the early returns, and the signers that match. */
    function Begin(entry: Entry): (l: Local) {
      if entry.credentials.SourceAccount? then Returned(Ok(entry))
      else
        match GetCredentials(entry.credentials)
        case Err(e) => Returned(Err(e))
        case Ok(creds) =>
          match FormatAddress(creds.address)
          case Err(e) => Returned(Err(e))
          case Ok(_) =>
            match NodesOf(entry)
            case Err(e) => Returned(Err(e))
            case Ok(nodes) =>
              var matched := Matched(signers, nodes);
              if matched == [] then Returned(Err(MissingSigner)) else Looping(entry, matched, 0)
    }

    /** One turn of the loop: one AuthorizeEntry call on what the goroutine has signed so far. */
    function Turn(signed: Entry, matched: seq<Signer>, next: nat): (l: Local)
      requires next < |matched|
    {
      match SignOne(signed, matched[next], expiration, passphrase)
      case Err(e) => Returned(Err(e))
      case Ok(more) => if next + 1 == |matched| then Returned(Ok(more)) else Looping(more, matched, next + 1)
    }

    function Do(p: Pool, a: Action): (q: Pool)
      requires Enabled(p, a)
    {
      match a
      case Acquire(i) => Pool(p.phase[i := Signing(Called)], p.slots, p.inFlight + 1)
      case Match(i) => Pool(p.phase[i := Signing(Begin(entries[i]))], p.slots, p.inFlight)
      case SignNext(i) =>
        var l := p.phase[i].local;
        Pool(p.phase[i := Signing(Turn(l.signed, l.matched, l.next))], p.slots, p.inFlight)
      case Store(i) => Pool(p.phase[i := Wrote], p.slots[i := Some(p.phase[i].local.result)], p.inFlight)
      case Release(i) => Pool(p.phase[i := Finished], p.slots, p.inFlight - 1)
    }

    /** A schedule runs when each of its steps is enabled when its turn comes. */
    predicate Runs(p: Pool, schedule: seq<Action>)
      decreases |schedule|
    {
      schedule == [] || (Enabled(p, schedule[0]) && Runs(Do(p, schedule[0]), schedule[1..]))
    }

    function After(p: Pool, schedule: seq<Action>): (q: Pool)
      requires Runs(p, schedule)
      decreases |schedule|
    {
      if schedule == [] then p else After(Do(p, schedule[0]), schedule[1..])
    }
  }

  /** The goroutines between taking a slot and giving it back. */
  function Holders(phase: seq<Phase>): (n: nat) {
    if phase == [] then 0
    else Holders(phase[..|phase| - 1]) + if phase[|phase| - 1].Signing? || phase[|phase| - 1].Wrote? then 1 else 0
  }

  lemma {:induction false} HoldersUpdate(phase: seq<Phase>, i: nat, f: Phase)
    requires i < |phase|
    ensures Holders(phase[i := f]) == Holders(phase)
              - (if phase[i].Signing? || phase[i].Wrote? then 1 else 0) + (if f.Signing? || f.Wrote? then 1 else 0)
  {
    var n := |phase| - 1;
    if i == n {
      assert phase[i := f][..n] == phase[..n];
    } else {
      assert phase[i := f][..n] == phase[..n][i := f];
      HoldersUpdate(phase[..n], i, f);
    }
  }

  lemma {:induction false} HoldersNone(phase: seq<Phase>)
    requires forall i :: 0 <= i < |phase| ==> !phase[i].Signing? && !phase[i].Wrote?
    ensures Holders(phase) == 0
  {
    if phase != [] {
      HoldersNone(phase[..|phase| - 1]);
    }
  }

  lemma {:induction false} HolderExists(phase: seq<Phase>, i: nat)
    requires i < |phase| && (phase[i].Signing? || phase[i].Wrote?)
    ensures Holders(phase) > 0
  {
    HoldersUpdate(phase, i, Waiting);
  }

  /** The loop invariant of authorizeOne: what is still to be signed completes what signing the entry alone returns. */
  ghost predicate OnCourse(b: Batch, i: nat, f: Phase)
    requires i < |b.entries|
  {
    f.Signing? ==>
      var alone := One(b.entries[i], b.signers, b.expiration, b.passphrase);
      match f.local
      case Called => true
      case Looping(signed, matched, next) =>
        next < |matched| && alone == SignEach(signed, matched[next..], b.expiration, b.passphrase)
      case Returned(result) => result == alone
  }

  /** What holds after every prefix of every schedule. */
  ghost predicate Inv(b: Batch, p: Pool) {
    && |p.phase| == |p.slots| == |b.entries|
    && p.inFlight == Holders(p.phase)
    && p.inFlight <= b.Workers()
    && (forall i :: 0 <= i < |b.entries| ==> OnCourse(b, i, p.phase[i]))
    && forall i :: 0 <= i < |b.entries| ==>
         if p.phase[i].Waiting? || p.phase[i].Signing? then p.slots[i] == None
         else p.slots[i] == Some(One(b.entries[i], b.signers, b.expiration, b.passphrase))
  }

  lemma {:induction false} BeginOnCourse(b: Batch, i: nat)
    requires i < |b.entries|
    ensures OnCourse(b, i, Signing(b.Begin(b.entries[i])))
  {
    var l := b.Begin(b.entries[i]);
    if l.Looping? {
      assert l.matched[0..] == l.matched;
    }
  }

  lemma {:induction false} TurnOnCourse(b: Batch, i: nat, l: Local)
    requires i < |b.entries| && l.Looping? && OnCourse(b, i, Signing(l))
    ensures OnCourse(b, i, Signing(b.Turn(l.signed, l.matched, l.next)))
  {
    var rest := l.matched[l.next..];
    assert rest[0] == l.matched[l.next] && rest[1..] == l.matched[l.next + 1..];
    SignEachFirst(l.signed, rest, b.expiration, b.passphrase);
    assert l.next + 1 == |l.matched| ==> rest[1..] == [];
  }

  lemma {:induction false} SignEachFirst(entry: Entry, signers: seq<Signer>, expiration: u32, passphrase: string)
    requires signers != []
    ensures var first := SignOne(entry, signers[0], expiration, passphrase);
            SignEach(entry, signers, expiration, passphrase)
            == if first.Err? then first
               else if |signers| == 1 then first
               else SignEach(first.value, signers[1..], expiration, passphrase)
  {
    if |signers| == 1 {
      assert signers[1..] == [];
    }
  }

  /** Every step of every goroutine, one signer's answer included, keeps the pool's invariant. */
  lemma {:induction false} StepKeepsInv(b: Batch, p: Pool, a: Action)
    requires Inv(b, p) && b.Enabled(p, a)
    ensures Inv(b, b.Do(p, a))
  {
    HoldersUpdate(p.phase, a.i, b.Do(p, a).phase[a.i]);
    assert OnCourse(b, a.i, p.phase[a.i]);
    match a
    case Match(i) => BeginOnCourse(b, i);
    case SignNext(i) => TurnOnCourse(b, i, p.phase[i].local);
    case _ =>
  }

  lemma {:induction false} StartInv(b: Batch)
    ensures Inv(b, b.Start())
  {
    HoldersNone(b.Start().phase);
  }

  lemma {:induction false} ScheduleKeepsInv(b: Batch, p: Pool, schedule: seq<Action>)
    requires Inv(b, p) && b.Runs(p, schedule)
    ensures Inv(b, b.After(p, schedule))
    decreases |schedule|
  {
    if schedule != [] {
      StepKeepsInv(b, p, schedule[0]);
      ScheduleKeepsInv(b, b.Do(p, schedule[0]), schedule[1..]);
    }
  }

  /**
   However the goroutines interleave, no more than maxWorkers entries are being signed at once, or
   one where maxWorkers is smaller; and one that waits can start exactly when fewer are.
   */
  lemma {:induction false} NeverMoreThanWorkers(b: Batch, schedule: seq<Action>, i: nat)
    requires b.Runs(b.Start(), schedule)
    ensures var p := b.After(b.Start(), schedule);
            var most := if b.maxWorkers < 1 then 1 else b.maxWorkers;
            && |Holding(p.phase)| <= most
            && (i < |p.phase| && p.phase[i].Waiting? ==> (b.Enabled(p, Acquire(i)) <==> |Holding(p.phase)| < most))
  {
    StartInv(b);
    ScheduleKeepsInv(b, b.Start(), schedule);
    HoldersCount(b.After(b.Start(), schedule).phase);
  }

  /** The entries being signed, or just signed and not yet released. */
  ghost function Holding(phase: seq<Phase>): set<nat> {
    set i: nat | i < |phase| && (phase[i].Signing? || phase[i].Wrote?)
  }

  lemma {:induction false} HoldersCount(phase: seq<Phase>)
    ensures Holders(phase) == |Holding(phase)|
  {
    if phase != [] {
      var n := |phase| - 1;
      HoldersCount(phase[..n]);
      assert n !in Holding(phase[..n]);
      assert Holding(phase) == Holding(phase[..n]) + if phase[n].Signing? || phase[n].Wrote? then {n} else {};
    }
  }

  // ---------- Every schedule ends, and none is stuck ----------

  /** The steps goroutine by goroutine still to come. */
  function Remaining(phase: seq<Phase>, signers: nat): (n: nat) {
    if phase == [] then 0
    else Remaining(phase[..|phase| - 1], signers) + StepsLeft(phase[|phase| - 1], signers)
  }

  /** With `signers` signers in all, the most steps a goroutine can still take. */
  function StepsLeft(f: Phase, signers: nat): nat {
    match f
    case Waiting => signers + 4
    case Signing(Called) => signers + 3
    case Signing(Looping(_, matched, next)) => if next <= |matched| then |matched| - next + 2 else 2
    case Signing(Returned(_)) => 2
    case Wrote => 1
    case Finished => 0
  }

  lemma {:induction false} RemainingUpdate(phase: seq<Phase>, signers: nat, i: nat, f: Phase)
    requires i < |phase|
    ensures Remaining(phase[i := f], signers)
            == Remaining(phase, signers) - StepsLeft(phase[i], signers) + StepsLeft(f, signers)
  {
    var n := |phase| - 1;
    if i == n {
      assert phase[i := f][..n] == phase[..n];
    } else {
      assert phase[i := f][..n] == phase[..n][i := f];
      RemainingUpdate(phase[..n], signers, i, f);
    }
  }

  lemma {:induction false} MatchedIsNoLonger(signers: seq<Option<Signer>>, nodes: seq<CredentialNode>)
    ensures |Matched(signers, nodes)| <= |signers|
  {
    if signers != [] {
      MatchedIsNoLonger(signers[..|signers| - 1], nodes);
    }
  }

  /** Each step uses up at least one of the steps left. */
  lemma {:induction false} StepUsesOne(b: Batch, p: Pool, a: Action)
    requires b.Enabled(p, a)
    ensures StepsLeft(b.Do(p, a).phase[a.i], |b.signers|) < StepsLeft(p.phase[a.i], |b.signers|)
  {
    if a.Match? && NodesOf(b.entries[a.i]).Ok? {
      MatchedIsNoLonger(b.signers, NodesOf(b.entries[a.i]).value);
    }
  }

  /** So a schedule has at most as many steps as there are left: four per entry, and one per signer and entry. */
  lemma {:induction false} ScheduleUsesSteps(b: Batch, p: Pool, schedule: seq<Action>)
    requires b.Runs(p, schedule)
    ensures |schedule| + Remaining(b.After(p, schedule).phase, |b.signers|) <= Remaining(p.phase, |b.signers|)
    decreases |schedule|
  {
    if schedule != [] {
      var a := schedule[0];
      StepUsesOne(b, p, a);
      RemainingUpdate(p.phase, |b.signers|, a.i, b.Do(p, a).phase[a.i]);
      ScheduleUsesSteps(b, b.Do(p, a), schedule[1..]);
    }
  }

  predicate AllFinished(p: Pool) {
    forall i :: 0 <= i < |p.phase| ==> p.phase[i].Finished?
  }

  /** The step a goroutine holding a slot takes next inside authorizeOne, or after it. */
  function NextOf(i: nat, l: Local): Action {
    match l
    case Called => Match(i)
    case Looping(_, _, _) => SignNext(i)
    case Returned(_) => Store(i)
  }

  /** Until all have finished, some goroutine can move: the semaphore cannot deadlock. */
  lemma {:induction false} SomeStepEnabled(b: Batch, p: Pool) returns (a: Action)
    requires Inv(b, p) && !AllFinished(p)
    ensures b.Enabled(p, a)
  {
    var i: nat :| i < |p.phase| && !p.phase[i].Finished?;
    match p.phase[i]
    case Signing(l) => a := NextOf(i, l);
    case Wrote =>
      HolderExists(p.phase, i);
      a := Release(i);
    case Waiting =>
      if p.inFlight < b.Workers() {
        a := Acquire(i);
      } else {
        var k := FindHolder(p.phase);
        a := if p.phase[k].Signing? then NextOf(k, p.phase[k].local) else Release(k);
      }
  }

  lemma {:induction false} FindHolder(phase: seq<Phase>) returns (k: nat)
    requires Holders(phase) > 0
    ensures k < |phase| && (phase[k].Signing? || phase[k].Wrote?)
  {
    k := |phase| - 1;
    if !(phase[k].Signing? || phase[k].Wrote?) {
      k := FindHolder(phase[..k]);
    }
  }

  // ---------- What the batch reports ----------

  datatype BatchResult = Signed(entries: seq<Entry>) | Failures(count: nat, first: nat, error: Error)

  function CountFailures(results: seq<Result<Entry, Error>>): (n: nat)
    ensures n <= |results|
  {
    if results == [] then 0
    else CountFailures(results[..|results| - 1]) + if results[|results| - 1].Err? then 1 else 0
  }

  ghost function Failing(results: seq<Result<Entry, Error>>): set<nat> {
    set i: nat | i < |results| && results[i].Err?
  }

  /** The count is of the entries that failed. */
  lemma {:induction false} FailuresCounted(results: seq<Result<Entry, Error>>)
    ensures CountFailures(results) == |Failing(results)|
  {
    if results != [] {
      var n := |results| - 1;
      FailuresCounted(results[..n]);
      assert n !in Failing(results[..n]);
      assert Failing(results) == Failing(results[..n]) + if results[n].Err? then {n} else {};
    }
  }

  /** What a batch result says of the per-entry results it was collected from. */
  ghost predicate Reports(r: BatchResult, results: seq<Result<Entry, Error>>) {
    match r
    case Signed(out) =>
      && |out| == |results|
      && forall i :: 0 <= i < |results| ==> results[i] == Ok(out[i])
    case Failures(count, first, error) =>
      && count == CountFailures(results) && count > 0
      && first < |results| && results[first] == Err(error)
      && forall i :: 0 <= i < first ==> results[i].Ok?
  }

  /** The loop over errs and, when nothing failed, over results. */
  method Collect(results: seq<Result<Entry, Error>>) returns (r: BatchResult)
    ensures Reports(r, results)
  {
    var failed, firstFailure := 0, -1;
    for i := 0 to |results|
      invariant failed == CountFailures(results[..i])
      invariant failed == 0 <==> firstFailure < 0
      invariant failed == 0 ==> forall k :: 0 <= k < i ==> results[k].Ok?
      invariant failed > 0 ==> 0 <= firstFailure < i && results[firstFailure].Err?
                               && forall k :: 0 <= k < firstFailure ==> results[k].Ok?
    {
      assert results[..i + 1][..i] == results[..i];
      if results[i].Err? {
        failed := failed + 1;
        if firstFailure < 0 {
          firstFailure := i;
        }
      }
    }
    assert results[..|results|] == results;
    if failed > 0 {
      return Failures(failed, firstFailure, results[firstFailure].error);
    }
    var out := [];
    for i := 0 to |results|
      invariant |out| == i && forall k :: 0 <= k < i ==> results[k] == Ok(out[k])
    {
      out := out + [results[i].value];
    }
    return Signed(out);
  }

  /** The slots of a finished pool. */
  function Gather(p: Pool): (results: seq<Result<Entry, Error>>)
    requires forall i :: 0 <= i < |p.slots| ==> p.slots[i].Some?
  {
    seq(|p.slots|, i requires 0 <= i < |p.slots| => p.slots[i].value)
  }

  /** Every entry signed on its own. */
  function EachAlone(b: Batch): (results: seq<Result<Entry, Error>>) {
    seq(|b.entries|, i requires 0 <= i < |b.entries| => One(b.entries[i], b.signers, b.expiration, b.passphrase))
  }

  /** Every complete schedule leaves in slot i what signing entry i alone returns. */
  lemma {:induction false} ScheduleResults(b: Batch, schedule: seq<Action>)
    requires b.Runs(b.Start(), schedule) && AllFinished(b.After(b.Start(), schedule))
    ensures var p := b.After(b.Start(), schedule);
            && |p.slots| == |b.entries|
            && forall i :: 0 <= i < |b.entries| ==>
                 p.slots[i] == Some(One(b.entries[i], b.signers, b.expiration, b.passphrase))
  {
    StartInv(b);
    ScheduleKeepsInv(b, b.Start(), schedule);
  }

  /** With no options, preparing and signing an entry in AuthorizeAll is signing it alone. */
  lemma {:induction false} PreparedIsOne(entry: Entry, signers: seq<Option<Signer>>, expiration: u32,
                                         passphrase: string)
    ensures var p := Prepare(entry, signers, expiration, map[]);
            var r := One(entry, signers, expiration, passphrase);
            && (p.Err? ==> r.Err?)
            && (p.Ok? ==> r == SignEach(p.value.entry, p.value.signers, expiration, passphrase))
  {
  }

  lemma {:induction false} ValidatedAt(entries: seq<Entry>, signers: seq<Option<Signer>>, expiration: u32,
                                       plans: map<Strkey, DelegatePlan>)
    ensures var v := Validate(entries, signers, expiration, plans);
            && (v.errors == []
                <==> forall i :: 0 <= i < |entries| ==> Prepare(entries[i], signers, expiration, plans).Ok?)
            && (v.errors == [] ==> |v.prepared| == |entries|
                                   && forall i :: 0 <= i < |entries| ==>
                                        Prepare(entries[i], signers, expiration, plans) == Ok(v.prepared[i]))
  {
    if entries != [] {
      ValidatedAt(entries[..|entries| - 1], signers, expiration, plans);
    }
  }

  function SignOf(p: Prepared, expiration: u32, passphrase: string): Result<Entry, Error> {
    SignEach(p.entry, p.signers, expiration, passphrase)
  }

  lemma {:induction false} SignAllAt(prepared: seq<Prepared>, expiration: u32, passphrase: string)
    ensures SignAll(prepared, expiration, passphrase).Ok?
            <==> forall p :: p in prepared ==> SignOf(p, expiration, passphrase).Ok?
    ensures var r := SignAll(prepared, expiration, passphrase);
            r.Ok? ==> |r.value| == |prepared|
                      && forall i :: 0 <= i < |prepared| ==>
                           SignOf(prepared[i], expiration, passphrase) == Ok(r.value[i])
  {
    if prepared != [] {
      var init, last := prepared[..|prepared| - 1], prepared[|prepared| - 1];
      SignAllAt(init, expiration, passphrase);
      SignAllLast(prepared, expiration, passphrase);
      assert forall p :: p in prepared <==> p in init || p == last;
    }
  }

  lemma {:induction false} SignAllLast(prepared: seq<Prepared>, expiration: u32, passphrase: string)
    requires prepared != []
    ensures var n := |prepared| - 1;
            var all, init := SignAll(prepared, expiration, passphrase), SignAll(prepared[..n], expiration, passphrase);
            var last := SignOf(prepared[n], expiration, passphrase);
            (all.Ok? <==> init.Ok? && last.Ok?) && (all.Ok? ==> all.value == init.value + [last.value])
  {
  }

  /** AuthorizeAll without options succeeds exactly when every entry signs alone, and returns just those entries. */
  lemma {:induction false} AllIsEachOne(entries: seq<Entry>, signers: seq<Option<Signer>>, expiration: u32,
                                        passphrase: string)
    ensures var all := AllOutcome(entries, signers, expiration, passphrase, map[], false, false);
            && (all.Ok? <==> forall i :: 0 <= i < |entries| ==> One(entries[i], signers, expiration, passphrase).Ok?)
            && (all.Ok? ==> |all.value| == |entries|
                            && forall i :: 0 <= i < |entries| ==>
                                 One(entries[i], signers, expiration, passphrase) == Ok(all.value[i]))
  {
    var v := Validate(entries, signers, expiration, map[]);
    ValidatedAt(entries, signers, expiration, map[]);
    SignAllAt(v.prepared, expiration, passphrase);
    forall i | 0 <= i < |entries|
      ensures Prepare(entries[i], signers, expiration, map[]).Err? ==>
                One(entries[i], signers, expiration, passphrase).Err?
      ensures v.errors == [] ==> One(entries[i], signers, expiration, passphrase)
                                 == SignOf(v.prepared[i], expiration, passphrase)
    {
      PreparedIsOne(entries[i], signers, expiration, passphrase);
    }
    var plans: map<Strkey, DelegatePlan> := map[];
    assert plans.Keys - v.used == {};
  }

  /**
   AuthorizeBatch, driven by any schedule that lets every goroutine finish. It returns what
   AuthorizeAll returns when that succeeds, fails when it fails, and always names the
   smallest failing index and the number of failures, whatever the interleaving.
   */
  method AuthorizeBatch(b: Batch, schedule: seq<Action>) returns (r: BatchResult)
    requires b.Runs(b.Start(), schedule) && AllFinished(b.After(b.Start(), schedule))
    ensures var all := AllOutcome(b.entries, b.signers, b.expiration, b.passphrase, map[], false, false);
            && (all.Ok? <==> r.Signed?)
            && (all.Ok? ==> r == Signed(all.value))
    ensures Reports(r, EachAlone(b))
  {
    var p := b.Start();
    for k := 0 to |schedule|
      invariant b.Runs(p, schedule[k..]) && b.After(p, schedule[k..]) == b.After(b.Start(), schedule)
    {
      assert schedule[k..][0] == schedule[k] && schedule[k..][1..] == schedule[k + 1..];
      p := b.Do(p, schedule[k]);
    }
    ScheduleResults(b, schedule);
    AllIsEachOne(b.entries, b.signers, b.expiration, b.passphrase);
    assert Gather(p) == EachAlone(b);
    r := Collect(Gather(p));
    SignedIsAll(b, EachAlone(b), r);
  }

  lemma {:induction false} SignedIsAll(b: Batch, results: seq<Result<Entry, Error>>, r: BatchResult)
    requires Reports(r, results) && |results| == |b.entries|
    requires forall i :: 0 <= i < |results| ==> results[i] == One(b.entries[i], b.signers, b.expiration, b.passphrase)
    ensures var all := AllOutcome(b.entries, b.signers, b.expiration, b.passphrase, map[], false, false);
            (all.Ok? <==> r.Signed?) && (all.Ok? ==> r == Signed(all.value))
  {
    var all := AllOutcome(b.entries, b.signers, b.expiration, b.passphrase, map[], false, false);
    AllIsEachOne(b.entries, b.signers, b.expiration, b.passphrase);
    if r.Signed? {
      assert forall i :: 0 <= i < |results| ==> results[i].Ok?;
      assert r.entries == all.value;
    } else {
      assert results[r.first].Err?;
    }
  }
}