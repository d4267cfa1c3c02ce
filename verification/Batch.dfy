/**
 batch.go: signing a whole batch, one entry after another.

 `AuthorizeAll` is the method; what it returns is stated by `AllOutcome`, entry by entry.
 */
module Batches {
  import opened Wrappers
  import opened Bytes
  import opened Xdr
  import opened Preimages
  import opened Authorization
  import opened Delegates

  // ---------- One call of AuthorizeEntry ----------

  /** What a call of AuthorizeEntry is given, apart from the entry, the expiration and the network. */
  datatype Call = Call(signer: Option<Signer>, options: Options, cancelled: bool)

  function Make(entry: Entry, c: Call, expiration: u32, passphrase: string): (r: Result<Entry, Error>) {
    Authorize(entry, c.signer, expiration, passphrase, c.options, c.cancelled).result
  }

  function Both(entry: Entry, a: Call, b: Call, expiration: u32, passphrase: string): (r: Result<Entry, Error>) {
    var next :- Make(entry, a, expiration, passphrase);
    Make(next, b, expiration, passphrase)
  }

  /** Both calls resolve to one address. */
  predicate SameResolved(a: Call, b: Call, expiration: u32) {
    var x, y := Resolve(a.signer, expiration, a.options), Resolve(b.signer, expiration, b.options);
    x.Ok? && y.Ok? && x.value.address == y.value.address
  }

  function Answer(entry: Entry, s: Signer, expiration: u32, passphrase: string): Result<ScVal, Error>
    requires Preimage(entry, expiration, passphrase).Ok?
  {
    var preimage := Preimage(entry, expiration, passphrase).value;
    s.sign(preimage, Sha256(preimage))
  }

  /** The conditions of a call, its signer's answer included, apart from the expiration guard. */
  predicate Allowed(entry: Entry, c: Call, expiration: u32, passphrase: string) {
    && entry.credentials.HasAddress() && !c.cancelled
    && Resolve(c.signer, expiration, c.options).Ok?
    && var target := Resolve(c.signer, expiration, c.options).value;
    && CheckOrder(entry.credentials).Ok?
    && Mentions(Nodes(entry), target.address)
    && (target.resign || !TargetSigned(Nodes(entry), target.address))
    && Preimage(entry, expiration, passphrase).Ok?
    && Answer(entry, c.signer.value, expiration, passphrase).Ok?
  }

  /** The entry a successful call returns. */
  function Written(entry: Entry, c: Call, expiration: u32, passphrase: string): (r: Entry)
    requires Allowed(entry, c, expiration, passphrase)
    ensures r.credentials.HasAddress()
  {
    Write(entry, Resolve(c.signer, expiration, c.options).value.address,
          Answer(entry, c.signer.value, expiration, passphrase).value, expiration)
  }

  /** A tree that already commits to another expiration. */
  predicate CommittedElsewhere(entry: Entry, expiration: u32) {
    entry.credentials.WithDelegateTree? && entry.credentials.creds.expiration != expiration && AnySigned(Nodes(entry))
  }

  lemma {:induction false} CallOutcome(entry: Entry, c: Call, expiration: u32, passphrase: string)
    requires entry.credentials.HasAddress()
    ensures Make(entry, c, expiration, passphrase).Ok?
            <==> Allowed(entry, c, expiration, passphrase) && !CommittedElsewhere(entry, expiration)
    ensures Make(entry, c, expiration, passphrase).Ok? ==>
              Make(entry, c, expiration, passphrase).value == Written(entry, c, expiration, passphrase)
  {
  }

  // ---------- Signing one entry with several signers ----------

  /** How a batch calls AuthorizeEntry for a signer. */
  function OwnCall(s: Signer): Call {
    Call(Some(s), Options(Some(s.address), false, []), false)
  }

  /** AuthorizeEntry with ForAddress(signer.Address()) and no AllowResign. */
  function SignOne(entry: Entry, s: Signer, expiration: u32, passphrase: string): (r: Result<Entry, Error>) {
    Make(entry, OwnCall(s), expiration, passphrase)
  }

  function SignEach(entry: Entry, signers: seq<Signer>, expiration: u32, passphrase: string): (r: Result<Entry, Error>)
    decreases |signers|
  {
    if signers == [] then Ok(entry)
    else
      var next :- SignOne(entry, signers[0], expiration, passphrase);
      SignEach(next, signers[1..], expiration, passphrase)
  }

  /** Both fail, or both succeed with one value: what a caller that ignores the error text can tell apart. */
  ghost predicate Alike<T>(a: Result<T, Error>, b: Result<T, Error>) {
    (a.Ok? <==> b.Ok?) && (a.Ok? ==> a == b)
  }

  predicate Signable(entry: Entry, s: Signer, expiration: u32, passphrase: string) {
    Allowed(entry, OwnCall(s), expiration, passphrase)
  }

  lemma {:induction false} OwnTarget(s: Signer, expiration: u32)
    ensures var r := Resolve(Some(s), expiration, OwnCall(s).options);
            && (r.Ok? <==> expiration != 0 && ParseAddress(s.address).Ok?)
            && (r.Ok? ==> r.value == Target(ParseAddress(s.address).value, false))
  {
    assert ParseScope([]) == Ok([]);
  }

  lemma {:induction false} SignOneOutcome(entry: Entry, s: Signer, expiration: u32, passphrase: string)
    requires entry.credentials.HasAddress()
    ensures SignOne(entry, s, expiration, passphrase).Ok?
            <==> Signable(entry, s, expiration, passphrase) && !CommittedElsewhere(entry, expiration)
    ensures SignOne(entry, s, expiration, passphrase).Ok? ==>
              && ParseAddress(s.address).Ok?
              && SignOne(entry, s, expiration, passphrase).value
                 == Write(entry, ParseAddress(s.address).value, Answer(entry, s, expiration, passphrase).value,
                          expiration)
  {
    OwnTarget(s, expiration);
    CallOutcome(entry, OwnCall(s), expiration, passphrase);
  }

  lemma {:induction false} WriteOther(nodes: seq<CredentialNode>, target: ScAddress, signature: ScVal,
                                      n: CredentialNode)
    requires n.address != target
    ensures n in WriteEach(nodes, target, signature) <==> n in nodes
  {
    if nodes != [] {
      WriteOther(nodes[1..], target, signature, n);
      assert n in nodes <==> n == nodes[0] || n in nodes[1..];
      assert n == WriteNode(nodes[0], target, signature) <==> n == nodes[0];
    }
  }

  /** Writing for one target leaves the conditions and the answer of a call for another as they were. */
  lemma {:induction false} WriteKeepsAllowed(entry: Entry, target: ScAddress, signature: ScVal, c: Call,
                                             expiration: u32, passphrase: string)
    requires entry.credentials.HasAddress()
    requires var r := Resolve(c.signer, expiration, c.options);
             r.Ok? ==> r.value.address != target
    ensures var after := Write(entry, target, signature, expiration);
            && (Allowed(after, c, expiration, passphrase) <==> Allowed(entry, c, expiration, passphrase))
            && !CommittedElsewhere(after, expiration)
            && Preimage(after, expiration, passphrase) == Preimage(entry, expiration, passphrase)
  {
    var after := Write(entry, target, signature, expiration);
    WriteNodes(entry, target, signature, expiration);
    if entry.credentials.WithDelegateTree? {
      WriteKeepsValidation(entry.credentials.delegates, target, signature, 1);
    }
    forall n: CredentialNode | n.address != target ensures n in Nodes(after) <==> n in Nodes(entry) {
      WriteOther(Nodes(entry), target, signature, n);
    }
  }

  lemma {:induction false} WriteKeepsSignable(entry: Entry, target: ScAddress, signature: ScVal, s: Signer,
                                              expiration: u32, passphrase: string)
    requires entry.credentials.HasAddress()
    requires ParseAddress(s.address).Ok? ==> ParseAddress(s.address).value != target
    ensures var after := Write(entry, target, signature, expiration);
            && (Signable(after, s, expiration, passphrase) <==> Signable(entry, s, expiration, passphrase))
            && !CommittedElsewhere(after, expiration)
            && Preimage(after, expiration, passphrase) == Preimage(entry, expiration, passphrase)
  {
    OwnTarget(s, expiration);
    WriteKeepsAllowed(entry, target, signature, OwnCall(s), expiration, passphrase);
  }

  lemma {:induction false} WriteTreesCommute(nodes: seq<DelegateNode>, a: ScAddress, x: ScVal, b: ScAddress, y: ScVal)
    requires a != b
    ensures WriteTree(WriteTree(nodes, a, x), b, y) == WriteTree(WriteTree(nodes, b, y), a, x)
  {
    if nodes != [] {
      WriteTreeCons(nodes, a, x);
      WriteTreeCons(nodes, b, y);
      WriteTreeCons(WriteTree(nodes, a, x), b, y);
      WriteTreeCons(WriteTree(nodes, b, y), a, x);
      WriteTreesCommute(nodes[0].nested, a, x, b, y);
      WriteTreesCommute(nodes[1..], a, x, b, y);
      var l, r := WriteTree(WriteTree(nodes, a, x), b, y), WriteTree(WriteTree(nodes, b, y), a, x);
      assert l == [l[0]] + l[1..] && r == [r[0]] + r[1..];
    }
  }

  lemma {:induction false} WritesCommute(entry: Entry, a: ScAddress, x: ScVal, b: ScAddress, y: ScVal, expiration: u32)
    requires entry.credentials.HasAddress() && a != b
    ensures Write(Write(entry, a, x, expiration), b, y, expiration)
            == Write(Write(entry, b, y, expiration), a, x, expiration)
  {
    WriteTreesCommute(DelegatesOf(entry.credentials), a, x, b, y);
  }

  predicate SameTarget(a: Signer, b: Signer) {
    ParseAddress(a.address).Ok? && ParseAddress(a.address) == ParseAddress(b.address)
  }

  // ---------- Any two calls for different targets commute ----------

  /** One call leaves the conditions and the answer of a call for another target as they were. */
  lemma {:induction false} CallKeepsAllowed(entry: Entry, a: Call, b: Call, expiration: u32, passphrase: string)
    requires Allowed(entry, a, expiration, passphrase) && !SameResolved(a, b, expiration)
    ensures var after := Written(entry, a, expiration, passphrase);
            && (Allowed(after, b, expiration, passphrase) <==> Allowed(entry, b, expiration, passphrase))
            && !CommittedElsewhere(after, expiration)
            && Preimage(after, expiration, passphrase) == Preimage(entry, expiration, passphrase)
  {
    WriteKeepsAllowed(entry, Resolve(a.signer, expiration, a.options).value.address,
                      Answer(entry, a.signer.value, expiration, passphrase).value, b, expiration, passphrase);
  }

  lemma {:induction false} BothOutcome(entry: Entry, a: Call, b: Call, expiration: u32, passphrase: string)
    requires entry.credentials.HasAddress() && !SameResolved(a, b, expiration)
    ensures Both(entry, a, b, expiration, passphrase).Ok?
            <==> Allowed(entry, a, expiration, passphrase) && Allowed(entry, b, expiration, passphrase)
                 && !CommittedElsewhere(entry, expiration)
    ensures Both(entry, a, b, expiration, passphrase).Ok? ==>
              && Allowed(Written(entry, a, expiration, passphrase), b, expiration, passphrase)
              && Both(entry, a, b, expiration, passphrase).value
                 == Written(Written(entry, a, expiration, passphrase), b, expiration, passphrase)
  {
    CallOutcome(entry, a, expiration, passphrase);
    if Make(entry, a, expiration, passphrase).Ok? {
      CallOutcome(Written(entry, a, expiration, passphrase), b, expiration, passphrase);
      CallKeepsAllowed(entry, a, b, expiration, passphrase);
    }
  }

  /**
   Any two calls at one expiration whose targets differ can be made in either order, whatever
   their signers, options and AllowResign scopes: both orders fail, or both give one entry.
   */
  lemma {:induction false} CallsCommute(entry: Entry, a: Call, b: Call, expiration: u32, passphrase: string)
    requires !SameResolved(a, b, expiration)
    ensures Alike(Both(entry, a, b, expiration, passphrase), Both(entry, b, a, expiration, passphrase))
  {
    if entry.credentials.HasAddress() {
      BothOutcome(entry, a, b, expiration, passphrase);
      BothOutcome(entry, b, a, expiration, passphrase);
      if Both(entry, a, b, expiration, passphrase).Ok? {
        CallKeepsAllowed(entry, a, b, expiration, passphrase);
        CallKeepsAllowed(entry, b, a, expiration, passphrase);
        WritesCommute(entry, Resolve(a.signer, expiration, a.options).value.address,
                      Answer(entry, a.signer.value, expiration, passphrase).value,
                      Resolve(b.signer, expiration, b.options).value.address,
                      Answer(entry, b.signer.value, expiration, passphrase).value, expiration);
      }
    }
  }

  // ---------- The signers of a batch ----------

  lemma {:induction false} PairIsBoth(entry: Entry, a: Signer, b: Signer, expiration: u32, passphrase: string)
    ensures SignEach(entry, [a, b], expiration, passphrase)
            == Both(entry, OwnCall(a), OwnCall(b), expiration, passphrase)
  {
    var first := SignOne(entry, a, expiration, passphrase);
    assert [a, b][1..] == [b] && [b][1..] == [];
    if first.Ok? {
      assert SignEach(first.value, [b], expiration, passphrase) == SignOne(first.value, b, expiration, passphrase);
    }
  }

  /** In particular two signers with different addresses sign in either order. */
  lemma {:induction false} SignersCommute(entry: Entry, a: Signer, b: Signer, expiration: u32, passphrase: string)
    requires !SameTarget(a, b)
    ensures Alike(SignEach(entry, [a, b], expiration, passphrase), SignEach(entry, [b, a], expiration, passphrase))
  {
    PairIsBoth(entry, a, b, expiration, passphrase);
    PairIsBoth(entry, b, a, expiration, passphrase);
    OwnTarget(a, expiration);
    OwnTarget(b, expiration);
    CallsCommute(entry, OwnCall(a), OwnCall(b), expiration, passphrase);
  }

  lemma {:induction false} SignEachConcat(entry: Entry, x: seq<Signer>, y: seq<Signer>, expiration: u32,
                                          passphrase: string)
    ensures var first := SignEach(entry, x, expiration, passphrase);
            SignEach(entry, x + y, expiration, passphrase)
            == if first.Ok? then SignEach(first.value, y, expiration, passphrase) else first
    decreases |x|
  {
    if x == [] {
      assert x + y == y;
    } else {
      assert (x + y)[0] == x[0] && (x + y)[1..] == x[1..] + y;
      var next := SignOne(entry, x[0], expiration, passphrase);
      if next.Ok? {
        SignEachConcat(next.value, x[1..], y, expiration, passphrase);
      }
    }
  }

  ghost predicate DistinctTargets(signers: seq<Signer>) {
    forall i, j :: 0 <= i < j < |signers| ==> !SameTarget(signers[i], signers[j])
  }

  /** A signer can be moved to the front past signers for other targets. */
  lemma {:induction false} MoveToFront(entry: Entry, x: seq<Signer>, s: Signer, expiration: u32, passphrase: string)
    requires forall t :: t in x ==> !SameTarget(t, s)
    ensures Alike(SignEach(entry, x + [s], expiration, passphrase), SignEach(entry, [s] + x, expiration, passphrase))
    decreases |x|
  {
    if x == [] {
      assert x + [s] == [s] + x;
    } else {
      var a, rest := x[0], x[1..];
      assert a in x && forall t :: t in rest ==> t in x;
      assert x + [s] == [a] + (rest + [s]) && [s] + x == [s, a] + rest && [a, s] + rest == [a] + ([s] + rest);
      SignEachConcat(entry, [a], rest + [s], expiration, passphrase);
      SignEachConcat(entry, [a], [s] + rest, expiration, passphrase);
      SignEachConcat(entry, [s, a], rest, expiration, passphrase);
      SignEachConcat(entry, [a, s], rest, expiration, passphrase);
      SignersCommute(entry, a, s, expiration, passphrase);
      var first := SignEach(entry, [a], expiration, passphrase);
      if first.Ok? {
        MoveToFront(first.value, rest, s, expiration, passphrase);
      }
    }
  }

  lemma {:induction false} RemoveOne<T>(p: seq<T>, q: seq<T>, k: nat)
    requires multiset(p) == multiset(q) && p != [] && k < |q| && q[k] == p[0]
    ensures multiset(p[1..]) == multiset(q[..k] + q[k + 1..])
  {
    assert p == [p[0]] + p[1..];
    assert q == q[..k] + [q[k]] + q[k + 1..];
    assert multiset(p[1..]) == multiset(p) - multiset{p[0]};
    assert multiset(q[..k] + q[k + 1..]) == multiset(q) - multiset{q[k]};
  }

  lemma {:induction false} FrontFirst(entry: Entry, x: seq<Signer>, s: Signer, y: seq<Signer>, expiration: u32,
                                      passphrase: string)
    requires forall t :: t in x ==> !SameTarget(t, s)
    ensures Alike(SignEach(entry, x + [s] + y, expiration, passphrase),
                  SignEach(entry, [s] + (x + y), expiration, passphrase))
  {
    MoveToFront(entry, x, s, expiration, passphrase);
    AlikeThen(entry, x + [s], [s] + x, y, expiration, passphrase);
    assert [s] + x + y == [s] + (x + y);
  }

  lemma {:induction false} AlikeThen(entry: Entry, a: seq<Signer>, b: seq<Signer>, y: seq<Signer>, expiration: u32,
                                     passphrase: string)
    requires Alike(SignEach(entry, a, expiration, passphrase), SignEach(entry, b, expiration, passphrase))
    ensures Alike(SignEach(entry, a + y, expiration, passphrase), SignEach(entry, b + y, expiration, passphrase))
  {
    SignEachConcat(entry, a, y, expiration, passphrase);
    SignEachConcat(entry, b, y, expiration, passphrase);
  }

  lemma {:induction false} OthersDiffer(p: seq<Signer>, x: seq<Signer>, y: seq<Signer>)
    requires p != [] && DistinctTargets(p) && multiset(p[1..]) == multiset(x + y)
    ensures forall t :: t in x ==> !SameTarget(t, p[0])
    ensures DistinctTargets(p[1..])
  {
    var rest := p[1..];
    assert forall i :: 0 <= i < |rest| ==> rest[i] == p[i + 1];
    forall t | t in x ensures !SameTarget(t, p[0]) {
      assert t in x + y;
      assert t in multiset(x + y);
      var i :| 0 <= i < |rest| && rest[i] == t;
      assert !SameTarget(p[0], p[i + 1]);
    }
  }

  /** The order of the signers does not matter: every ordering yields the same entry, or every ordering fails. */
  lemma {:induction false} SignersReorder(entry: Entry, p: seq<Signer>, q: seq<Signer>, expiration: u32,
                                          passphrase: string)
    requires multiset(p) == multiset(q) && DistinctTargets(p)
    ensures Alike(SignEach(entry, p, expiration, passphrase), SignEach(entry, q, expiration, passphrase))
    decreases |p|
  {
    if p == [] {
      assert |multiset(q)| == 0;
    } else {
      var k := FindFirst(p, q);
      var s, rest, x, y := p[0], p[1..], q[..k], q[k + 1..];
      OthersDiffer(p, x, y);
      assert p == [s] + rest && q == x + [s] + y;
      FrontFirst(entry, x, s, y, expiration, passphrase);
      SignEachConcat(entry, [s], x + y, expiration, passphrase);
      SignEachConcat(entry, [s], rest, expiration, passphrase);
      var first := SignEach(entry, [s], expiration, passphrase);
      if first.Ok? {
        SignersReorder(first.value, rest, x + y, expiration, passphrase);
      }
    }
  }

  // ---------- Validating and signing a batch ----------

  /** credentialNodes: the nodes of an entry, or why they cannot be listed. */
  function NodesOf(entry: Entry): (r: Result<seq<CredentialNode>, Error>)
    ensures r.Ok? ==> entry.credentials.HasAddress() && r.value == Nodes(entry)
  {
    var _ :- GetCredentials(entry.credentials);
    if entry.credentials.WithDelegateTree? && !WithinDepth(entry.credentials.delegates, 1) then Err(DecodeLimit)
    else Ok(Nodes(entry))
  }

  /** A signer applies to an entry when its address parses and names one of the nodes. */
  predicate Applies(s: Option<Signer>, nodes: seq<CredentialNode>) {
    s.Some? && ParseAddress(s.value.address).Ok? && Mentions(nodes, ParseAddress(s.value.address).value)
  }

  /** The signers that apply, in the order they were supplied. */
  function Matched(signers: seq<Option<Signer>>, nodes: seq<CredentialNode>): (r: seq<Signer>) {
    if signers == [] then []
    else
      var init, last := signers[..|signers| - 1], signers[|signers| - 1];
      Matched(init, nodes) + if Applies(last, nodes) then [last.value] else []
  }

  method SignersForEntry(entry: Entry, signers: seq<Option<Signer>>) returns (r: Result<seq<Signer>, Error>)
    ensures var nodes := NodesOf(entry);
            r == if nodes.Ok? then Ok(Matched(signers, nodes.value)) else Err(nodes.error)
  {
    var nodes :- NodesOf(entry);
    var matched := [];
    for i := 0 to |signers|
      invariant matched == Matched(signers[..i], nodes)
    {
      assert signers[..i + 1][..i] == signers[..i];
      if signers[i].None? {
        continue;
      }
      var address := ParseAddress(signers[i].value.address);
      if address.Err? {
        continue;
      }
      for k := 0 to |nodes|
        invariant matched == Matched(signers[..i], nodes)
        invariant forall n :: n in nodes[..k] ==> n.address != address.value
      {
        if nodes[k].address == address.value {
          matched := matched + [signers[i].value];
          break;
        }
      }
    }
    assert signers[..|signers|] == signers;
    return Ok(matched);
  }

  datatype DelegatePlan = DelegatePlan(delegates: seq<Delegate>, topSignature: Option<ScVal>)

  /** An entry ready to sign, and the signers that will sign it. */
  datatype Prepared = Prepared(entry: Entry, signers: seq<Signer>)

  /** The delegate plan for an entry, applied to it. */
  function Planned(entry: Entry, expiration: u32, plans: map<Strkey, DelegatePlan>): (r: Result<Entry, Error>) {
    var creds :- GetCredentials(entry.credentials);
    var address :- FormatAddress(creds.address);
    if address in plans then WithDelegates(entry, expiration, plans[address].delegates, plans[address].topSignature)
    else Ok(entry)
  }

  /** The plan an entry uses up, if wrapping it succeeds. */
  function PlanUsed(entry: Entry, expiration: u32, plans: map<Strkey, DelegatePlan>): (used: set<Strkey>) {
    if !entry.credentials.HasAddress() || Planned(entry, expiration, plans).Err? then {}
    else
      var address := FormatAddress(entry.credentials.creds.address).value;
      if address in plans then {address} else {}
  }

  function Prepare(entry: Entry, signers: seq<Option<Signer>>, expiration: u32, plans: map<Strkey, DelegatePlan>):
    (r: Result<Prepared, Error>)
  {
    if entry.credentials.SourceAccount? then Ok(Prepared(entry, []))
    else
      var planned :- Planned(entry, expiration, plans);
      var nodes :- NodesOf(planned);
      var matched := Matched(signers, nodes);
      if matched == [] then Err(MissingSigner) else Ok(Prepared(planned, matched))
  }

  /** Everything phase one of AuthorizeAll collects before any signer is asked. */
  datatype Validation = Validation(prepared: seq<Prepared>, errors: seq<Error>, used: set<Strkey>)

  function Validate(entries: seq<Entry>, signers: seq<Option<Signer>>, expiration: u32,
                    plans: map<Strkey, DelegatePlan>):
    (v: Validation)
  {
    if entries == [] then Validation([], [], {})
    else
      var init, last := entries[..|entries| - 1], entries[|entries| - 1];
      var v := Validate(init, signers, expiration, plans);
      var used := v.used + PlanUsed(last, expiration, plans);
      match Prepare(last, signers, expiration, plans)
      case Err(e) => Validation(v.prepared, v.errors + [e], used)
      case Ok(p) => Validation(v.prepared + [p], v.errors, used)
  }

  datatype BatchError =
    | Stopped
    | Invalid(errors: seq<Error>, unmatched: set<Strkey>)
    | Failed(index: nat, error: Error)
    | Incomplete(index: nat)

  /** Phase two: sign entry by entry, stopping at the first failure. */
  function SignAll(prepared: seq<Prepared>, expiration: u32, passphrase: string): (r: Result<seq<Entry>, BatchError>) {
    if prepared == [] then Ok([])
    else
      var init :- SignAll(prepared[..|prepared| - 1], expiration, passphrase);
      var last := prepared[|prepared| - 1];
      match SignEach(last.entry, last.signers, expiration, passphrase)
      case Err(e) => Err(Failed(|prepared| - 1, e))
      case Ok(signed) => Ok(init + [signed])
  }

  predicate FullySigned(entry: Entry) {
    entry.credentials.HasAddress() ==> forall n | n in Nodes(entry) :: IsSigned(n.signature)
  }

  /** RequireAllSigned: the first entry with a node left unsigned. */
  function CheckComplete(out: seq<Entry>): (r: Result<(), BatchError>) {
    if out == [] then Ok(())
    else
      var _ :- CheckComplete(out[..|out| - 1]);
      if FullySigned(out[|out| - 1]) then Ok(()) else Err(Incomplete(|out| - 1))
  }

  function AllOutcome(entries: seq<Entry>, signers: seq<Option<Signer>>, expiration: u32, passphrase: string,
                      plans: map<Strkey, DelegatePlan>, requireAllSigned: bool, cancelled: bool):
    (r: Result<seq<Entry>, BatchError>)
  {
    if cancelled then Err(Stopped)
    else Conclude(Validate(entries, signers, expiration, plans), plans.Keys, expiration, passphrase, requireAllSigned)
  }

  /** From the collected validation to the result: nothing is signed unless everything validated. */
  function Conclude(v: Validation, plans: set<Strkey>, expiration: u32, passphrase: string, requireAllSigned: bool):
    (r: Result<seq<Entry>, BatchError>)
  {
    var unmatched := plans - v.used;
    if v.errors != [] || unmatched != {} then Err(Invalid(v.errors, unmatched))
    else
      var out :- SignAll(v.prepared, expiration, passphrase);
      var _ :- if requireAllSigned then CheckComplete(out) else Ok(());
      Ok(out)
  }

  /** AuthorizeAll: validate the whole batch, then sign it, then check it. */
  method AuthorizeAll(entries: seq<Entry>, signers: seq<Option<Signer>>, expiration: u32, passphrase: string,
                      plans: map<Strkey, DelegatePlan>, requireAllSigned: bool, cancelled: bool)
    returns (r: Result<seq<Entry>, BatchError>)
    ensures r == AllOutcome(entries, signers, expiration, passphrase, plans, requireAllSigned, cancelled)
  {
    if cancelled {
      return Err(Stopped);
    }
    var prepared, errors, used := [], [], {};
    for i := 0 to |entries|
      invariant Validate(entries[..i], signers, expiration, plans) == Validation(prepared, errors, used)
    {
      assert entries[..i + 1][..i] == entries[..i];
      used := used + PlanUsed(entries[i], expiration, plans);
      var p := PrepareEntry(entries[i], signers, expiration, plans);
      if p.Err? {
        errors := errors + [p.error];
      } else {
        prepared := prepared + [p.value];
      }
    }
    assert entries[..|entries|] == entries;
    if errors != [] || plans.Keys - used != {} {
      return Err(Invalid(errors, plans.Keys - used));
    }
    var out :- SignPrepared(prepared, expiration, passphrase);
    if requireAllSigned {
      for i := 0 to |out|
        invariant CheckComplete(out[..i]) == Ok(())
      {
        assert out[..i + 1][..i] == out[..i];
        if !FullySigned(out[i]) {
          CheckCompleteStops(out, i);
          return Err(Incomplete(i));
        }
      }
      assert out[..|out|] == out;
    }
    return Ok(out);
  }

  method PrepareEntry(entry: Entry, signers: seq<Option<Signer>>, expiration: u32, plans: map<Strkey, DelegatePlan>)
    returns (r: Result<Prepared, Error>)
    ensures r == Prepare(entry, signers, expiration, plans)
  {
    if entry.credentials.SourceAccount? {
      return Ok(Prepared(entry, []));
    }
    var planned :- Planned(entry, expiration, plans);
    var matched :- SignersForEntry(planned, signers);
    if |matched| == 0 {
      return Err(MissingSigner);
    }
    return Ok(Prepared(planned, matched));
  }

  /** The signing loops: every entry in turn, every matched signer in turn. */
  method SignPrepared(prepared: seq<Prepared>, expiration: u32, passphrase: string)
    returns (r: Result<seq<Entry>, BatchError>)
    ensures r == SignAll(prepared, expiration, passphrase)
  {
    var out := [];
    for i := 0 to |prepared|
      invariant SignAll(prepared[..i], expiration, passphrase) == Ok(out)
    {
      assert prepared[..i + 1][..i] == prepared[..i];
      var p := prepared[i];
      var signed := p.entry;
      for k := 0 to |p.signers|
        invariant SignEach(p.entry, p.signers, expiration, passphrase)
                  == SignEach(signed, p.signers[k..], expiration, passphrase)
      {
        assert p.signers[k..][0] == p.signers[k] && p.signers[k..][1..] == p.signers[k + 1..];
        var s := p.signers[k];
        var next, _ := AuthorizeEntry(signed, Some(s), expiration, passphrase, Options(Some(s.address), false, []),
                                      false);
        if next.Err? {
          SignAllStops(prepared, i, expiration, passphrase);
          return Err(Failed(i, next.error));
        }
        signed := next.value;
      }
      out := out + [signed];
    }
    assert prepared[..|prepared|] == prepared;
    return Ok(out);
  }

  lemma {:induction false} SignAllStops(prepared: seq<Prepared>, i: nat, expiration: u32, passphrase: string)
    requires i < |prepared| && SignAll(prepared[..i], expiration, passphrase).Ok?
    requires SignEach(prepared[i].entry, prepared[i].signers, expiration, passphrase).Err?
    ensures SignAll(prepared, expiration, passphrase)
            == Err(Failed(i, SignEach(prepared[i].entry, prepared[i].signers, expiration, passphrase).error))
  {
    if i + 1 < |prepared| {
      var init := prepared[..|prepared| - 1];
      assert init[..i] == prepared[..i];
      SignAllStops(init, i, expiration, passphrase);
    }
  }

  lemma {:induction false} CheckCompleteStops(out: seq<Entry>, i: nat)
    requires i < |out| && CheckComplete(out[..i]).Ok? && !FullySigned(out[i])
    ensures CheckComplete(out) == Err(Incomplete(i))
  {
    if i + 1 < |out| {
      var init := out[..|out| - 1];
      assert init[..i] == out[..i];
      CheckCompleteStops(init, i);
    }
  }

  // ---------- The order of the signers ----------

  lemma {:induction false} MatchedConcat(x: seq<Option<Signer>>, y: seq<Option<Signer>>, nodes: seq<CredentialNode>)
    ensures Matched(x + y, nodes) == Matched(x, nodes) + Matched(y, nodes)
  {
    if y == [] {
      assert x + y == x;
    } else {
      var init, last := y[..|y| - 1], y[|y| - 1];
      assert (x + y)[..|x + y| - 1] == x + init && (x + y)[|x + y| - 1] == last;
      MatchedConcat(x, init, nodes);
      var tail := if Applies(last, nodes) then [last.value] else [];
      assert Matched(x, nodes) + Matched(init, nodes) + tail == Matched(x, nodes) + (Matched(init, nodes) + tail);
    }
  }

  lemma {:induction false} MatchedMiddle(x: seq<Option<Signer>>, s: Option<Signer>, y: seq<Option<Signer>>,
                                         nodes: seq<CredentialNode>)
    ensures multiset(Matched(x + [s] + y, nodes)) == multiset(Matched([s], nodes)) + multiset(Matched(x + y, nodes))
  {
    MatchedConcat(x + [s], y, nodes);
    MatchedConcat(x, [s], nodes);
    MatchedConcat(x, y, nodes);
  }

  lemma {:induction false} MatchedFirst(p: seq<Option<Signer>>, nodes: seq<CredentialNode>)
    requires p != []
    ensures multiset(Matched(p, nodes)) == multiset(Matched([p[0]], nodes)) + multiset(Matched(p[1..], nodes))
  {
    assert p == [p[0]] + p[1..];
    MatchedConcat([p[0]], p[1..], nodes);
  }

  lemma {:induction false} FindFirst<T>(p: seq<T>, q: seq<T>) returns (k: nat)
    requires multiset(p) == multiset(q) && p != []
    ensures k < |q| && q[k] == p[0] && q == q[..k] + [p[0]] + q[k + 1..]
    ensures multiset(p[1..]) == multiset(q[..k] + q[k + 1..])
  {
    assert p[0] in multiset(q);
    k :| k < |q| && q[k] == p[0];
    RemoveOne(p, q, k);
  }

  lemma {:induction false} MatchedPermutes(p: seq<Option<Signer>>, q: seq<Option<Signer>>, nodes: seq<CredentialNode>)
    requires multiset(p) == multiset(q)
    ensures multiset(Matched(p, nodes)) == multiset(Matched(q, nodes))
    decreases |p|
  {
    if p == [] {
      assert |multiset(q)| == 0;
    } else {
      var k := FindFirst(p, q);
      MatchedFirst(p, nodes);
      MatchedMiddle(q[..k], p[0], q[k + 1..], nodes);
      MatchedPermutes(p[1..], q[..k] + q[k + 1..], nodes);
    }
  }

  /** No two of the supplied signers speak for one address. */
  ghost predicate DistinctSigners(signers: seq<Option<Signer>>) {
    forall i, j :: 0 <= i < j < |signers| && signers[i].Some? && signers[j].Some? ==>
      !SameTarget(signers[i].value, signers[j].value)
  }

  lemma {:induction false} MatchedDistinct(signers: seq<Option<Signer>>, nodes: seq<CredentialNode>)
    requires DistinctSigners(signers)
    ensures DistinctTargets(Matched(signers, nodes))
    ensures forall t :: t in Matched(signers, nodes) ==> Some(t) in signers
  {
    if signers != [] {
      var init, last := signers[..|signers| - 1], signers[|signers| - 1];
      MatchedDistinct(init, nodes);
      if Applies(last, nodes) {
        var m := Matched(init, nodes);
        forall i | 0 <= i < |m| ensures !SameTarget(m[i], last.value) {
          assert Some(m[i]) in init;
          var k :| 0 <= k < |init| && init[k] == Some(m[i]);
          assert signers[k] == Some(m[i]);
        }
      }
    }
  }

  /** Reordered signers validate alike, with each entry's signers reordered. */
  ghost predicate SamePreparation(a: Prepared, b: Prepared) {
    a.entry == b.entry && multiset(a.signers) == multiset(b.signers) && DistinctTargets(a.signers)
  }

  lemma {:induction false} PrepareReorder(entry: Entry, p: seq<Option<Signer>>, q: seq<Option<Signer>>, expiration: u32,
                                          plans: map<Strkey, DelegatePlan>)
    requires multiset(p) == multiset(q) && DistinctSigners(p)
    ensures var a, b := Prepare(entry, p, expiration, plans), Prepare(entry, q, expiration, plans);
            && (a.Ok? <==> b.Ok?) && (a.Err? ==> a == b) && (a.Ok? ==> SamePreparation(a.value, b.value))
  {
    if !entry.credentials.SourceAccount? && Planned(entry, expiration, plans).Ok? {
      var planned := Planned(entry, expiration, plans).value;
      if NodesOf(planned).Ok? {
        var nodes := Nodes(planned);
        MatchedPermutes(p, q, nodes);
        MatchedDistinct(p, nodes);
        assert |Matched(p, nodes)| == |multiset(Matched(p, nodes))|;
        assert |Matched(q, nodes)| == |multiset(Matched(q, nodes))|;
      }
    }
  }

  lemma {:induction false} ValidateReorder(entries: seq<Entry>, p: seq<Option<Signer>>, q: seq<Option<Signer>>,
                                           expiration: u32, plans: map<Strkey, DelegatePlan>)
    requires multiset(p) == multiset(q) && DistinctSigners(p)
    ensures var a, b := Validate(entries, p, expiration, plans), Validate(entries, q, expiration, plans);
            && a.errors == b.errors && a.used == b.used && |a.prepared| == |b.prepared|
            && forall i :: 0 <= i < |a.prepared| ==> SamePreparation(a.prepared[i], b.prepared[i])
  {
    if entries != [] {
      var init, last := entries[..|entries| - 1], entries[|entries| - 1];
      ValidateReorder(init, p, q, expiration, plans);
      PrepareReorder(last, p, q, expiration, plans);
    }
  }

  lemma {:induction false} SignAllReorder(a: seq<Prepared>, b: seq<Prepared>, expiration: u32, passphrase: string)
    requires |a| == |b| && forall i :: 0 <= i < |a| ==> SamePreparation(a[i], b[i])
    ensures var x, y := SignAll(a, expiration, passphrase), SignAll(b, expiration, passphrase);
            (x.Ok? <==> y.Ok?) && (x.Ok? ==> x == y)
  {
    if a != [] {
      var n := |a| - 1;
      SignAllReorder(a[..n], b[..n], expiration, passphrase);
      SignersReorder(a[n].entry, a[n].signers, b[n].signers, expiration, passphrase);
    }
  }

  /**
   With one signer per address, the order in which the signers are supplied never matters:
   every ordering returns the same signed batch, or every ordering fails.
   */
  lemma {:induction false} AuthorizeAllReorder(entries: seq<Entry>, p: seq<Option<Signer>>, q: seq<Option<Signer>>,
                                               expiration: u32, passphrase: string, plans: map<Strkey, DelegatePlan>,
                                               requireAllSigned: bool, cancelled: bool)
    requires multiset(p) == multiset(q) && DistinctSigners(p)
    ensures var x := AllOutcome(entries, p, expiration, passphrase, plans, requireAllSigned, cancelled);
            var y := AllOutcome(entries, q, expiration, passphrase, plans, requireAllSigned, cancelled);
            (x.Ok? <==> y.Ok?) && (x.Ok? ==> x == y)
  {
    var a, b := Validate(entries, p, expiration, plans), Validate(entries, q, expiration, plans);
    ValidateReorder(entries, p, q, expiration, plans);
    ConcludeReorder(a, b, plans.Keys, expiration, passphrase, requireAllSigned);
  }

  lemma {:induction false} ConcludeReorder(a: Validation, b: Validation, plans: set<Strkey>, expiration: u32,
                                           passphrase: string, requireAllSigned: bool)
    requires a.errors == b.errors && a.used == b.used && |a.prepared| == |b.prepared|
    requires forall i :: 0 <= i < |a.prepared| ==> SamePreparation(a.prepared[i], b.prepared[i])
    ensures var x := Conclude(a, plans, expiration, passphrase, requireAllSigned);
            var y := Conclude(b, plans, expiration, passphrase, requireAllSigned);
            (x.Ok? <==> y.Ok?) && (x.Ok? ==> x == y)
  {
    SignAllReorder(a.prepared, b.prepared, expiration, passphrase);
  }
}