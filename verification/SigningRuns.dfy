/**
 Runs of the signing protocol: any sequence of UpgradeToV2, WithDelegates and
 AuthorizeEntry calls on one entry, for one network.
 */
module SigningRuns {
  import opened Wrappers
  import opened Xdr
  import opened Preimages
  import opened Authorization
  import opened Delegates

  // ---------- What one successful call does ----------

  /** The tree with every signature blanked: its shape and addresses. */
  function Erase(nodes: seq<DelegateNode>): (r: seq<DelegateNode>) {
    if nodes == [] then []
    else [DelegateNode(nodes[0].address, Void, Erase(nodes[0].nested))] + Erase(nodes[1..])
  }

  lemma {:induction false} WriteKeepsShape(nodes: seq<DelegateNode>, target: ScAddress, signature: ScVal)
    ensures Erase(WriteTree(nodes, target, signature)) == Erase(nodes)
  {
    if nodes != [] {
      WriteTreeCons(nodes, target, signature);
      WriteKeepsShape(nodes[0].nested, target, signature);
      WriteKeepsShape(nodes[1..], target, signature);
    }
  }

  /** The payload depends on neither the signatures nor the stored expiration. */
  lemma {:induction false} WriteKeepsPreimage(entry: Entry, target: ScAddress, signature: ScVal, stored: u32,
                                              expiration: u32, passphrase: string)
    requires entry.credentials.HasAddress()
    ensures Preimage(Write(entry, target, signature, stored), expiration, passphrase)
            == Preimage(entry, expiration, passphrase)
  {
  }

  /**
   A successful call asks the signer once, about the payload the returned entry rebuilds
   from its own stored expiration; it puts the one answer on every node of the target,
   at every depth, and changes nothing else but the stored expiration.
   */
  lemma {:induction false} AuthorizeEffect(entry: Entry, signer: Option<Signer>, expiration: u32, passphrase: string,
                                           options: Options)
    requires entry.credentials.HasAddress()
    requires Authorize(entry, signer, expiration, passphrase, options, false).result.Ok?
    ensures var o := Authorize(entry, signer, expiration, passphrase, options, false);
            var after := o.result.value;
            var target := Guard(entry, signer, expiration, passphrase, options).value.target;
            && |o.asked| == 1
            && signer.value.sign(o.asked[0], Sha256(o.asked[0])).Ok?
            && var signature := signer.value.sign(o.asked[0], Sha256(o.asked[0])).value;
            && after.credentials.HasAddress()
            && OwnPayload(after, passphrase) == Ok(Sha256(o.asked[0]))
            && after.root == entry.root
            && after.credentials.creds.address == entry.credentials.creds.address
            && after.credentials.creds.nonce == entry.credentials.creds.nonce
            && after.credentials.creds.expiration == expiration
            && (after.credentials.Legacy? <==> entry.credentials.Legacy?)
            && (after.credentials.V2? <==> entry.credentials.V2?)
            && Erase(DelegatesOf(after.credentials)) == Erase(DelegatesOf(entry.credentials))
            && Mentions(Nodes(entry), target)
            && |Nodes(after)| == |Nodes(entry)|
            && forall i :: 0 <= i < |Nodes(entry)| ==>
                 && Nodes(after)[i].address == Nodes(entry)[i].address
                 && Nodes(after)[i].signature ==
                    if Nodes(entry)[i].address == target then signature else Nodes(entry)[i].signature
  {
    var task := Guard(entry, signer, expiration, passphrase, options).value;
    var signature := signer.value.sign(task.preimage, Sha256(task.preimage)).value;
    var after := Write(entry, task.target, signature, expiration);
    WriteKeepsPreimage(entry, task.target, signature, expiration, expiration, passphrase);
    WriteKeepsShape(DelegatesOf(entry.credentials), task.target, signature);
    WriteNodes(entry, task.target, signature, expiration);
    forall i | 0 <= i < |Nodes(entry)|
      ensures Nodes(after)[i] == WriteNode(Nodes(entry)[i], task.target, signature)
    {
      WriteEachAt(Nodes(entry), task.target, signature, i);
    }
  }

  /** A call refused by a guard never reaches the signer, and a source-account entry passes through. */
  lemma {:induction false} RefusalAsksNobody(entry: Entry, signer: Option<Signer>, expiration: u32, passphrase: string,
                                             options: Options, cancelled: bool)
    ensures var o := Authorize(entry, signer, expiration, passphrase, options, cancelled);
            && (o.asked != [] <==> !cancelled && !entry.credentials.SourceAccount?
                                   && Guard(entry, signer, expiration, passphrase, options).Ok?)
            && (o.result.Err? && !cancelled && Guard(entry, signer, expiration, passphrase, options).Ok? ==>
                  signer.value.sign(o.asked[0], Sha256(o.asked[0])).Err? || entry.credentials.SourceAccount?)
  {
  }

  // ---------- The protocol as a state machine ----------

  datatype Step =
    | Upgrade
    | Wrap(expiration: u32, delegates: seq<Delegate>, topSignature: Option<ScVal>)
    | Sign(signer: Option<Signer>, expiration: u32, options: Options, cancelled: bool)

  /** A signature some signer made: for which address, over which payload, with what result. */
  datatype Made = Made(address: ScAddress, payload: Payload, signature: ScVal)

  datatype State = State(entry: Entry, made: set<Made>)

  /** A call that returns an error leaves the caller with the entry it had. */
  function Take(s: State, step: Step, passphrase: string): (t: State)
  {
    match step
    case Upgrade =>
      (match UpgradeToV2(s.entry)
       case Ok(e) => State(e, s.made)
       case Err(_) => s)
    case Wrap(expiration, delegates, topSignature) =>
      (match WithDelegates(s.entry, expiration, delegates, topSignature)
       case Ok(e) => State(e, s.made)
       case Err(_) => s)
    case Sign(signer, expiration, options, cancelled) =>
      var o := Authorize(s.entry, signer, expiration, passphrase, options, cancelled);
      match o.result
      case Err(_) => s
      case Ok(e) =>
        if o.asked == [] then State(e, s.made)
        else
          var task := Guard(s.entry, signer, expiration, passphrase, options).value;
          var answer := signer.value.sign(task.preimage, Sha256(task.preimage)).value;
          State(e, s.made + {Made(task.target, Sha256(task.preimage), answer)})
  }

  function Run(s: State, steps: seq<Step>, passphrase: string): (t: State)
    decreases |steps|
  {
    if steps == [] then s else Run(Take(s, steps[0], passphrase), steps[1..], passphrase)
  }

  ghost predicate NodeCommitted(n: CredentialNode, s: State, passphrase: string) {
    var payload := OwnPayload(s.entry, passphrase);
    payload.Ok? && Made(n.address, payload.value, n.signature) in s.made
  }

  /**
   Every signed node holds a signature made for its address, over the payload the entry
   rebuilds from the expiration it stores.
   */
  ghost predicate Committed(s: State, passphrase: string) {
    s.entry.credentials.HasAddress() ==>
      forall n :: n in Nodes(s.entry) && IsSigned(n.signature) ==> NodeCommitted(n, s, passphrase)
  }

  /** A value the caller may bring along: none, or one of the two placeholders. */
  predicate Placeholder(supplied: Option<ScVal>) {
    supplied.Some? ==> !IsSigned(supplied.value)
  }

  /** No descriptor of the tree, at any depth, brings a signature of its own. */
  predicate NoneSupplied(delegates: seq<Delegate>) {
    forall d | d in delegates :: Placeholder(d.signature) && NoneSupplied(d.nested)
  }

  predicate Honest(step: Step) {
    step.Wrap? ==> Placeholder(step.topSignature) && NoneSupplied(step.delegates)
  }

  /** A node or one nested in it is signed. */
  predicate SignedWithin(n: DelegateNode) {
    IsSigned(n.signature) || AnySigned(Flatten(n.nested))
  }

  lemma {:induction false} AnySignedJoin(x: seq<CredentialNode>, y: seq<CredentialNode>)
    ensures AnySigned(x + y) <==> AnySigned(x) || AnySigned(y)
  {
    assert forall n :: n in x + y <==> n in x || n in y;
  }

  lemma {:induction false} FlattenSigned(nodes: seq<DelegateNode>)
    ensures AnySigned(Flatten(nodes)) <==> exists n :: n in nodes && SignedWithin(n)
  {
    if nodes != [] {
      var first, rest := nodes[0], nodes[1..];
      var own := [CredentialNode(first.address, first.signature)];
      FlattenSigned(rest);
      AnySignedJoin(own + Flatten(first.nested), Flatten(rest));
      AnySignedJoin(own, Flatten(first.nested));
      assert AnySigned(own) <==> IsSigned(first.signature) by { assert own[0] in own; }
      assert forall n :: n in nodes <==> n == first || n in rest;
      assert first in nodes && (AnySigned(Flatten(nodes)) <==> SignedWithin(first) || AnySigned(Flatten(rest)));
    }
  }

  /** A built tree carries a signature exactly when some descriptor brought one. */
  lemma {:induction false} BuildSigned(delegates: seq<Delegate>, depth: nat)
    requires Build(delegates, depth).Ok?
    ensures AnySigned(Flatten(Build(delegates, depth).value)) <==> !NoneSupplied(delegates)
    decreases delegates
  {
    var built := BuildEach(delegates, depth).value;
    BuildEachAt(delegates, depth);
    forall k | 0 <= k < |built|
      ensures SignedWithin(built[k]) <==> !(Placeholder(delegates[k].signature) && NoneSupplied(delegates[k].nested))
    {
      assert delegates[k] in delegates;
      BuildOneSigned(delegates[k], depth);
    }
    SortMembers(built);
    FlattenSigned(SortLevel(built));
    SuppliedMeans(delegates, built);
  }

  lemma {:induction false} SuppliedMeans(delegates: seq<Delegate>, built: seq<DelegateNode>)
    requires |built| == |delegates|
    requires forall k :: 0 <= k < |built| ==>
               (SignedWithin(built[k]) <==> !(Placeholder(delegates[k].signature) && NoneSupplied(delegates[k].nested)))
    ensures (exists n :: n in built && SignedWithin(n)) <==> !NoneSupplied(delegates)
  {
    if n :| n in built && SignedWithin(n) {
      var k :| 0 <= k < |built| && built[k] == n;
      assert delegates[k] in delegates;
    }
    if !NoneSupplied(delegates) {
      var d :| d in delegates && !(Placeholder(d.signature) && NoneSupplied(d.nested));
      var k :| 0 <= k < |delegates| && delegates[k] == d;
      assert built[k] in built;
    }
  }

  lemma {:induction false} BuildOneSigned(d: Delegate, depth: nat)
    requires BuildOne(d, depth).Ok?
    ensures SignedWithin(BuildOne(d, depth).value) <==> !(Placeholder(d.signature) && NoneSupplied(d.nested))
    decreases d
  {
    BuildSigned(d.nested, depth + 1);
  }

  /** A wrapped entry is signed exactly when the caller brought a signature, at the top or at any depth. */
  lemma {:induction false} WrapSigned(entry: Entry, step: Step)
    requires step.Wrap? && WithDelegates(entry, step.expiration, step.delegates, step.topSignature).Ok?
    ensures var wrapped := WithDelegates(entry, step.expiration, step.delegates, step.topSignature).value;
            wrapped.credentials.HasAddress() && (AnySigned(Nodes(wrapped)) <==> !Honest(step))
  {
    var wrapped := WithDelegates(entry, step.expiration, step.delegates, step.topSignature).value;
    var creds := wrapped.credentials.creds;
    var top := [CredentialNode(creds.address, creds.signature)];
    BuildSigned(step.delegates, 1);
    AnySignedJoin(top, Flatten(wrapped.credentials.delegates));
    assert AnySigned(top) <==> IsSigned(creds.signature) by { assert top[0] in top; }
  }

  lemma {:induction false} UpgradeKeepsCommitted(s: State, passphrase: string)
    requires Committed(s, passphrase)
    ensures Committed(Take(s, Upgrade, passphrase), passphrase)
  {
    if s.entry.credentials.Legacy? && !IsSigned(s.entry.credentials.creds.signature) {
      var e := UpgradeToV2(s.entry).value;
      assert Nodes(e) == [CredentialNode(e.credentials.creds.address, e.credentials.creds.signature)];
    }
  }

  lemma {:induction false} WrapKeepsCommitted(s: State, step: Step, passphrase: string)
    requires step.Wrap? && Honest(step) && Committed(s, passphrase)
    ensures Committed(Take(s, step, passphrase), passphrase)
  {
    var wrapped := WithDelegates(s.entry, step.expiration, step.delegates, step.topSignature);
    if wrapped.Ok? {
      WrapSigned(s.entry, step);
    }
  }

  lemma {:induction false} SignKeepsCommitted(s: State, step: Step, passphrase: string)
    requires step.Sign? && Committed(s, passphrase)
    ensures Committed(Take(s, step, passphrase), passphrase)
  {
    var o := Authorize(s.entry, step.signer, step.expiration, passphrase, step.options, step.cancelled);
    if o.result.Ok? && o.asked != [] {
      var t := Take(s, step, passphrase);
      AuthorizeEffect(s.entry, step.signer, step.expiration, passphrase, step.options);
      forall n | n in Nodes(t.entry) && IsSigned(n.signature) ensures NodeCommitted(n, t, passphrase) {
        var i :| 0 <= i < |Nodes(t.entry)| && Nodes(t.entry)[i] == n;
        SignedNodeStaysCommitted(s, step, passphrase, i);
      }
    }
  }

  /** A tree in which some other node is signed is only re-signed at the expiration it stores. */
  lemma {:induction false} ExpirationHeld(entry: Entry, signer: Option<Signer>, expiration: u32, passphrase: string,
                                          options: Options, n: CredentialNode)
    requires entry.credentials.WithDelegateTree?
    requires Guard(entry, signer, expiration, passphrase, options).Ok?
    requires n in Nodes(entry) && IsSigned(n.signature)
    ensures entry.credentials.creds.expiration == expiration
  {
    assert AnySigned(Nodes(entry));
  }

  /** Node i after signing: either it carries the new answer, or the payload did not move under it. */
  lemma {:induction false} SignedNodeStaysCommitted(s: State, step: Step, passphrase: string, i: nat)
    requires step.Sign? && Committed(s, passphrase) && s.entry.credentials.HasAddress() && !step.cancelled
    requires Authorize(s.entry, step.signer, step.expiration, passphrase, step.options, false).result.Ok?
    requires Take(s, step, passphrase).entry.credentials.HasAddress()
    requires i < |Nodes(Take(s, step, passphrase).entry)|
    requires IsSigned(Nodes(Take(s, step, passphrase).entry)[i].signature)
    ensures NodeCommitted(Nodes(Take(s, step, passphrase).entry)[i], Take(s, step, passphrase), passphrase)
  {
    var t := Take(s, step, passphrase);
    var task := Guard(s.entry, step.signer, step.expiration, passphrase, step.options).value;
    AuthorizeEffect(s.entry, step.signer, step.expiration, passphrase, step.options);
    var before := Nodes(s.entry)[i];
    assert before in Nodes(s.entry);
    if !s.entry.credentials.WithDelegateTree? {
      assert |Nodes(s.entry)| == 1;
    } else if before.address != task.target {
      ExpirationHeld(s.entry, step.signer, step.expiration, passphrase, step.options, before);
      assert OwnPayload(s.entry, passphrase) == OwnPayload(t.entry, passphrase);
    }
  }

  lemma {:induction false} StepKeepsCommitted(s: State, step: Step, passphrase: string)
    requires Honest(step) && Committed(s, passphrase)
    ensures Committed(Take(s, step, passphrase), passphrase)
  {
    match step
    case Upgrade => UpgradeKeepsCommitted(s, passphrase);
    case Wrap(_, _, _) => WrapKeepsCommitted(s, step, passphrase);
    case Sign(_, _, _, _) => SignKeepsCommitted(s, step, passphrase);
  }

  /**
   The protocol's invariant: over every run of calls, with any targets, expirations,
   signers and AllowResign scopes, no signed node is ever left committed to a payload
   other than the one its entry now rebuilds.
   */
  lemma {:induction false} RunKeepsCommitted(s: State, steps: seq<Step>, passphrase: string)
    requires Committed(s, passphrase)
    requires forall step :: step in steps ==> Honest(step)
    ensures Committed(Run(s, steps, passphrase), passphrase)
    decreases |steps|
  {
    if steps != [] {
      StepKeepsCommitted(s, steps[0], passphrase);
      RunKeepsCommitted(Take(s, steps[0], passphrase), steps[1..], passphrase);
    }
  }

  /** In particular from an entry that nobody has signed. */
  lemma {:induction false} RunFromUnsigned(entry: Entry, steps: seq<Step>, passphrase: string)
    requires entry.credentials.HasAddress() ==> !AnySigned(Nodes(entry))
    requires forall step :: step in steps ==> Honest(step)
    ensures Committed(Run(State(entry, {}), steps, passphrase), passphrase)
  {
    RunKeepsCommitted(State(entry, {}), steps, passphrase);
  }

  // ---------- Why the guards are there ----------

  /** Upgrading moves the payload of a legacy entry, and only of a legacy entry: hence no signed entry is upgraded. */
  lemma {:induction false} UpgradeMovesPayload(entry: Entry, passphrase: string)
    requires UpgradeToV2(entry).Ok? && OwnPayload(entry, passphrase).Ok?
    requires OwnPayload(UpgradeToV2(entry).value, passphrase).Ok?
    ensures OwnPayload(UpgradeToV2(entry).value, passphrase) != OwnPayload(entry, passphrase)
            <==> entry.credentials.Legacy?
  {
  }

  /** Wrapping keeps the payload only of a V2 entry at its own expiration, whatever the delegates are. */
  lemma {:induction false} WrapMovesPayload(entry: Entry, expiration: u32, delegates: seq<Delegate>,
                                            topSignature: Option<ScVal>,
                                            passphrase: string)
    requires WithDelegates(entry, expiration, delegates, topSignature).Ok? && OwnPayload(entry, passphrase).Ok?
    requires OwnPayload(WithDelegates(entry, expiration, delegates, topSignature).value, passphrase).Ok?
    ensures OwnPayload(WithDelegates(entry, expiration, delegates, topSignature).value, passphrase)
            == OwnPayload(entry, passphrase)
            <==> entry.credentials.V2? && entry.credentials.creds.expiration == expiration
  {
  }

  /**
   Without the expiration guard one call spoils a tree: writing one node at another
   expiration leaves every other signed node committed to a payload the entry no longer has.
   */
  lemma {:induction false} UnguardedWriteBreaks(s: State, other: CredentialNode, target: ScAddress, signature: ScVal,
                                                expiration: u32, passphrase: string)
    requires s.entry.credentials.HasAddress() && OwnPayload(s.entry, passphrase).Ok?
    requires other in Nodes(s.entry) && IsSigned(other.signature) && other.address != target
    requires forall m :: m in s.made ==> m.payload == OwnPayload(s.entry, passphrase).value
    requires expiration != s.entry.credentials.creds.expiration
    requires Preimage(s.entry, expiration, passphrase).Ok?
    ensures var after := Write(s.entry, target, signature, expiration);
            var made := Made(target, Sha256(Preimage(s.entry, expiration, passphrase).value), signature);
            !Committed(State(after, s.made + {made}), passphrase)
  {
    var after := Write(s.entry, target, signature, expiration);
    WriteKeepsPreimage(s.entry, target, signature, expiration, expiration, passphrase);
    WriteNodes(s.entry, target, signature, expiration);
    var i :| 0 <= i < |Nodes(s.entry)| && Nodes(s.entry)[i] == other;
    WriteEachAt(Nodes(s.entry), target, signature, i);
    assert other in Nodes(after);
  }

  /**
   Signatures the caller brings along are the one thing the invariant cannot cover: nobody is
   known to have made them for this payload. Wrapping an unsigned entry leaves it committed
   exactly when the call fails or nothing supplied, at the top or at any depth, is signed.
   */
  lemma {:induction false} WrapCommitsExactly(entry: Entry, step: Step, passphrase: string)
    requires step.Wrap? && (entry.credentials.HasAddress() ==> !AnySigned(Nodes(entry)))
    ensures Committed(Take(State(entry, {}), step, passphrase), passphrase)
            <==> WithDelegates(entry, step.expiration, step.delegates, step.topSignature).Err? || Honest(step)
  {
    if WithDelegates(entry, step.expiration, step.delegates, step.topSignature).Ok? {
      WrapSigned(entry, step);
    }
  }
}
