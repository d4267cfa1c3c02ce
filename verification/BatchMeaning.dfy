/**
 What AuthorizeAll of batch.go returns, said of the entries handed in: which of them are wrapped by
 a delegate plan, what every node of every result carries, and what the options promise.
 */
module BatchMeaning {
  import opened Wrappers
  import opened Xdr
  import opened Preimages
  import opened Authorization
  import opened SigningRuns
  import opened Delegates
  import opened Batches
  import opened BatchSigning

  // ---------- Which signers sign an entry ----------

  /** A signer matches when it is there, its address parses, and some node of the entry has that address. */
  lemma {:induction false} MatchedMeans(signers: seq<Option<Signer>>, nodes: seq<CredentialNode>, s: Signer)
    ensures s in Matched(signers, nodes)
            <==> Some(s) in signers && exists n :: n in nodes && ParseAddress(s.address) == Ok(n.address)
  {
    if signers != [] {
      var init, last := signers[..|signers| - 1], signers[|signers| - 1];
      MatchedMeans(init, nodes, s);
      assert forall t :: t in signers <==> t in init || t == last;
    }
  }

  /**
   One signer alone is kept or dropped; with MatchedConcat this fixes the order and the number of
   times for any list.
   */
  lemma {:induction false} MatchedAlone(signer: Option<Signer>, nodes: seq<CredentialNode>)
    ensures Matched([signer], nodes)
            == if signer.Some? && exists n :: n in nodes && ParseAddress(signer.value.address) == Ok(n.address)
               then [signer.value] else []
  {
    assert Matched([signer][..0], nodes) == [];
  }

  // ---------- What signing with several signers leaves ----------

  ghost predicate Targets(signers: seq<Signer>, a: ScAddress) {
    exists s :: s in signers && ParseAddress(s.address) == Ok(a)
  }

  /** The value is what one of the signers, for this address, answers to the preimage. */
  ghost predicate Answered(signers: seq<Signer>, a: ScAddress, preimage: HashIdPreimage, v: ScVal) {
    exists s :: s in signers && ParseAddress(s.address) == Ok(a) && s.sign(preimage, Sha256(preimage)) == Ok(v)
  }

  predicate SameShape(x: Entry, y: Entry) {
    && x.credentials.HasAddress() && y.credentials.HasAddress() && x.root == y.root
    && (x.credentials.Legacy? <==> y.credentials.Legacy?) && (x.credentials.V2? <==> y.credentials.V2?)
    && x.credentials.creds.address == y.credentials.creds.address
    && x.credentials.creds.nonce == y.credentials.creds.nonce
    && Erase(DelegatesOf(x.credentials)) == Erase(DelegatesOf(y.credentials))
  }

  /** Every node of a signer's address carries an answer over this preimage, every other node what it carried before. */
  ghost predicate SignedBy(before: Entry, after: Entry, signers: seq<Signer>, preimage: HashIdPreimage) {
    && SameShape(before, after) && |Nodes(after)| == |Nodes(before)|
    && forall j :: 0 <= j < |Nodes(before)| ==>
         && Nodes(after)[j].address == Nodes(before)[j].address
         && if Targets(signers, Nodes(before)[j].address)
            then Answered(signers, Nodes(before)[j].address, preimage, Nodes(after)[j].signature)
            else Nodes(after)[j].signature == Nodes(before)[j].signature
  }

  lemma {:induction false} SignOneMeans(entry: Entry, s: Signer, expiration: u32, passphrase: string)
    requires entry.credentials.HasAddress() && SignOne(entry, s, expiration, passphrase).Ok?
    ensures Preimage(entry, expiration, passphrase).Ok?
    ensures var after := SignOne(entry, s, expiration, passphrase).value;
            && SignedBy(entry, after, [s], Preimage(entry, expiration, passphrase).value)
            && after.credentials.creds.expiration == expiration
            && Preimage(after, expiration, passphrase) == Preimage(entry, expiration, passphrase)
  {
    SignOneOutcome(entry, s, expiration, passphrase);
    AuthorizeEffect(entry, Some(s), expiration, passphrase, OwnCall(s).options);
    OwnTarget(s, expiration);
  }

  lemma {:induction false} SignedByThen(x: Entry, y: Entry, z: Entry, s: Signer, rest: seq<Signer>,
                                        preimage: HashIdPreimage)
    requires SignedBy(x, y, [s], preimage) && SignedBy(y, z, rest, preimage)
    ensures SignedBy(x, z, [s] + rest, preimage)
  {
    assert forall t :: t in [s] + rest <==> t == s || t in rest;
    assert forall t :: t in [s] <==> t == s;
  }

  lemma {:induction false} SignEachMeans(entry: Entry, signers: seq<Signer>, expiration: u32, passphrase: string)
    requires entry.credentials.HasAddress() && signers != [] && SignEach(entry, signers, expiration, passphrase).Ok?
    ensures Preimage(entry, expiration, passphrase).Ok?
    ensures var after := SignEach(entry, signers, expiration, passphrase).value;
            && SignedBy(entry, after, signers, Preimage(entry, expiration, passphrase).value)
            && after.credentials.creds.expiration == expiration
            && Preimage(after, expiration, passphrase) == Preimage(entry, expiration, passphrase)
    decreases |signers|
  {
    var s, rest := signers[0], signers[1..];
    SignOneMeans(entry, s, expiration, passphrase);
    assert signers == [s] + rest;
    var next := SignOne(entry, s, expiration, passphrase).value;
    if rest != [] {
      SignEachMeans(next, rest, expiration, passphrase);
      SignedByThen(entry, next, SignEach(entry, signers, expiration, passphrase).value, s, rest,
                   Preimage(entry, expiration, passphrase).value);
    }
  }

  // ---------- What AuthorizeAll returns ----------

  /**
   What is signed for an entry: the entry itself or, where its address is a plan's key, the entry
   wrapped in that plan's tree with that plan's signature, or Void, at the top.
   */
  ghost predicate WhatIsSigned(e: Entry, base: Entry, expiration: u32, plans: map<Strkey, DelegatePlan>) {
    && e.credentials.HasAddress() && FormatAddress(e.credentials.creds.address).Ok?
    && var key := FormatAddress(e.credentials.creds.address).value;
    if key !in plans then base == e
    else
      && Build(plans[key].delegates, 1).Ok?
      && base == Entry(WithDelegateTree(AddressCredentials(
                         e.credentials.creds.address, e.credentials.creds.nonce, expiration,
                         if plans[key].topSignature.Some? then plans[key].topSignature.value else Void),
                         Build(plans[key].delegates, 1).value),
                       e.root)
  }

  /** Some supplied signer is for this address. */
  ghost predicate Supplied(signers: seq<Option<Signer>>, a: ScAddress) {
    exists s :: Some(s) in signers && ParseAddress(s.address) == Ok(a)
  }

  /** The value is what a supplied signer, for this address, answers to the preimage. */
  ghost predicate SuppliedAnswer(signers: seq<Option<Signer>>, a: ScAddress, preimage: HashIdPreimage, v: ScVal) {
    exists s :: Some(s) in signers && ParseAddress(s.address) == Ok(a) && s.sign(preimage, Sha256(preimage)) == Ok(v)
  }

  /** How a result relates to what was signed for it. */
  ghost predicate SignedFrom(base: Entry, o: Entry, signers: seq<Option<Signer>>, expiration: u32, passphrase: string) {
    && SameShape(base, o) && o.credentials.creds.expiration == expiration
    && OwnPayload(o, passphrase).Ok? && |Nodes(o)| == |Nodes(base)|
    && (exists n :: n in Nodes(base) && Supplied(signers, n.address))
    && forall j :: 0 <= j < |Nodes(base)| ==>
         && Nodes(o)[j].address == Nodes(base)[j].address
         && if Supplied(signers, Nodes(base)[j].address)
            then SuppliedAnswer(signers, Nodes(base)[j].address, OwnPayload(o, passphrase).value.preimage,
                                Nodes(o)[j].signature)
            else Nodes(o)[j].signature == Nodes(base)[j].signature
  }

  /** What comes back for one entry of a batch. */
  ghost predicate Delivered(e: Entry, o: Entry, signers: seq<Option<Signer>>, expiration: u32, passphrase: string,
                            plans: map<Strkey, DelegatePlan>)
  {
    if e.credentials.SourceAccount? then o == e
    else exists base :: WhatIsSigned(e, base, expiration, plans) && SignedFrom(base, o, signers, expiration, passphrase)
  }

  lemma {:induction false} PreparedIsPlanned(e: Entry, signers: seq<Option<Signer>>, expiration: u32,
                                             plans: map<Strkey, DelegatePlan>)
    requires !e.credentials.SourceAccount? && Prepare(e, signers, expiration, plans).Ok?
    ensures var p := Prepare(e, signers, expiration, plans).value;
            && WhatIsSigned(e, p.entry, expiration, plans) && p.entry.credentials.HasAddress()
            && p.signers == Matched(signers, Nodes(p.entry)) && p.signers != []
  {
  }

  lemma {:induction false} MatchedAtNode(signers: seq<Option<Signer>>, nodes: seq<CredentialNode>, n: CredentialNode,
                                         preimage: HashIdPreimage, v: ScVal)
    requires n in nodes
    ensures Targets(Matched(signers, nodes), n.address) <==> Supplied(signers, n.address)
    ensures Answered(Matched(signers, nodes), n.address, preimage, v)
            <==> SuppliedAnswer(signers, n.address, preimage, v)
  {
    forall s: Signer | ParseAddress(s.address) == Ok(n.address)
      ensures s in Matched(signers, nodes) <==> Some(s) in signers
    {
      MatchedMeans(signers, nodes, s);
    }
  }

  lemma {:induction false} SignedIsFrom(base: Entry, signers: seq<Option<Signer>>, expiration: u32, passphrase: string)
    requires base.credentials.HasAddress() && Matched(signers, Nodes(base)) != []
    requires SignEach(base, Matched(signers, Nodes(base)), expiration, passphrase).Ok?
    ensures SignedFrom(base, SignEach(base, Matched(signers, Nodes(base)), expiration, passphrase).value,
                       signers, expiration, passphrase)
  {
    var matched := Matched(signers, Nodes(base));
    var o := SignEach(base, matched, expiration, passphrase).value;
    SignEachMeans(base, matched, expiration, passphrase);
    var preimage := Preimage(base, expiration, passphrase).value;
    assert OwnPayload(o, passphrase) == Ok(Sha256(preimage));
    MatchedMeans(signers, Nodes(base), matched[0]);
    assert matched[0] in matched;
    forall j | 0 <= j < |Nodes(base)|
      ensures Targets(matched, Nodes(base)[j].address) <==> Supplied(signers, Nodes(base)[j].address)
      ensures Answered(matched, Nodes(base)[j].address, preimage, Nodes(o)[j].signature)
              <==> SuppliedAnswer(signers, Nodes(base)[j].address, preimage, Nodes(o)[j].signature)
    {
      MatchedAtNode(signers, Nodes(base), Nodes(base)[j], preimage, Nodes(o)[j].signature);
    }
  }

  lemma {:induction false} EntryDelivered(e: Entry, signers: seq<Option<Signer>>, expiration: u32, passphrase: string,
                                          plans: map<Strkey, DelegatePlan>)
    requires Prepare(e, signers, expiration, plans).Ok?
    requires SignOf(Prepare(e, signers, expiration, plans).value, expiration, passphrase).Ok?
    ensures Delivered(e, SignOf(Prepare(e, signers, expiration, plans).value, expiration, passphrase).value,
                      signers, expiration, passphrase, plans)
  {
    if !e.credentials.SourceAccount? {
      PreparedIsPlanned(e, signers, expiration, plans);
      SignedIsFrom(Prepare(e, signers, expiration, plans).value.entry, signers, expiration, passphrase);
    }
  }

  /** The entry's address is written as the key, and the plan wraps it. */
  predicate Wrappable(e: Entry, key: Strkey, expiration: u32, plan: DelegatePlan) {
    && e.credentials.HasAddress() && FormatAddress(e.credentials.creds.address) == Ok(key)
    && WithDelegates(e, expiration, plan.delegates, plan.topSignature).Ok?
  }

  lemma {:induction false} UsedMeans(entries: seq<Entry>, signers: seq<Option<Signer>>, expiration: u32,
                                     plans: map<Strkey, DelegatePlan>, key: Strkey)
    requires key in plans
    ensures key in Validate(entries, signers, expiration, plans).used
            <==> exists e :: e in entries && Wrappable(e, key, expiration, plans[key])
  {
    if entries != [] {
      var init, last := entries[..|entries| - 1], entries[|entries| - 1];
      UsedMeans(init, signers, expiration, plans, key);
      assert forall e :: e in entries <==> e in init || e == last;
      assert key in PlanUsed(last, expiration, plans) <==> Wrappable(last, key, expiration, plans[key]);
    }
  }

  /**
   The plans a refused batch reports as unmatched are those that wrap none of its entries, and any
   such plan refuses it.
   */
  lemma {:induction false} UnmatchedMeans(entries: seq<Entry>, signers: seq<Option<Signer>>, expiration: u32,
                                          passphrase: string, plans: map<Strkey, DelegatePlan>, requireAllSigned: bool,
                                          key: Strkey)
    requires key in plans
    ensures var r := AllOutcome(entries, signers, expiration, passphrase, plans, requireAllSigned, false);
            var matches := exists e :: e in entries && Wrappable(e, key, expiration, plans[key]);
            && (!matches ==> r.Err? && r.error.Invalid?)
            && (r.Err? && r.error.Invalid? ==> (key in r.error.unmatched <==> !matches))
  {
    UsedMeans(entries, signers, expiration, plans, key);
    var v := Validate(entries, signers, expiration, plans);
    assert key in plans.Keys - v.used <==> key !in v.used;
    if v.errors == [] && plans.Keys - v.used == {} {
      var out := SignAll(v.prepared, expiration, passphrase);
      if out.Ok? { IncompleteNamesFirst(out.value); } else { SignAllFails(v.prepared, expiration, passphrase); }
    }
  }

  /** Entry k cannot be signed, and every one before it can. */
  ghost predicate FailsAt(prepared: seq<Prepared>, expiration: u32, passphrase: string, k: nat, e: Error) {
    && k < |prepared| && SignOf(prepared[k], expiration, passphrase) == Err(e)
    && forall i :: 0 <= i < k ==> SignOf(prepared[i], expiration, passphrase).Ok?
  }

  lemma {:induction false} FailsAtMore(prepared: seq<Prepared>, expiration: u32, passphrase: string, k: nat, e: Error)
    requires prepared != [] && FailsAt(prepared[..|prepared| - 1], expiration, passphrase, k, e)
    ensures FailsAt(prepared, expiration, passphrase, k, e)
  {
    var init := prepared[..|prepared| - 1];
    assert forall i :: 0 <= i <= k ==> init[i] == prepared[i];
  }

  lemma {:induction false} FailsAtLast(prepared: seq<Prepared>, expiration: u32, passphrase: string, e: Error)
    requires prepared != [] && SignAll(prepared[..|prepared| - 1], expiration, passphrase).Ok?
    requires SignOf(prepared[|prepared| - 1], expiration, passphrase) == Err(e)
    ensures FailsAt(prepared, expiration, passphrase, |prepared| - 1, e)
  {
    var init := prepared[..|prepared| - 1];
    SignAllAt(init, expiration, passphrase);
    assert forall i :: 0 <= i < |init| ==> init[i] == prepared[i] && init[i] in init;
  }

  /** Signing the batch fails at its first entry that cannot be signed, and with that entry's error. */
  lemma {:induction false} SignAllFails(prepared: seq<Prepared>, expiration: u32, passphrase: string)
    requires SignAll(prepared, expiration, passphrase).Err?
    ensures var error := SignAll(prepared, expiration, passphrase).error;
            error.Failed? && FailsAt(prepared, expiration, passphrase, error.index, error.error)
  {
    var n := |prepared| - 1;
    var init := SignAll(prepared[..n], expiration, passphrase);
    SignAllStep(prepared, expiration, passphrase);
    if init.Err? {
      SignAllFails(prepared[..n], expiration, passphrase);
      FailsAtMore(prepared, expiration, passphrase, init.error.index, init.error.error);
    } else {
      FailsAtLast(prepared, expiration, passphrase, SignOf(prepared[n], expiration, passphrase).error);
    }
  }

  lemma {:induction false} SignAllStep(prepared: seq<Prepared>, expiration: u32, passphrase: string)
    requires prepared != []
    ensures var n := |prepared| - 1;
            var init := SignAll(prepared[..n], expiration, passphrase);
            var last := SignOf(prepared[n], expiration, passphrase);
            && (init.Err? ==> SignAll(prepared, expiration, passphrase) == init)
            && (init.Ok? && last.Err? ==> SignAll(prepared, expiration, passphrase) == Err(Failed(n, last.error)))
            && (init.Ok? && last.Ok? ==> SignAll(prepared, expiration, passphrase) == Ok(init.value + [last.value]))
  {
  }

  /** RequireAllSigned names the first entry with an unsigned node. */
  lemma {:induction false} IncompleteNamesFirst(out: seq<Entry>)
    ensures var r := CheckComplete(out);
            r.Err? ==> r.error.Incomplete? && r.error.index < |out| && !FullySigned(out[r.error.index])
                       && forall i :: 0 <= i < r.error.index ==> FullySigned(out[i])
  {
    if out != [] {
      IncompleteNamesFirst(out[..|out| - 1]);
      CompleteMeans(out[..|out| - 1]);
    }
  }

  lemma {:induction false} CompleteMeans(out: seq<Entry>)
    ensures CheckComplete(out).Ok? <==> forall o :: o in out ==> FullySigned(o)
  {
    if out != [] {
      CompleteMeans(out[..|out| - 1]);
      assert forall o :: o in out <==> o in out[..|out| - 1] || o == out[|out| - 1];
    }
  }

  /**
   On success every entry comes back in its place: source-account entries as they were, every other
   entry wrapped if a plan names its address, with each node of a supplied signer's address holding
   such a signer's answer over the payload the result rebuilds, and every other node untouched.
   Every plan was for some entry, and with RequireAllSigned no node of the batch is unsigned.
   */
  lemma {:induction false} AllMeans(entries: seq<Entry>, signers: seq<Option<Signer>>, expiration: u32,
                                    passphrase: string, plans: map<Strkey, DelegatePlan>, requireAllSigned: bool,
                                    cancelled: bool)
    requires AllOutcome(entries, signers, expiration, passphrase, plans, requireAllSigned, cancelled).Ok?
    ensures var out := AllOutcome(entries, signers, expiration, passphrase, plans, requireAllSigned, cancelled).value;
            && !cancelled && |out| == |entries|
            && (forall i :: 0 <= i < |entries| ==>
                  Delivered(entries[i], out[i], signers, expiration, passphrase, plans))
            && (forall key :: key in plans ==>
                  exists e :: e in entries && e.credentials.HasAddress()
                              && FormatAddress(e.credentials.creds.address) == Ok(key))
            && (requireAllSigned ==>
                  forall o, n :: o in out && o.credentials.HasAddress() && n in Nodes(o) ==> IsSigned(n.signature))
  {
    var v := Validate(entries, signers, expiration, plans);
    var out := AllOutcome(entries, signers, expiration, passphrase, plans, requireAllSigned, cancelled).value;
    ValidatedAt(entries, signers, expiration, plans);
    SignAllAt(v.prepared, expiration, passphrase);
    forall i | 0 <= i < |entries| ensures Delivered(entries[i], out[i], signers, expiration, passphrase, plans) {
      EntryDelivered(entries[i], signers, expiration, passphrase, plans);
    }
    forall key | key in plans
      ensures exists e :: e in entries && e.credentials.HasAddress()
                          && FormatAddress(e.credentials.creds.address) == Ok(key)
    {
      assert key !in plans.Keys - v.used;
      UsedMeans(entries, signers, expiration, plans, key);
    }
    CompleteMeans(out);
  }

  /**
   In particular an entry whose address a plan names comes back wrapped in that plan's tree, and
   any other keeps its own.
   */
  lemma {:induction false} PlanApplied(entries: seq<Entry>, signers: seq<Option<Signer>>, expiration: u32,
                                       passphrase: string, plans: map<Strkey, DelegatePlan>, requireAllSigned: bool,
                                       i: nat)
    requires AllOutcome(entries, signers, expiration, passphrase, plans, requireAllSigned, false).Ok? && i < |entries|
    requires entries[i].credentials.HasAddress()
    ensures var out := AllOutcome(entries, signers, expiration, passphrase, plans, requireAllSigned, false).value;
            && |out| == |entries| && FormatAddress(entries[i].credentials.creds.address).Ok?
            && var key := FormatAddress(entries[i].credentials.creds.address).value;
            if key in plans then
              && out[i].credentials.WithDelegateTree? && Build(plans[key].delegates, 1).Ok?
              && Erase(out[i].credentials.delegates) == Erase(Build(plans[key].delegates, 1).value)
              && (!Supplied(signers, entries[i].credentials.creds.address) ==>
                    out[i].credentials.creds.signature
                    == if plans[key].topSignature.Some? then plans[key].topSignature.value else Void)
            else SameShape(entries[i], out[i])
  {
    AllMeans(entries, signers, expiration, passphrase, plans, requireAllSigned, false);
    var o := AllOutcome(entries, signers, expiration, passphrase, plans, requireAllSigned, false).value[i];
    assert Delivered(entries[i], o, signers, expiration, passphrase, plans);
    var base :| && WhatIsSigned(entries[i], base, expiration, plans)
                && SignedFrom(base, o, signers, expiration, passphrase);
    assert Nodes(base)[0] == CredentialNode(base.credentials.creds.address, base.credentials.creds.signature);
    assert Nodes(o)[0] == CredentialNode(o.credentials.creds.address, o.credentials.creds.signature);
  }
}
