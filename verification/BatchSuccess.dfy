/**
 When AuthorizeAll of batch.go succeeds: a condition on the entries, the plans and what each signer
 answers, one signer's turn after another, that holds exactly when the whole batch signs.
 */
module BatchSuccess {
  import opened Wrappers
  import opened Xdr
  import opened Preimages
  import opened Authorization
  import opened AuthorizeMeaning
  import opened SigningRuns
  import opened Delegates
  import opened Batches
  import opened BatchSigning
  import opened BatchMeaning

  function Reply(s: Signer, preimage: HashIdPreimage): Result<ScVal, Error> {
    s.sign(preimage, Sha256(preimage))
  }

  /**
   Signer i's turn succeeds: its address is a node's, unsigned when the entry came in and still
   unsigned after the signers before it for the same address, and the signer answers.
   */
  ghost predicate TurnSigns(nodes: seq<CredentialNode>, signers: seq<Signer>, preimage: HashIdPreimage, i: nat)
    requires i < |signers|
  {
    && ParseAddress(signers[i].address).Ok? && Reply(signers[i], preimage).Ok?
    && var a := ParseAddress(signers[i].address).value;
    && Mentions(nodes, a) && !TargetSigned(nodes, a)
    && NoneSigned(signers, preimage, i, a)
  }

  /** None of the first i signers signs for this address: what they answer are placeholders. */
  ghost predicate NoneSigned(signers: seq<Signer>, preimage: HashIdPreimage, i: nat, a: ScAddress)
    requires i <= |signers|
  {
    forall j :: 0 <= j < i && ParseAddress(signers[j].address) == Ok(a) ==>
      Reply(signers[j], preimage).Ok? && !IsSigned(Reply(signers[j], preimage).value)
  }

  /** Everything that signing an entry with these signers, one after another, depends on. */
  ghost predicate EachSigns(entry: Entry, signers: seq<Signer>, expiration: u32, passphrase: string)
    requires entry.credentials.HasAddress()
  {
    && expiration != 0 && (entry.credentials.WithDelegateTree? ==> Ordered(entry.credentials.delegates, 1))
    && !CommittedTo(entry, expiration) && Preimage(entry, expiration, passphrase).Ok?
    && forall i :: 0 <= i < |signers| ==>
         TurnSigns(Nodes(entry), signers, Preimage(entry, expiration, passphrase).value, i)
  }

  lemma {:induction false} FirstTurn(entry: Entry, s: Signer, expiration: u32, passphrase: string)
    requires entry.credentials.HasAddress()
    ensures SignOne(entry, s, expiration, passphrase).Ok? <==> EachSigns(entry, [s], expiration, passphrase)
  {
    SucceedsExactly(entry, Some(s), expiration, passphrase, OwnCall(s).options, false);
    assert EachSigns(entry, [s], expiration, passphrase) ==>
        TurnSigns(Nodes(entry), [s], Preimage(entry, expiration, passphrase).value, 0);
  }

  /** What a turn leaves for the next one. */
  lemma {:induction false} AfterTurn(entry: Entry, s: Signer, expiration: u32, passphrase: string)
    requires entry.credentials.HasAddress() && SignOne(entry, s, expiration, passphrase).Ok?
    ensures var next := SignOne(entry, s, expiration, passphrase).value;
            && next.credentials.HasAddress() && Preimage(entry, expiration, passphrase).Ok?
            && Preimage(next, expiration, passphrase) == Preimage(entry, expiration, passphrase)
            && !CommittedTo(next, expiration)
            && (next.credentials.WithDelegateTree? ==> Ordered(next.credentials.delegates, 1))
            && SignedBy(entry, next, [s], Preimage(entry, expiration, passphrase).value)
  {
    SignOneMeans(entry, s, expiration, passphrase);
    SignOneOutcome(entry, s, expiration, passphrase);
    if entry.credentials.WithDelegateTree? {
      var target, signature := ParseAddress(s.address).value, Answer(entry, s, expiration, passphrase).value;
      WriteKeepsValidation(entry.credentials.delegates, target, signature, 1);
      ValidateAcceptsOrdered(WriteTree(entry.credentials.delegates, target, signature), 1);
    }
  }

  /** A signer's turn after s is its turn among all the signers, once s has had its own. */
  lemma {:induction false} LaterTurn(entry: Entry, next: Entry, s: Signer, rest: seq<Signer>, preimage: HashIdPreimage,
                                     i: nat)
    requires i < |rest| && SignedBy(entry, next, [s], preimage)
    requires TurnSigns(Nodes(entry), [s], preimage, 0)
    ensures TurnSigns(Nodes(next), rest, preimage, i) <==> TurnSigns(Nodes(entry), [s] + rest, preimage, i + 1)
  {
    assert [s][0] in [s] && forall t :: t in [s] <==> t == s;
    if ParseAddress(rest[i].address).Ok? {
      var a := ParseAddress(rest[i].address).value;
      TurnNodes(Nodes(entry), Nodes(next), s, preimage, a);
      NoneSignedCons(s, rest, preimage, i, a);
    }
  }

  lemma {:induction false} NoneSignedCons(s: Signer, rest: seq<Signer>, preimage: HashIdPreimage, i: nat, a: ScAddress)
    requires i <= |rest| && Reply(s, preimage).Ok?
    ensures NoneSigned([s] + rest, preimage, i + 1, a)
            <==> && (ParseAddress(s.address) == Ok(a) ==> !IsSigned(Reply(s, preimage).value))
                 && NoneSigned(rest, preimage, i, a)
  {
    var all := [s] + rest;
    assert all[0] == s && forall j :: 0 <= j < i ==> all[j + 1] == rest[j];
    if NoneSigned(rest, preimage, i, a) {
      assert forall j :: 0 < j < i + 1 ==> all[j] == rest[j - 1];
    }
  }

  /** After the turn of s the nodes of an address are signed if they were, or if s signed them. */
  lemma {:induction false} TurnNodes(x: seq<CredentialNode>, y: seq<CredentialNode>, s: Signer,
                                     preimage: HashIdPreimage, a: ScAddress)
    requires TurnSigns(x, [s], preimage, 0) && |x| == |y|
    requires forall j :: 0 <= j < |x| ==>
               && y[j].address == x[j].address
               && y[j].signature == if ParseAddress(s.address) == Ok(x[j].address) then Reply(s, preimage).value
                                    else x[j].signature
    ensures Mentions(y, a) <==> Mentions(x, a)
    ensures Mentions(x, a) ==>
              (TargetSigned(y, a) <==> if ParseAddress(s.address) == Ok(a) then IsSigned(Reply(s, preimage).value)
                                       else TargetSigned(x, a))
  {
    if j: nat :| j < |x| && x[j].address == a {
      assert y[j] in y && y[j].address == a;
      assert x[j] in x;
      assert ParseAddress(s.address) == Ok(a) ==> y[j].signature == Reply(s, preimage).value;
    }
    if Mentions(x, a) {
      var n :| n in x && n.address == a;
    }
    if TargetSigned(y, a) {
      var n :| n in y && n.address == a && IsSigned(n.signature);
      var j :| 0 <= j < |y| && y[j] == n;
      assert x[j] in x;
    }
    if TargetSigned(x, a) && ParseAddress(s.address) != Ok(a) {
      var n :| n in x && n.address == a && IsSigned(n.signature);
      var j :| 0 <= j < |x| && x[j] == n;
      assert y[j] in y && y[j] == n;
    }
  }

  /** Signing one after another succeeds exactly when every turn does. */
  lemma {:induction false} SignEachExactly(entry: Entry, signers: seq<Signer>, expiration: u32, passphrase: string)
    requires entry.credentials.HasAddress() && signers != []
    ensures SignEach(entry, signers, expiration, passphrase).Ok? <==> EachSigns(entry, signers, expiration, passphrase)
    decreases |signers|
  {
    var s, rest := signers[0], signers[1..];
    assert signers == [s] + rest;
    FirstTurn(entry, s, expiration, passphrase);
    assert EachSigns(entry, signers, expiration, passphrase) ==>
        TurnSigns(Nodes(entry), signers, Preimage(entry, expiration, passphrase).value, 0);
    if SignOne(entry, s, expiration, passphrase).Ok? {
      var next := SignOne(entry, s, expiration, passphrase).value;
      AfterTurn(entry, s, expiration, passphrase);
      var preimage := Preimage(entry, expiration, passphrase).value;
      assert TurnSigns(Nodes(entry), [s], preimage, 0);
      forall i | 0 <= i < |rest|
        ensures TurnSigns(Nodes(next), rest, preimage, i) <==> TurnSigns(Nodes(entry), signers, preimage, i + 1)
      {
        LaterTurn(entry, next, s, rest, preimage, i);
      }
      assert TurnSigns(Nodes(entry), signers, preimage, 0);
      if rest != [] { SignEachExactly(next, rest, expiration, passphrase); }
      TurnsSplit(Nodes(entry), Nodes(next), s, rest, preimage);
    }
  }

  lemma {:induction false} TurnsSplit(x: seq<CredentialNode>, y: seq<CredentialNode>, s: Signer, rest: seq<Signer>,
                                      preimage: HashIdPreimage)
    requires TurnSigns(x, [s] + rest, preimage, 0)
    requires forall i :: 0 <= i < |rest| ==>
               (TurnSigns(y, rest, preimage, i) <==> TurnSigns(x, [s] + rest, preimage, i + 1))
    ensures (forall i :: 0 <= i < |rest| ==> TurnSigns(y, rest, preimage, i))
            <==> forall i :: 0 <= i < |[s] + rest| ==> TurnSigns(x, [s] + rest, preimage, i)
  {
    if forall i :: 0 <= i < |rest| ==> TurnSigns(y, rest, preimage, i) {
      forall i | 0 <= i < |[s] + rest| ensures TurnSigns(x, [s] + rest, preimage, i) {
        assert i > 0 ==> TurnSigns(y, rest, preimage, i - 1);
      }
    }
  }

  // ---------- The whole batch ----------

  /** A plan for the entry's address can wrap it. */
  predicate PlanFits(e: Entry, expiration: u32, plans: map<Strkey, DelegatePlan>)
    requires e.credentials.HasAddress() && FormatAddress(e.credentials.creds.address).Ok?
  {
    var key := FormatAddress(e.credentials.creds.address).value;
    key in plans ==>
      && (e.credentials.Legacy? || e.credentials.V2?) && expiration != 0
      && !IsSigned(e.credentials.creds.signature) && Buildable(plans[key].delegates, 1)
  }

  /** An entry that a batch can sign: someone is there for it, and every signer that applies can have its turn. */
  ghost predicate EntrySigns(e: Entry, signers: seq<Option<Signer>>, expiration: u32, passphrase: string,
                             plans: map<Strkey, DelegatePlan>)
  {
    e.credentials.SourceAccount?
    || (&& e.credentials.HasAddress() && FormatAddress(e.credentials.creds.address).Ok?
        && PlanFits(e, expiration, plans)
        && exists base :: WhatIsSigned(e, base, expiration, plans)
                          && (exists n :: n in Nodes(base) && Supplied(signers, n.address))
                          && EachSigns(base, Matched(signers, Nodes(base)), expiration, passphrase))
  }

  lemma {:induction false} SomeoneMatches(signers: seq<Option<Signer>>, nodes: seq<CredentialNode>)
    ensures Matched(signers, nodes) != [] <==> exists n :: n in nodes && Supplied(signers, n.address)
  {
    if Matched(signers, nodes) != [] {
      MatchedMeans(signers, nodes, Matched(signers, nodes)[0]);
    }
    if n :| n in nodes && Supplied(signers, n.address) {
      var s :| Some(s) in signers && ParseAddress(s.address) == Ok(n.address);
      MatchedMeans(signers, nodes, s);
    }
  }

  /** What a plan makes of an entry, exactly when it can. */
  lemma {:induction false} PlannedExactly(e: Entry, expiration: u32, plans: map<Strkey, DelegatePlan>)
    requires !e.credentials.SourceAccount?
    ensures Planned(e, expiration, plans).Ok?
            <==> && e.credentials.HasAddress() && FormatAddress(e.credentials.creds.address).Ok?
                 && PlanFits(e, expiration, plans)
    ensures Planned(e, expiration, plans).Ok? ==>
              forall base :: WhatIsSigned(e, base, expiration, plans) <==> base == Planned(e, expiration, plans).value
  {
    if e.credentials.HasAddress() && FormatAddress(e.credentials.creds.address).Ok? {
      var key := FormatAddress(e.credentials.creds.address).value;
      if key in plans {
        WithDelegatesOutcome(e, expiration, plans[key].delegates, plans[key].topSignature);
      }
    }
  }

  /** Preparing the entry, and then signing it, succeed. */
  predicate CanSign(e: Entry, signers: seq<Option<Signer>>, expiration: u32, passphrase: string,
                    plans: map<Strkey, DelegatePlan>)
  {
    var p := Prepare(e, signers, expiration, plans);
    p.Ok? && SignOf(p.value, expiration, passphrase).Ok?
  }

  lemma {:induction false} EntrySignsExactly(e: Entry, signers: seq<Option<Signer>>, expiration: u32,
                                             passphrase: string, plans: map<Strkey, DelegatePlan>)
    ensures CanSign(e, signers, expiration, passphrase, plans)
            <==> EntrySigns(e, signers, expiration, passphrase, plans)
  {
    if !e.credentials.SourceAccount? {
      PlannedExactly(e, expiration, plans);
      if Planned(e, expiration, plans).Ok? {
        var base := Planned(e, expiration, plans).value;
        assert WhatIsSigned(e, base, expiration, plans);
        BaseSignsExactly(base, signers, expiration, passphrase);
      }
    }
  }

  lemma {:induction false} BaseSignsExactly(base: Entry, signers: seq<Option<Signer>>, expiration: u32,
                                            passphrase: string)
    requires base.credentials.HasAddress()
    ensures var matched := Matched(signers, Nodes(base));
            (NodesOf(base).Ok? && matched != [] && SignEach(base, matched, expiration, passphrase).Ok?)
            <==> (exists n :: n in Nodes(base) && Supplied(signers, n.address))
                 && EachSigns(base, matched, expiration, passphrase)
  {
    var matched := Matched(signers, Nodes(base));
    SomeoneMatches(signers, Nodes(base));
    if matched != [] {
      SignEachExactly(base, matched, expiration, passphrase);
      if EachSigns(base, matched, expiration, passphrase) && base.credentials.WithDelegateTree? {
        OrderedIsWithinDepth(base.credentials.delegates, 1);
      }
    }
  }

  /**
   AuthorizeAll succeeds exactly when the context is alive, every entry can be signed and every plan
   wraps some entry; with RequireAllSigned, when no node of what it then returns is unsigned.
   */
  lemma {:induction false} AllSucceedsExactly(entries: seq<Entry>, signers: seq<Option<Signer>>, expiration: u32,
                                              passphrase: string, plans: map<Strkey, DelegatePlan>, cancelled: bool)
    ensures AllOutcome(entries, signers, expiration, passphrase, plans, false, cancelled).Ok?
            <==> && !cancelled
                 && (forall e :: e in entries ==> EntrySigns(e, signers, expiration, passphrase, plans))
                 && (forall key :: key in plans ==>
                       exists e :: e in entries && Wrappable(e, key, expiration, plans[key]))
    ensures AllOutcome(entries, signers, expiration, passphrase, plans, true, cancelled).Ok?
            <==> var r := AllOutcome(entries, signers, expiration, passphrase, plans, false, cancelled);
                 r.Ok? && forall o, n :: o in r.value && o.credentials.HasAddress() && n in Nodes(o) ==>
                            IsSigned(n.signature)
  {
    var v := Validate(entries, signers, expiration, plans);
    ValidatedAt(entries, signers, expiration, plans);
    SignAllAt(v.prepared, expiration, passphrase);
    var signs := forall e :: e in entries ==> EntrySigns(e, signers, expiration, passphrase, plans);
    AllEntriesSign(entries, signers, expiration, passphrase, plans);
    AllPlansUsed(entries, signers, expiration, plans);
    if signs && plans.Keys - v.used == {} { CompleteMeans(SignAll(v.prepared, expiration, passphrase).value); }
  }

  lemma {:induction false} AllEntriesSign(entries: seq<Entry>, signers: seq<Option<Signer>>, expiration: u32,
                                          passphrase: string, plans: map<Strkey, DelegatePlan>)
    ensures var v := Validate(entries, signers, expiration, plans);
            (v.errors == [] && SignAll(v.prepared, expiration, passphrase).Ok?)
            <==> forall e :: e in entries ==> EntrySigns(e, signers, expiration, passphrase, plans)
  {
    var v := Validate(entries, signers, expiration, plans);
    ValidatedAt(entries, signers, expiration, plans);
    forall i | 0 <= i < |entries|
      ensures CanSign(entries[i], signers, expiration, passphrase, plans)
              <==> EntrySigns(entries[i], signers, expiration, passphrase, plans)
    {
      EntrySignsExactly(entries[i], signers, expiration, passphrase, plans);
    }
    if v.errors == [] {
      SignAllAt(v.prepared, expiration, passphrase);
      forall i | 0 <= i < |entries|
        ensures CanSign(entries[i], signers, expiration, passphrase, plans)
                <==> SignOf(v.prepared[i], expiration, passphrase).Ok?
        ensures v.prepared[i] in v.prepared
      {
      }
    }
    assert forall e :: e in entries <==> exists i :: 0 <= i < |entries| && entries[i] == e;
  }

  lemma {:induction false} AllPlansUsed(entries: seq<Entry>, signers: seq<Option<Signer>>, expiration: u32,
                                        plans: map<Strkey, DelegatePlan>)
    ensures plans.Keys - Validate(entries, signers, expiration, plans).used == {}
            <==> forall key :: key in plans ==> exists e :: e in entries && Wrappable(e, key, expiration, plans[key])
  {
    var used := Validate(entries, signers, expiration, plans).used;
    forall key | key in plans
      ensures key in used <==> exists e :: e in entries && Wrappable(e, key, expiration, plans[key])
    {
      UsedMeans(entries, signers, expiration, plans, key);
    }
    assert plans.Keys - used == {} <==> forall key :: key in plans ==> key in used by {
      if forall key :: key in plans ==> key in used { assert plans.Keys - used == {}; }
      if plans.Keys - used == {} {
        forall key | key in plans ensures key in used { assert key !in plans.Keys - used; }
      }
    }
  }
}
