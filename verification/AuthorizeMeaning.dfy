/**
 What one AuthorizeEntry call of authorize.go does, said of its arguments and of the nodes of the
 entry alone: whose nodes it writes, when it succeeds, and which refusal it raises.
 */
module AuthorizeMeaning {
  import opened Wrappers
  import opened Bytes
  import opened Xdr
  import opened Preimages
  import opened Authorization
  import opened SigningRuns

  /** Void, a nil vector and an empty vector are the placeholders; anything else is a signature. */
  lemma {:induction false} SignedMeans(v: ScVal)
    ensures !IsSigned(v) <==> v == Void || v == Vec(NilVec) || v == Vec(Items([]))
  {
  }

  /** When a preimage exists, and what it holds: the address on the address-bound arms and not on the legacy one. */
  lemma {:induction false} PreimageMeans(entry: Entry, expiration: u32, passphrase: string)
    ensures Preimage(entry, expiration, passphrase).Ok?
            <==> && passphrase != ""
                 && (entry.credentials.Legacy? || entry.credentials.V2? || entry.credentials.WithDelegateTree?)
                 && (!entry.credentials.Legacy? ==>
                       entry.credentials.creds.address.Account? || entry.credentials.creds.address.Contract?)
    ensures Preimage(entry, expiration, passphrase).Ok? ==>
              var creds := entry.credentials.creds;
              Preimage(entry, expiration, passphrase).value
              == if entry.credentials.Legacy?
                 then SorobanAuthorization(NetworkId(passphrase), creds.nonce, expiration, entry.root)
                 else SorobanAuthorizationWithAddress(NetworkId(passphrase), creds.nonce, expiration, creds.address,
                                                      entry.root)
  {
  }

  /** An AllowResign scope resolves when each of its texts is an address, and covers what one of them parses to. */
  lemma {:induction false} ScopeMeans(scope: seq<Strkey>, a: ScAddress)
    ensures ParseScope(scope).Ok? <==> forall s :: s in scope ==> ParseAddress(s).Ok?
    ensures ParseScope(scope).Ok? ==> (ParseScope(scope).value == [] <==> scope == [])
    ensures ParseScope(scope).Ok? ==>
              (a in ParseScope(scope).value <==> exists s :: s in scope && ParseAddress(s) == Ok(a))
  {
    if scope != [] {
      ScopeMeans(scope[1..], a);
      assert forall s :: s in scope <==> s == scope[0] || s in scope[1..];
    }
  }

  /**
   A successful call writes the signer's answer to the nodes of the address it signs for, which
   is the one ForAddress names if it is given and the signer's own if not, and to no other node.
   */
  lemma {:induction false} WritesTheTarget(entry: Entry, signer: Option<Signer>, expiration: u32, passphrase: string,
                                           options: Options)
    requires entry.credentials.HasAddress()
    requires Authorize(entry, signer, expiration, passphrase, options, false).result.Ok?
    ensures var after := Authorize(entry, signer, expiration, passphrase, options, false).result.value;
            && signer.Some? && after.credentials.HasAddress() && |Nodes(after)| == |Nodes(entry)|
            && OwnPayload(after, passphrase).Ok? && Preimage(entry, expiration, passphrase).Ok?
            && OwnPayload(after, passphrase).value == Sha256(Preimage(entry, expiration, passphrase).value)
            && var wanted := ParseAddress(if options.target.Some? then options.target.value else signer.value.address);
            && var answer := signer.value.sign(Preimage(entry, expiration, passphrase).value,
                                               OwnPayload(after, passphrase).value);
            && answer.Ok?
            && forall i :: 0 <= i < |Nodes(entry)| ==>
                 && Nodes(after)[i].address == Nodes(entry)[i].address
                 && Nodes(after)[i].signature
                    == if wanted == Ok(Nodes(entry)[i].address) then answer.value else Nodes(entry)[i].signature
  {
    AuthorizeEffect(entry, signer, expiration, passphrase, options);
  }

  /** The conditions under which a call on an address entry succeeds, each a check the caller could make. */
  ghost predicate MaySign(entry: Entry, signer: Option<Signer>, expiration: u32, passphrase: string, options: Options)
    requires entry.credentials.HasAddress()
  {
    && expiration != 0 && signer.Some?
    && var wanted := ParseAddress(if options.target.Some? then options.target.value else signer.value.address);
    && wanted.Ok?
    && (forall s :: s in options.resignScope ==> ParseAddress(s).Ok?)
    && (entry.credentials.WithDelegateTree? ==> Ordered(entry.credentials.delegates, 1))
    && (exists n :: n in Nodes(entry) && n.address == wanted.value)
    && (entry.credentials.WithDelegateTree? && entry.credentials.creds.expiration != expiration ==>
          forall n :: n in Nodes(entry) ==> !IsSigned(n.signature))
    && ((exists n :: n in Nodes(entry) && n.address == wanted.value && IsSigned(n.signature)) ==>
          && options.allowResign
          && (options.resignScope == [] || exists s :: s in options.resignScope && ParseAddress(s) == wanted))
    && Preimage(entry, expiration, passphrase).Ok?
    && var preimage := Preimage(entry, expiration, passphrase).value;
    && signer.value.sign(preimage, Sha256(preimage)).Ok?
  }

  lemma {:induction false} SucceedsExactly(entry: Entry, signer: Option<Signer>, expiration: u32, passphrase: string,
                                           options: Options, cancelled: bool)
    requires entry.credentials.HasAddress()
    ensures Authorize(entry, signer, expiration, passphrase, options, cancelled).result.Ok?
            <==> !cancelled && MaySign(entry, signer, expiration, passphrase, options)
  {
    ResolvesExactly(signer, expiration, options);
    if entry.credentials.WithDelegateTree? { ValidateAcceptsOrdered(entry.credentials.delegates, 1); }
  }

  /** The arguments name an address when each of their texts does: the one to sign for, and those of the scope. */
  lemma {:induction false} ResolvesExactly(signer: Option<Signer>, expiration: u32, options: Options)
    ensures Resolve(signer, expiration, options).Ok?
            <==> && expiration != 0 && signer.Some?
                 && ParseAddress(if options.target.Some? then options.target.value else signer.value.address).Ok?
                 && forall s :: s in options.resignScope ==> ParseAddress(s).Ok?
    ensures Resolve(signer, expiration, options).Ok? ==>
              var a := ParseAddress(if options.target.Some? then options.target.value else signer.value.address).value;
              Resolve(signer, expiration, options).value == Target(a, Covers(options, a))
  {
    if signer.Some? {
      var wanted := ParseAddress(if options.target.Some? then options.target.value else signer.value.address);
      if wanted.Ok? { ScopeMeans(options.resignScope, wanted.value); }
    }
  }

  /** The scope resolves, and lets a signature at the address be written over. */
  ghost predicate Covers(options: Options, a: ScAddress) {
    options.allowResign
    && (options.resignScope == [] || exists s :: s in options.resignScope && ParseAddress(s) == Ok(a))
  }

  /** Where everything else would let a signed target be written, AllowResign and its scope decide. */
  lemma {:induction false} ResignExactly(entry: Entry, signer: Option<Signer>, expiration: u32, passphrase: string,
                                         options: Options, wanted: ScAddress)
    requires entry.credentials.HasAddress() && forall s :: s in options.resignScope ==> ParseAddress(s).Ok?
    requires Authorize(entry, signer, expiration, passphrase, Options(options.target, true, []), false).result.Ok?
    requires signer.Some?
    requires ParseAddress(if options.target.Some? then options.target.value else signer.value.address) == Ok(wanted)
    requires exists n :: n in Nodes(entry) && n.address == wanted && IsSigned(n.signature)
    ensures Authorize(entry, signer, expiration, passphrase, options, false).result.Ok? <==> Covers(options, wanted)
  {
    SucceedsExactly(entry, signer, expiration, passphrase, Options(options.target, true, []), false);
    SucceedsExactly(entry, signer, expiration, passphrase, options, false);
  }

  /** What is refused before the nodes are looked at, and with which error. */
  lemma {:induction false} ArgumentRefusals(entry: Entry, signer: Option<Signer>, expiration: u32, passphrase: string,
                                            options: Options)
    requires entry.credentials.HasAddress()
    ensures var r := Authorize(entry, signer, expiration, passphrase, options, false).result;
            && (expiration == 0 ==> r == Err(InvalidExpiration))
            && (expiration != 0 && signer.None? ==> r == Err(MissingSigner))
            && (expiration != 0 && signer.Some? ==>
                  var text := if options.target.Some? then options.target.value else signer.value.address;
                  && (text == Unusable("") ==> r == Err(MissingSigner))
                  && (text != Unusable("") && text.Unusable? ==> r == Err(BadAddress))
                  && (!text.Unusable? && (exists s :: s in options.resignScope && s.Unusable?) ==>
                        r == Err(BadAddress)))
  {
    ScopeMeans(options.resignScope, entry.credentials.creds.address);
    assert forall s: Strkey :: ParseAddress(s).Err? ==> ParseAddress(s) == Err(BadAddress);
    ScopeFails(options.resignScope);
  }

  lemma {:induction false} ScopeFails(scope: seq<Strkey>)
    ensures ParseScope(scope).Err? ==> ParseScope(scope) == Err(BadAddress)
  {
    if scope != [] {
      ScopeFails(scope[1..]);
    }
  }

  /** A tree out of order is refused before its nodes are looked at. */
  lemma {:induction false} OrderRefusal(entry: Entry, signer: Signer, expiration: u32, passphrase: string,
                                        options: Options, wanted: ScAddress)
    requires entry.credentials.WithDelegateTree? && expiration != 0
    requires ParseAddress(if options.target.Some? then options.target.value else signer.address) == Ok(wanted)
    requires forall s :: s in options.resignScope ==> ParseAddress(s).Ok?
    requires !Ordered(entry.credentials.delegates, 1)
    ensures var r := Authorize(entry, Some(signer), expiration, passphrase, options, false).result;
            r.Err? && r.error in {DuplicateDelegate, DelegateOrder, DecodeLimit}
  {
    ResolvesTo(signer, expiration, options, wanted);
    ValidateAcceptsOrdered(entry.credentials.delegates, 1);
    ValidationErrors(entry.credentials.delegates, 1);
  }

  /** What is refused over the nodes, in this order, once the arguments name the address `wanted`. */
  lemma {:induction false} NodeRefusals(entry: Entry, signer: Signer, expiration: u32, passphrase: string,
                                        options: Options, wanted: ScAddress)
    requires entry.credentials.HasAddress() && expiration != 0
    requires entry.credentials.WithDelegateTree? ==> Ordered(entry.credentials.delegates, 1)
    requires ParseAddress(if options.target.Some? then options.target.value else signer.address) == Ok(wanted)
    requires forall s :: s in options.resignScope ==> ParseAddress(s).Ok?
    ensures var r := Authorize(entry, Some(signer), expiration, passphrase, options, false).result;
            var nodes := Nodes(entry);
            if !Mentions(nodes, wanted) then r == Err(NoMatchingCredentialNode)
            else if CommittedTo(entry, expiration) then r == Err(InvalidExpiration)
            else if TargetSigned(nodes, wanted) && !Covers(options, wanted) then r == Err(AlreadySigned)
            else passphrase == "" ==> r == Err(EmptyPassphrase)
  {
    ResolvesTo(signer, expiration, options, wanted);
    if entry.credentials.WithDelegateTree? {
      ValidateAcceptsOrdered(entry.credentials.delegates, 1);
    }
  }

  /** The entry carries signatures, all over the expiration it stores, and that is not this one. */
  ghost predicate CommittedTo(entry: Entry, expiration: u32)
    requires entry.credentials.HasAddress()
  {
    && entry.credentials.WithDelegateTree? && entry.credentials.creds.expiration != expiration
    && exists n :: n in Nodes(entry) && IsSigned(n.signature)
  }

  lemma {:induction false} ResolvesTo(signer: Signer, expiration: u32, options: Options, wanted: ScAddress)
    requires expiration != 0 && forall s :: s in options.resignScope ==> ParseAddress(s).Ok?
    requires ParseAddress(if options.target.Some? then options.target.value else signer.address) == Ok(wanted)
    ensures Resolve(Some(signer), expiration, options) == Ok(Target(wanted, Covers(options, wanted)))
  {
    ResolvesExactly(Some(signer), expiration, options);
  }

  lemma {:induction false} ValidationErrors(nodes: seq<DelegateNode>, depth: nat)
    ensures ValidateLevel(nodes, depth).Err? ==>
              ValidateLevel(nodes, depth).error in {DuplicateDelegate, DelegateOrder, DecodeLimit}
    decreases nodes, 1
  {
    ValidationErrorsFrom(nodes, depth, None);
  }

  lemma {:induction false} ValidationErrorsFrom(nodes: seq<DelegateNode>, depth: nat, previous: Option<seq<byte>>)
    ensures ValidateFrom(nodes, depth, previous).Err? ==>
              ValidateFrom(nodes, depth, previous).error in {DuplicateDelegate, DelegateOrder, DecodeLimit}
    decreases nodes, 0
  {
    if nodes != [] {
      ValidationErrors(nodes[0].nested, depth + 1);
      ValidationErrorsFrom(nodes[1..], depth, Some(AddressBytes(nodes[0].address)));
    }
  }

  /** The first delegate of a level not above the one before it is a duplicate if it is equal, and misordered if not. */
  lemma {:induction false} FirstViolation(nodes: seq<DelegateNode>, depth: nat, i: nat)
    requires depth <= MAX_DEPTH && i + 1 < |nodes| && Ordered(nodes[..i + 1], depth)
    requires !Less(AddressBytes(nodes[i].address), AddressBytes(nodes[i + 1].address))
    ensures ValidateLevel(nodes, depth)
            == if nodes[i].address == nodes[i + 1].address then Err(DuplicateDelegate) else Err(DelegateOrder)
  {
    FirstViolationFrom(nodes, depth, i, None);
  }

  lemma {:induction false} FirstViolationFrom(nodes: seq<DelegateNode>, depth: nat, i: nat, previous: Option<seq<byte>>)
    requires depth <= MAX_DEPTH && i + 1 < |nodes| && Ordered(nodes[..i + 1], depth)
    requires previous.Some? ==> Less(previous.value, AddressBytes(nodes[0].address))
    requires !Less(AddressBytes(nodes[i].address), AddressBytes(nodes[i + 1].address))
    ensures ValidateFrom(nodes, depth, previous)
            == if nodes[i].address == nodes[i + 1].address then Err(DuplicateDelegate) else Err(DelegateOrder)
    decreases i
  {
    var front, current := nodes[..i + 1], AddressBytes(nodes[0].address);
    assert front[0] == nodes[0];
    OrderedCons(front, depth);
    ValidateAcceptsOrdered(nodes[0].nested, depth + 1);
    LessIrreflexive(current);
    if i > 0 {
      assert front[1..] == nodes[1..][..i] && front[1] == nodes[1];
      FirstViolationFrom(nodes[1..], depth, i - 1, Some(current));
    } else {
      AddressBytesInjective(nodes[0].address, nodes[1].address);
    }
  }
}
