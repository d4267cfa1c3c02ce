/** verify.go and the ed25519 signer of signer.go: offline verification of an entry's signatures. */
module Verification {
  import opened Wrappers
  import opened Bytes
  import opened Xdr
  import opened Preimages
  import opened Authorization
  import opened Delegates
  import opened Batches
  import opened SigningRuns

  // ---------- The account signature shape ----------

  const PUBLIC_KEY_NAME: seq<byte> := [112, 117, 98, 108, 105, 99, 95, 107, 101, 121]
  const SIGNATURE_NAME: seq<byte> := [115, 105, 103, 110, 97, 116, 117, 114, 101]

  /** scVec(accountSignature(key, signature)): a vector holding one {public_key, signature} map. */
  function AccountSignature(key: seq<byte>, signature: seq<byte>): (v: ScVal)
    ensures IsSigned(v)
  {
    Vec(Items([Map(Entries([MapEntry(Symbol(PUBLIC_KEY_NAME), ScVal.Bytes(key)),
                            MapEntry(Symbol(SIGNATURE_NAME), ScVal.Bytes(signature))]))]))
  }

  datatype KeyAndSignature = KeyAndSignature(key: seq<byte>, signature: seq<byte>)

  /** The fields read so far from a signature map. */
  datatype Fields = Fields(key: Option<seq<byte>>, signature: Option<seq<byte>>)

  /** Entries with symbol keys are read in order, a later one replacing an earlier one; others are passed over. */
  function ReadFields(entries: seq<MapEntry>): (r: Option<Fields>) {
    if entries == [] then Some(Fields(None, None))
    else
      var init, last := ReadFields(entries[..|entries| - 1]), entries[|entries| - 1];
      if init.None? then None
      else if !last.key.Symbol? then init
      else if !last.val.Bytes? then None
      else if last.key.sym == PUBLIC_KEY_NAME then Some(Fields(Some(last.val.bytes), init.value.signature))
      else if last.key.sym == SIGNATURE_NAME then Some(Fields(init.value.key, Some(last.val.bytes)))
      else init
  }

  function ParseAccountSignature(value: ScVal): (r: Option<KeyAndSignature>)
    ensures r.Some? ==> |r.value.key| == 32 && |r.value.signature| == 64
  {
    if !value.Vec? || value.vec.NilVec? || |value.vec.vals| != 1 then None
    else
      var element := value.vec.vals[0];
      if !element.Map? || element.entries.NilMap? then None
      else
        match ReadFields(element.entries.pairs)
        case None => None
        case Some(fields) =>
          if fields.key.None? || fields.signature.None? then None
          else if |fields.key.value| != 32 || |fields.signature.value| != 64 then None
          else Some(KeyAndSignature(fields.key.value, fields.signature.value))
  }

  /** The loop over the map's entries. */
  method ParseSignature(value: ScVal) returns (r: Option<KeyAndSignature>)
    ensures r == ParseAccountSignature(value)
  {
    if !value.Vec? || value.vec.NilVec? || |value.vec.vals| != 1 {
      return None;
    }
    var element := value.vec.vals[0];
    if !element.Map? || element.entries.NilMap? {
      return None;
    }
    var entries := element.entries.pairs;
    var key: Option<seq<byte>>, signature: Option<seq<byte>> := None, None;
    for i := 0 to |entries|
      invariant ReadFields(entries[..i]) == Some(Fields(key, signature))
    {
      assert entries[..i + 1][..i] == entries[..i];
      var e := entries[i];
      if e.key.Symbol? {
        if !e.val.Bytes? {
          ReadFieldsStops(entries, i);
          return None;
        }
        if e.key.sym == PUBLIC_KEY_NAME {
          key := Some(e.val.bytes);
        } else if e.key.sym == SIGNATURE_NAME {
          signature := Some(e.val.bytes);
        }
      }
    }
    assert entries[..|entries|] == entries;
    if key.None? || signature.None? || |key.value| != 32 || |signature.value| != 64 {
      return None;
    }
    return Some(KeyAndSignature(key.value, signature.value));
  }

  lemma {:induction false} ReadFieldsStops(entries: seq<MapEntry>, i: nat)
    requires i < |entries| && ReadFields(entries[..i + 1]).None?
    ensures ReadFields(entries).None?
  {
    if i + 1 < |entries| {
      var init := entries[..|entries| - 1];
      assert init[..i + 1] == entries[..i + 1];
      ReadFieldsStops(init, i);
    } else {
      assert entries[..i + 1] == entries;
    }
  }

  /** Reading back what the signer wrote. */
  lemma {:induction false} ParseWritten(key: seq<byte>, signature: seq<byte>)
    requires |key| == 32 && |signature| == 64
    ensures ParseAccountSignature(AccountSignature(key, signature)) == Some(KeyAndSignature(key, signature))
  {
    var e0 := MapEntry(Symbol(PUBLIC_KEY_NAME), ScVal.Bytes(key));
    var e1 := MapEntry(Symbol(SIGNATURE_NAME), ScVal.Bytes(signature));
    assert [e0][..0] == [] && [e0, e1][..1] == [e0];
    assert PUBLIC_KEY_NAME[1] != SIGNATURE_NAME[1];
    assert ReadFields([e0]) == Some(Fields(Some(key), None));
    assert ReadFields([e0, e1]) == Some(Fields(Some(key), Some(signature)));
  }

  // ---------- ed25519 ----------

  /** Verification under a public key, left to the curve; a signature of the wrong length never verifies. */
  datatype Curve = Curve(check: (seq<byte>, Payload, seq<byte>) -> bool) {
    predicate Verifies(key: seq<byte>, payload: Payload, signature: seq<byte>) {
      |signature| == 64 && check(key, payload, signature)
    }
  }

  /** A key pair: its raw public key, and whatever its Sign returns. */
  datatype Keypair = Keypair(key: Bytes32, sign: Payload -> Result<seq<byte>, Error>)

  /** ed25519Signer.Sign: the signature is verified before it is returned. */
  function SignEd25519(kp: Keypair, curve: Curve, payload: Payload): (r: Result<ScVal, Error>) {
    var signature :- kp.sign(payload);
    if !curve.Verifies(kp.key, payload, signature) then Err(SignerFailed(0))
    else Ok(AccountSignature(kp.key, signature))
  }

  function Ed25519Signer(kp: Keypair, curve: Curve): Signer {
    Signer(GKey(kp.key), (preimage: HashIdPreimage, payload: Payload) => SignEd25519(kp, curve, payload))
  }

  // ---------- Verdicts ----------

  datatype Verdict = Verified | Unsigned | InvalidSignature | CannotCheck

  datatype NodeVerdict = NodeVerdict(address: Strkey, verdict: Verdict)

  function VerdictOf(n: CredentialNode, payload: Payload, curve: Curve): (v: Verdict) {
    if !n.address.Account? then CannotCheck
    else if !IsSigned(n.signature) then Unsigned
    else
      match ParseAccountSignature(n.signature)
      case None => CannotCheck
      case Some(ks) => if curve.Verifies(ks.key, payload, ks.signature) then Verified else InvalidSignature
  }

  function VerifyNode(n: CredentialNode, payload: Payload, curve: Curve): (r: Result<NodeVerdict, Error>) {
    var address :- FormatAddress(n.address);
    Ok(NodeVerdict(address, VerdictOf(n, payload, curve)))
  }

  function VerifyNodes(nodes: seq<CredentialNode>, payload: Payload, curve: Curve):
    (r: Result<seq<NodeVerdict>, Error>)
  {
    if nodes == [] then Ok([])
    else
      var init :- VerifyNodes(nodes[..|nodes| - 1], payload, curve);
      var last :- VerifyNode(nodes[|nodes| - 1], payload, curve);
      Ok(init + [last])
  }

  /** VerifyEntry's report: one verdict per node, top-level first; none for a source account. */
  function Verify(entry: Entry, passphrase: string, curve: Curve): (r: Result<seq<NodeVerdict>, Error>) {
    if entry.credentials.SourceAccount? then Ok([])
    else
      var creds :- GetCredentials(entry.credentials);
      var _ :- FormatAddress(creds.address);
      var payload :- OwnPayload(entry, passphrase);
      var nodes :- NodesOf(entry);
      VerifyNodes(nodes, payload, curve)
  }

  /** The accumulating loop of VerifyEntryContext. */
  method VerifyEntry(entry: Entry, passphrase: string, curve: Curve) returns (r: Result<seq<NodeVerdict>, Error>)
    ensures r == Verify(entry, passphrase, curve)
  {
    if entry.credentials.SourceAccount? {
      return Ok([]);
    }
    var creds :- GetCredentials(entry.credentials);
    var _ :- FormatAddress(creds.address);
    var payload :- OwnPayload(entry, passphrase);
    var nodes :- NodesOf(entry);
    var report := [];
    for i := 0 to |nodes|
      invariant VerifyNodes(nodes[..i], payload, curve) == Ok(report)
    {
      assert nodes[..i + 1][..i] == nodes[..i];
      var verdict := VerifyNode(nodes[i], payload, curve);
      if verdict.Err? {
        VerifyNodesStops(nodes, i, payload, curve);
        return Err(verdict.error);
      }
      report := report + [verdict.value];
    }
    assert nodes[..|nodes|] == nodes;
    return Ok(report);
  }

  lemma {:induction false} VerifyNodesStops(nodes: seq<CredentialNode>, i: nat, payload: Payload, curve: Curve)
    requires i < |nodes| && VerifyNodes(nodes[..i], payload, curve).Ok? && VerifyNode(nodes[i], payload, curve).Err?
    ensures VerifyNodes(nodes, payload, curve) == Err(VerifyNode(nodes[i], payload, curve).error)
  {
    if i + 1 < |nodes| {
      var init := nodes[..|nodes| - 1];
      assert init[..i] == nodes[..i];
      VerifyNodesStops(init, i, payload, curve);
    }
  }

  /** VerificationReport.Verified: every node verified. */
  predicate AllVerified(report: seq<NodeVerdict>) {
    forall v | v in report :: v.verdict.Verified?
  }

  /** The report reads off each node, in order, and exists when every address can be written down. */
  lemma {:induction false} VerifyNodesAt(nodes: seq<CredentialNode>, payload: Payload, curve: Curve)
    ensures VerifyNodes(nodes, payload, curve).Ok? <==> forall n :: n in nodes ==> FormatAddress(n.address).Ok?
    ensures var r := VerifyNodes(nodes, payload, curve);
            r.Ok? ==> |r.value| == |nodes|
                      && forall i :: 0 <= i < |nodes| ==>
                           r.value[i] == NodeVerdict(FormatAddress(nodes[i].address).value,
                                                     VerdictOf(nodes[i], payload, curve))
  {
    if nodes != [] {
      var init, last := nodes[..|nodes| - 1], nodes[|nodes| - 1];
      VerifyNodesAt(init, payload, curve);
      assert nodes == init + [last];
      assert last in nodes && forall n :: n in init ==> n in nodes;
      assert VerifyNodes(nodes, payload, curve).Ok?
          <==> VerifyNodes(init, payload, curve).Ok? && FormatAddress(last.address).Ok?;
    }
  }

  // ---------- What each verdict means ----------

  /** The last entry of a map under a symbol holds these bytes. */
  ghost predicate LastUnder(entries: seq<MapEntry>, name: seq<byte>, data: seq<byte>) {
    exists i :: 0 <= i < |entries| && entries[i] == MapEntry(Symbol(name), ScVal.Bytes(data))
                && forall j :: i < j < |entries| ==> entries[j].key != Symbol(name)
  }

  /** A vector of one map whose symbol-keyed entries all hold bytes, the last under each name a key and a signature. */
  ghost predicate Reads(value: ScVal, key: seq<byte>, signature: seq<byte>) {
    && value.Vec? && value.vec.Items? && |value.vec.vals| == 1
    && value.vec.vals[0].Map? && value.vec.vals[0].entries.Entries?
    && var entries := value.vec.vals[0].entries.pairs;
    && (forall e :: e in entries && e.key.Symbol? ==> e.val.Bytes?)
    && LastUnder(entries, PUBLIC_KEY_NAME, key) && LastUnder(entries, SIGNATURE_NAME, signature)
    && |key| == 32 && |signature| == 64
  }

  /** The two symbols, letter by letter. */
  lemma {:induction false} NamesSpelt()
    ensures |PUBLIC_KEY_NAME| == |"public_key"|
    ensures forall i :: 0 <= i < |PUBLIC_KEY_NAME| ==> PUBLIC_KEY_NAME[i] == "public_key"[i] as int
    ensures |SIGNATURE_NAME| == |"signature"|
    ensures forall i :: 0 <= i < |SIGNATURE_NAME| ==> SIGNATURE_NAME[i] == "signature"[i] as int
  {
  }

  lemma {:induction false} LastUnderSnoc(init: seq<MapEntry>, last: MapEntry, name: seq<byte>, data: seq<byte>)
    ensures LastUnder(init + [last], name, data)
            <==> if last.key == Symbol(name) then last.val == ScVal.Bytes(data) else LastUnder(init, name, data)
  {
    var all := init + [last];
    assert forall i :: 0 <= i < |init| ==> all[i] == init[i];
    if last.key == Symbol(name) && last.val == ScVal.Bytes(data) {
      assert all[|init|] == last;
    }
    if LastUnder(init, name, data) && last.key != Symbol(name) {
      var i :| 0 <= i < |init| && init[i] == MapEntry(Symbol(name), ScVal.Bytes(data))
               && forall j :: i < j < |init| ==> init[j].key != Symbol(name);
      assert all[i] == init[i];
    }
  }

  /** Reading in order with later entries replacing earlier ones is taking the last entry under each name. */
  lemma {:induction false} ReadFieldsMean(entries: seq<MapEntry>, data: seq<byte>)
    ensures ReadFields(entries).Some? <==> forall e :: e in entries && e.key.Symbol? ==> e.val.Bytes?
    ensures ReadFields(entries).Some? ==>
              && (ReadFields(entries).value.key == Some(data) <==> LastUnder(entries, PUBLIC_KEY_NAME, data))
              && (ReadFields(entries).value.signature == Some(data) <==> LastUnder(entries, SIGNATURE_NAME, data))
  {
    if entries != [] {
      var init, last := entries[..|entries| - 1], entries[|entries| - 1];
      ReadFieldsMean(init, data);
      LastUnderSnoc(init, last, PUBLIC_KEY_NAME, data);
      LastUnderSnoc(init, last, SIGNATURE_NAME, data);
      assert entries == init + [last] && PUBLIC_KEY_NAME[0] != SIGNATURE_NAME[0];
      assert forall e :: e in entries <==> e in init || e == last;
    }
  }

  lemma {:induction false} ParseMeans(value: ScVal, key: seq<byte>, signature: seq<byte>)
    ensures ParseAccountSignature(value) == Some(KeyAndSignature(key, signature)) <==> Reads(value, key, signature)
  {
    if value.Vec? && value.vec.Items? && |value.vec.vals| == 1
       && value.vec.vals[0].Map? && value.vec.vals[0].entries.Entries? {
      var entries := value.vec.vals[0].entries.pairs;
      ReadFieldsMean(entries, key);
      ReadFieldsMean(entries, signature);
    }
  }

  /** Each of the four verdicts, from the node alone. In particular nothing verifies that the curve does not accept. */
  lemma {:induction false} VerdictMeans(n: CredentialNode, payload: Payload, curve: Curve)
    ensures VerdictOf(n, payload, curve) == Verified
            <==> n.address.Account?
                 && exists key, signature :: Reads(n.signature, key, signature) && curve.check(key, payload, signature)
    ensures VerdictOf(n, payload, curve) == InvalidSignature
            <==> n.address.Account?
                 && exists key, signature :: Reads(n.signature, key, signature) && !curve.check(key, payload, signature)
    ensures VerdictOf(n, payload, curve) == Unsigned
            <==> && n.address.Account?
                 && (n.signature == Void || n.signature == Vec(NilVec) || n.signature == Vec(Items([])))
    ensures VerdictOf(n, payload, curve) == CannotCheck
            <==> !n.address.Account?
                 || (IsSigned(n.signature) && forall key, signature :: !Reads(n.signature, key, signature))
  {
    forall key, signature
      ensures ParseAccountSignature(n.signature) == Some(KeyAndSignature(key, signature))
              <==> Reads(n.signature, key, signature)
    {
      ParseMeans(n.signature, key, signature);
    }
    var parsed := ParseAccountSignature(n.signature);
    if parsed.Some? {
      assert Reads(n.signature, parsed.value.key, parsed.value.signature);
    }
  }

  /**
   The report of an address entry: it exists when every address can be written down, the network
   is named and the tree is not too deep, and gives each node, in order, its verdict over the
   payload the entry rebuilds from its own stored expiration.
   */
  lemma {:induction false} ReportMeans(entry: Entry, passphrase: string, curve: Curve)
    requires entry.credentials.HasAddress()
    ensures Verify(entry, passphrase, curve).Ok?
            <==> && passphrase != "" && (forall n :: n in Nodes(entry) ==> n.address.Account? || n.address.Contract?)
                 && (entry.credentials.WithDelegateTree? ==> WithinDepth(entry.credentials.delegates, 1))
    ensures Verify(entry, passphrase, curve).Ok? ==>
              var r := Verify(entry, passphrase, curve).value;
              && OwnPayload(entry, passphrase).Ok? && |r| == |Nodes(entry)|
              && forall i :: 0 <= i < |r| ==>
                   && ParseAddress(r[i].address) == Ok(Nodes(entry)[i].address)
                   && r[i].verdict == VerdictOf(Nodes(entry)[i], OwnPayload(entry, passphrase).value, curve)
  {
    assert Nodes(entry)[0] in Nodes(entry) && Nodes(entry)[0].address == entry.credentials.creds.address;
    if OwnPayload(entry, passphrase).Ok? {
      VerifyNodesAt(Nodes(entry), OwnPayload(entry, passphrase).value, curve);
    }
  }

  /**
   A report is Verified only if every node is an account whose signature the curve accepts over the
   entry's payload.
   */
  lemma {:induction false} AllVerifiedMeans(entry: Entry, passphrase: string, curve: Curve)
    requires entry.credentials.HasAddress() && Verify(entry, passphrase, curve).Ok?
    ensures OwnPayload(entry, passphrase).Ok?
    ensures AllVerified(Verify(entry, passphrase, curve).value)
            <==> forall n :: n in Nodes(entry) ==>
                   && n.address.Account?
                   && exists key, signature :: Reads(n.signature, key, signature)
                                               && curve.check(key, OwnPayload(entry, passphrase).value, signature)
  {
    ReportMeans(entry, passphrase, curve);
    var r, payload := Verify(entry, passphrase, curve).value, OwnPayload(entry, passphrase).value;
    forall i | 0 <= i < |r|
      ensures r[i].verdict == Verified
              <==> && Nodes(entry)[i].address.Account?
                   && exists key, signature :: Reads(Nodes(entry)[i].signature, key, signature)
                                               && curve.check(key, payload, signature)
    {
      VerdictMeans(Nodes(entry)[i], payload, curve);
      assert r[i] in r && Nodes(entry)[i] in Nodes(entry);
    }
  }

  // ---------- Sign, then verify ----------

  /** A fresh ed25519 signature on a G-address verifies over the payload it was made for. */
  lemma {:induction false} SignedNodeVerifies(kp: Keypair, curve: Curve, target: ScAddress, payload: Payload)
    requires SignEd25519(kp, curve, payload).Ok? && target.Account?
    ensures VerdictOf(CredentialNode(target, SignEd25519(kp, curve, payload).value), payload, curve) == Verified
  {
    ParseWritten(kp.key, kp.sign(payload).value);
  }

  /** A node nobody wrote keeps its verdict: it is unsigned or uncheckable, or its payload has not moved. */
  lemma {:induction false} OtherVerdictsStay(entry: Entry, n: CredentialNode, expiration: u32, target: ScAddress,
                                             before: Payload, after: Payload, curve: Curve)
    requires entry.credentials.HasAddress() && n in Nodes(entry) && n.address != target
    requires Mentions(Nodes(entry), target)
    requires !CommittedElsewhere(entry, expiration)
    requires entry.credentials.creds.expiration == expiration ==> before == after
    ensures VerdictOf(n, before, curve) == VerdictOf(n, after, curve)
  {
  }

  /** The verdict on node i, over the payload the entry rebuilds. */
  function VerdictAt(entry: Entry, i: nat, passphrase: string, curve: Curve): Verdict
    requires entry.credentials.HasAddress() && i < |Nodes(entry)| && OwnPayload(entry, passphrase).Ok?
  {
    VerdictOf(Nodes(entry)[i], OwnPayload(entry, passphrase).value, curve)
  }

  lemma {:induction false} VerifyReadsNodes(entry: Entry, passphrase: string, curve: Curve)
    requires entry.credentials.HasAddress() && OwnPayload(entry, passphrase).Ok? && NodesOf(entry).Ok?
    ensures Verify(entry, passphrase, curve).Ok? <==> forall n :: n in Nodes(entry) ==> FormatAddress(n.address).Ok?
    ensures var r := Verify(entry, passphrase, curve);
            r.Ok? ==> |r.value| == |Nodes(entry)|
                      && forall i :: 0 <= i < |r.value| ==> r.value[i].verdict == VerdictAt(entry, i, passphrase, curve)
  {
    VerifyNodesAt(Nodes(entry), OwnPayload(entry, passphrase).value, curve);
    assert Nodes(entry)[0] in Nodes(entry) && Nodes(entry)[0].address == entry.credentials.creds.address;
  }

  /**
   Signing a G-address with an ed25519 key makes every node of that address verify, at
   every depth, and changes the verdict on no other node.
   */
  lemma {:induction false} SignThenVerify(entry: Entry, kp: Keypair, curve: Curve, expiration: u32, passphrase: string,
                                          options: Options)
    requires entry.credentials.HasAddress()
    requires Authorize(entry, Some(Ed25519Signer(kp, curve)), expiration, passphrase, options, false).result.Ok?
    requires Guard(entry, Some(Ed25519Signer(kp, curve)), expiration, passphrase, options).value.target.Account?
    ensures var after := Authorize(entry, Some(Ed25519Signer(kp, curve)), expiration, passphrase, options,
                                   false).result.value;
            var target := Guard(entry, Some(Ed25519Signer(kp, curve)), expiration, passphrase, options).value.target;
            && after.credentials.HasAddress() && |Nodes(after)| == |Nodes(entry)|
            && OwnPayload(entry, passphrase).Ok? && OwnPayload(after, passphrase).Ok?
            && forall i :: 0 <= i < |Nodes(after)| ==>
                 && Nodes(after)[i].address == Nodes(entry)[i].address
                 && VerdictAt(after, i, passphrase, curve) ==
                    if Nodes(entry)[i].address == target then Verified else VerdictAt(entry, i, passphrase, curve)
  {
    var signer := Some(Ed25519Signer(kp, curve));
    var o := Authorize(entry, signer, expiration, passphrase, options, false);
    var task := Guard(entry, signer, expiration, passphrase, options).value;
    AuthorizeEffect(entry, signer, expiration, passphrase, options);
    var after, payload := o.result.value, Sha256(o.asked[0]);
    assert SignEd25519(kp, curve, payload).Ok?;
    forall i | 0 <= i < |Nodes(entry)|
      ensures VerdictOf(Nodes(after)[i], payload, curve) ==
              if Nodes(entry)[i].address == task.target then Verified
              else VerdictOf(Nodes(entry)[i], OwnPayload(entry, passphrase).value, curve)
    {
      if Nodes(entry)[i].address == task.target {
        SignedNodeVerifies(kp, curve, task.target, payload);
      } else {
        OtherVerdictsStay(entry, Nodes(entry)[i], expiration, task.target, OwnPayload(entry, passphrase).value, payload,
                          curve);
      }
    }
  }

  /** The same, read off the two reports VerifyEntry gives before and after. */
  lemma {:induction false} SignThenReport(entry: Entry, kp: Keypair, curve: Curve, expiration: u32, passphrase: string,
                                          options: Options)
    requires entry.credentials.HasAddress()
    requires Authorize(entry, Some(Ed25519Signer(kp, curve)), expiration, passphrase, options, false).result.Ok?
    requires Guard(entry, Some(Ed25519Signer(kp, curve)), expiration, passphrase, options).value.target.Account?
    ensures var after := Authorize(entry, Some(Ed25519Signer(kp, curve)), expiration, passphrase, options,
                                   false).result.value;
            var target := Guard(entry, Some(Ed25519Signer(kp, curve)), expiration, passphrase, options).value.target;
            var x, y := Verify(entry, passphrase, curve), Verify(after, passphrase, curve);
            && (x.Ok? <==> y.Ok?)
            && (x.Ok? ==> |x.value| == |y.value| == |Nodes(entry)|
                          && forall i :: 0 <= i < |x.value| ==>
                               y.value[i].verdict ==
                               if Nodes(entry)[i].address == target then Verified else x.value[i].verdict)
  {
    var signer := Some(Ed25519Signer(kp, curve));
    var task := Guard(entry, signer, expiration, passphrase, options).value;
    var after := Authorize(entry, signer, expiration, passphrase, options, false).result.value;
    SignThenVerify(entry, kp, curve, expiration, passphrase, options);
    OrderedIsListable(entry);
    WriteIsListable(entry, task.target, SignEd25519(kp, curve, Sha256(task.preimage)).value, expiration);
    VerifyReadsNodes(entry, passphrase, curve);
    VerifyReadsNodes(after, passphrase, curve);
    SameAddresses(Nodes(entry), Nodes(after));
  }

  lemma {:induction false} OrderedIsListable(entry: Entry)
    requires entry.credentials.HasAddress() && CheckOrder(entry.credentials).Ok?
    ensures NodesOf(entry).Ok?
  {
    if entry.credentials.WithDelegateTree? {
      ValidateAcceptsOrdered(entry.credentials.delegates, 1);
      OrderedIsWithinDepth(entry.credentials.delegates, 1);
    }
  }

  lemma {:induction false} WriteIsListable(entry: Entry, target: ScAddress, signature: ScVal, expiration: u32)
    requires entry.credentials.HasAddress() && NodesOf(entry).Ok?
    ensures NodesOf(Write(entry, target, signature, expiration)).Ok?
  {
    WriteKeepsDepth(DelegatesOf(entry.credentials), target, signature, 1);
  }

  lemma {:induction false} SameAddresses(x: seq<CredentialNode>, y: seq<CredentialNode>)
    requires |x| == |y| && forall i :: 0 <= i < |x| ==> x[i].address == y[i].address
    ensures (forall n :: n in x ==> FormatAddress(n.address).Ok?)
            <==> (forall n :: n in y ==> FormatAddress(n.address).Ok?)
  {
    forall i | 0 <= i < |x| ensures x[i] in x && y[i] in y {
    }
  }

  function Ed25519Signers(kps: seq<Keypair>, curve: Curve): (r: seq<Signer>)
    ensures |r| == |kps|
  {
    if kps == [] then [] else [Ed25519Signer(kps[0], curve)] + Ed25519Signers(kps[1..], curve)
  }

  ghost predicate Holds(kps: seq<Keypair>, a: ScAddress) {
    exists kp | kp in kps :: a == Account(kp.key)
  }

  /** Signing with one key after another: the nodes of the keys' accounts verify, the others keep their verdict. */
  lemma {:induction false} SignEachVerifies(entry: Entry, kps: seq<Keypair>, curve: Curve, expiration: u32,
                                            passphrase: string)
    requires entry.credentials.HasAddress() && OwnPayload(entry, passphrase).Ok?
    requires SignEach(entry, Ed25519Signers(kps, curve), expiration, passphrase).Ok?
    ensures var after := SignEach(entry, Ed25519Signers(kps, curve), expiration, passphrase).value;
            && after.credentials.HasAddress() && |Nodes(after)| == |Nodes(entry)|
            && OwnPayload(after, passphrase).Ok?
            && forall i :: 0 <= i < |Nodes(after)| ==>
                 && Nodes(after)[i].address == Nodes(entry)[i].address
                 && VerdictAt(after, i, passphrase, curve) ==
                    if Holds(kps, Nodes(entry)[i].address) then Verified else VerdictAt(entry, i, passphrase, curve)
    decreases |kps|
  {
    if kps != [] {
      var s := Ed25519Signer(kps[0], curve);
      var signers := Ed25519Signers(kps, curve);
      assert signers[0] == s && signers[1..] == Ed25519Signers(kps[1..], curve);
      var next := SignOne(entry, s, expiration, passphrase).value;
      SignOneOutcome(entry, s, expiration, passphrase);
      SignThenVerify(entry, kps[0], curve, expiration, passphrase, Options(Some(s.address), false, []));
      SignEachVerifies(next, kps[1..], curve, expiration, passphrase);
      HoldsCons(kps);
    }
  }

  lemma {:induction false} HoldsCons(kps: seq<Keypair>)
    requires kps != []
    ensures forall a :: Holds(kps, a) <==> a == Account(kps[0].key) || Holds(kps[1..], a)
  {
    assert forall kp :: kp in kps <==> kp == kps[0] || kp in kps[1..];
  }

  /** Keys that each sign some node of an unsigned entry, none twice, all succeed, in any order they come. */
  lemma {:induction false} SignEachSucceeds(entry: Entry, signers: seq<Signer>, expiration: u32, passphrase: string)
    requires entry.credentials.HasAddress() && !CommittedElsewhere(entry, expiration) && DistinctTargets(signers)
    requires forall s :: s in signers ==> Signable(entry, s, expiration, passphrase)
    ensures SignEach(entry, signers, expiration, passphrase).Ok?
    ensures SignEach(entry, signers, expiration, passphrase).value.credentials.HasAddress()
    ensures NodesOf(entry).Ok? ==> NodesOf(SignEach(entry, signers, expiration, passphrase).value).Ok?
    decreases |signers|
  {
    if signers != [] {
      var s, rest := signers[0], signers[1..];
      assert s in signers;
      SignOneOutcome(entry, s, expiration, passphrase);
      var next := SignOne(entry, s, expiration, passphrase).value;
      var target, signature := ParseAddress(s.address).value, Answer(entry, s, expiration, passphrase).value;
      forall t | t in rest ensures Signable(next, t, expiration, passphrase) {
        var k :| 0 <= k < |rest| && rest[k] == t;
        assert signers[k + 1] == t && !SameTarget(signers[0], signers[k + 1]);
        WriteKeepsSignable(entry, target, signature, t, expiration, passphrase);
      }
      assert DistinctTargets(rest) by {
        assert forall k :: 0 <= k < |rest| ==> rest[k] == signers[k + 1];
      }
      if NodesOf(entry).Ok? {
        WriteIsListable(entry, target, signature, expiration);
      }
      SignEachSucceeds(next, rest, expiration, passphrase);
    }
  }

  lemma {:induction false} WriteKeepsDepth(nodes: seq<DelegateNode>, target: ScAddress, signature: ScVal, depth: nat)
    ensures WithinDepth(WriteTree(nodes, target, signature), depth) <==> WithinDepth(nodes, depth)
    decreases nodes
  {
    if nodes != [] {
      WriteTreeCons(nodes, target, signature);
      WriteKeepsDepth(nodes[0].nested, target, signature, depth + 1);
      WriteKeepsDepth(nodes[1..], target, signature, depth);
    }
  }

  /**
   An unsigned entry whose nodes are all accounts, signed by a working key for each of
   them, ends verified.
   */
  lemma {:induction false} FullySignedVerifies(entry: Entry, kps: seq<Keypair>, curve: Curve, expiration: u32,
                                               passphrase: string)
    requires entry.credentials.HasAddress() && !AnySigned(Nodes(entry)) && expiration != 0
    requires CheckOrder(entry.credentials).Ok? && Preimage(entry, expiration, passphrase).Ok?
    requires forall n :: n in Nodes(entry) ==> n.address.Account? && Holds(kps, n.address)
    requires forall kp :: kp in kps ==>
               && Mentions(Nodes(entry), Account(kp.key))
               && SignEd25519(kp, curve, Sha256(Preimage(entry, expiration, passphrase).value)).Ok?
    requires forall i, j :: 0 <= i < j < |kps| ==> kps[i].key != kps[j].key
    ensures var signed := SignEach(entry, Ed25519Signers(kps, curve), expiration, passphrase);
            && signed.Ok?
            && Verify(signed.value, passphrase, curve).Ok?
            && AllVerified(Verify(signed.value, passphrase, curve).value)
  {
    var signers := Ed25519Signers(kps, curve);
    SignersSignable(entry, kps, curve, expiration, passphrase);
    OrderedIsListable(entry);
    SignEachSucceeds(entry, signers, expiration, passphrase);
    SignEachVerifies(entry, kps, curve, expiration, passphrase);
    var after := SignEach(entry, signers, expiration, passphrase).value;
    forall i | 0 <= i < |Nodes(after)|
      ensures Nodes(after)[i].address.Account? && VerdictAt(after, i, passphrase, curve) == Verified
    {
      assert Nodes(entry)[i] in Nodes(entry);
    }
    VerifiedReport(after, passphrase, curve);
  }

  lemma {:induction false} VerifiedReport(entry: Entry, passphrase: string, curve: Curve)
    requires entry.credentials.HasAddress() && OwnPayload(entry, passphrase).Ok? && NodesOf(entry).Ok?
    requires forall i :: 0 <= i < |Nodes(entry)| ==>
               Nodes(entry)[i].address.Account? && VerdictAt(entry, i, passphrase, curve) == Verified
    ensures Verify(entry, passphrase, curve).Ok? && AllVerified(Verify(entry, passphrase, curve).value)
  {
    VerifyReadsNodes(entry, passphrase, curve);
    forall n | n in Nodes(entry) ensures FormatAddress(n.address).Ok? {
      var i :| 0 <= i < |Nodes(entry)| && Nodes(entry)[i] == n;
    }
  }

  lemma {:induction false} SignersSignable(entry: Entry, kps: seq<Keypair>, curve: Curve, expiration: u32,
                                           passphrase: string)
    requires entry.credentials.HasAddress() && !AnySigned(Nodes(entry)) && expiration != 0
    requires CheckOrder(entry.credentials).Ok? && Preimage(entry, expiration, passphrase).Ok?
    requires forall kp :: kp in kps ==>
               && Mentions(Nodes(entry), Account(kp.key))
               && SignEd25519(kp, curve, Sha256(Preimage(entry, expiration, passphrase).value)).Ok?
    requires forall i, j :: 0 <= i < j < |kps| ==> kps[i].key != kps[j].key
    ensures forall s :: s in Ed25519Signers(kps, curve) ==> Signable(entry, s, expiration, passphrase)
    ensures DistinctTargets(Ed25519Signers(kps, curve))
  {
    var signers := Ed25519Signers(kps, curve);
    forall i | 0 <= i < |kps| ensures signers[i] == Ed25519Signer(kps[i], curve) {
      SignersAt(kps, curve, i);
    }
    forall s | s in signers ensures Signable(entry, s, expiration, passphrase) {
      var i :| 0 <= i < |signers| && signers[i] == s;
      assert kps[i] in kps;
    }
  }

  lemma {:induction false} SignersAt(kps: seq<Keypair>, curve: Curve, i: nat)
    requires i < |kps|
    ensures Ed25519Signers(kps, curve)[i] == Ed25519Signer(kps[i], curve)
  {
    if i > 0 {
      SignersAt(kps[1..], curve, i - 1);
    }
  }
}