/**
 authorize.go: signing one entry.

 `Authorize` is the specification, a recursive map over the delegate tree. The method
 `AuthorizeEntry` works as the library does, on a private copy of the entry whose
 signature fields it reaches through a flattened list of pointers.
 */
module Authorization {
  import opened Wrappers
  import opened Bytes
  import opened Xdr
  import opened Preimages

  // ---------- The signature-bearing nodes of an entry ----------

  /** Whether a signature field holds a signature rather than one of the two placeholders. */
  predicate IsSigned(v: ScVal) {
    match v
    case Void => false
    case Vec(vec) => vec.Items? && |vec.vals| > 0
    case _ => true
  }

  datatype CredentialNode = CredentialNode(address: ScAddress, signature: ScVal)

  /** Every delegate at every depth, depth first. */
  function Flatten(nodes: seq<DelegateNode>): (flat: seq<CredentialNode>) {
    if nodes == [] then []
    else
      [CredentialNode(nodes[0].address, nodes[0].signature)]
      + Flatten(nodes[0].nested) + Flatten(nodes[1..])
  }

  function DelegatesOf(c: Credentials): seq<DelegateNode> {
    if c.WithDelegateTree? then c.delegates else []
  }

  /** The top-level node, then the delegate tree. */
  function Nodes(entry: Entry): (nodes: seq<CredentialNode>)
    requires entry.credentials.HasAddress()
    ensures |nodes| > 0
  {
    var creds := entry.credentials.creds;
    [CredentialNode(creds.address, creds.signature)] + Flatten(DelegatesOf(entry.credentials))
  }

  predicate AnySigned(nodes: seq<CredentialNode>) {
    exists n | n in nodes :: IsSigned(n.signature)
  }

  predicate Mentions(nodes: seq<CredentialNode>, target: ScAddress) {
    exists n | n in nodes :: n.address == target
  }

  predicate TargetSigned(nodes: seq<CredentialNode>, target: ScAddress) {
    exists n | n in nodes :: n.address == target && IsSigned(n.signature)
  }

  // ---------- The order and depth of a delegate tree ----------

  /** A walk that checks the depth at every array, the empty ones included. */
  predicate WithinDepth(nodes: seq<DelegateNode>, depth: nat)
    decreases nodes
  {
    depth <= MAX_DEPTH
    && (nodes == [] || (WithinDepth(nodes[0].nested, depth + 1) && WithinDepth(nodes[1..], depth)))
  }

  /** One level in strictly ascending order of encoded address. */
  predicate Ascending(nodes: seq<DelegateNode>) {
    forall i, j :: 0 <= i < j < |nodes| ==> Less(AddressBytes(nodes[i].address), AddressBytes(nodes[j].address))
  }

  /** CAP-71-01's rule at every level. */
  predicate Ordered(nodes: seq<DelegateNode>, depth: nat)
    decreases nodes
  {
    depth <= MAX_DEPTH && Ascending(nodes) && forall n | n in nodes :: Ordered(n.nested, depth + 1)
  }

  /** validateDelegateLevel with its first error. */
  function ValidateLevel(nodes: seq<DelegateNode>, depth: nat): (r: Result<(), Error>)
    decreases nodes, 1
  {
    if depth > MAX_DEPTH then Err(DecodeLimit) else ValidateFrom(nodes, depth, None)
  }

  function ValidateFrom(nodes: seq<DelegateNode>, depth: nat, previous: Option<seq<byte>>): (r: Result<(), Error>)
    decreases nodes, 0
  {
    if nodes == [] then Ok(())
    else
      var current := AddressBytes(nodes[0].address);
      if previous.Some? && previous.value == current then Err(DuplicateDelegate)
      else if previous.Some? && !Less(previous.value, current) then Err(DelegateOrder)
      else
        var _ :- ValidateLevel(nodes[0].nested, depth + 1);
        ValidateFrom(nodes[1..], depth, Some(current))
  }

  /** The validation accepts exactly the trees in order at every level and within the depth limit. */
  lemma {:induction false} ValidateAcceptsOrdered(nodes: seq<DelegateNode>, depth: nat)
    ensures ValidateLevel(nodes, depth).Ok? <==> Ordered(nodes, depth)
    decreases nodes, 1
  {
    if depth <= MAX_DEPTH {
      ValidateFromAccepts(nodes, depth, None);
    }
  }

  lemma {:induction false} ValidateFromAccepts(nodes: seq<DelegateNode>, depth: nat, previous: Option<seq<byte>>)
    requires depth <= MAX_DEPTH
    ensures ValidateFrom(nodes, depth, previous).Ok?
            <==> Ordered(nodes, depth)
                 && (previous.Some? && nodes != [] ==> Less(previous.value, AddressBytes(nodes[0].address)))
    decreases nodes, 0
  {
    if nodes != [] {
      var current := AddressBytes(nodes[0].address);
      LessIrreflexive(current);
      ValidateAcceptsOrdered(nodes[0].nested, depth + 1);
      ValidateFromAccepts(nodes[1..], depth, Some(current));
      OrderedCons(nodes, depth);
    }
  }

  lemma {:induction false} OrderedCons(nodes: seq<DelegateNode>, depth: nat)
    requires nodes != [] && depth <= MAX_DEPTH
    ensures Ordered(nodes, depth)
            <==> && Ordered(nodes[0].nested, depth + 1) && Ordered(nodes[1..], depth)
                 && (|nodes| > 1 ==> Less(AddressBytes(nodes[0].address), AddressBytes(nodes[1].address)))
  {
    AscendingCons(nodes);
    assert forall n :: n in nodes <==> n == nodes[0] || n in nodes[1..];
  }

  lemma {:induction false} AscendingCons(nodes: seq<DelegateNode>)
    requires nodes != []
    ensures Ascending(nodes) <==>
            Ascending(nodes[1..])
            && (|nodes| > 1 ==> Less(AddressBytes(nodes[0].address), AddressBytes(nodes[1].address)))
  {
    var rest := nodes[1..];
    if Ascending(nodes) {
      assert forall i :: 0 <= i < |rest| ==> rest[i] == nodes[i + 1];
    }
    if Ascending(rest) && (|nodes| > 1 ==> Less(AddressBytes(nodes[0].address), AddressBytes(nodes[1].address))) {
      forall i, j | 0 <= i < j < |nodes|
        ensures Less(AddressBytes(nodes[i].address), AddressBytes(nodes[j].address))
      {
        if i > 0 {
          assert rest[i - 1] == nodes[i] && rest[j - 1] == nodes[j];
        } else if j > 1 {
          assert rest[0] == nodes[1] && rest[j - 1] == nodes[j];
          LessTransitive(AddressBytes(nodes[0].address), AddressBytes(nodes[1].address),
                         AddressBytes(nodes[j].address));
        }
      }
    }
  }

  lemma {:induction false} OrderedIsWithinDepth(nodes: seq<DelegateNode>, depth: nat)
    requires Ordered(nodes, depth)
    ensures WithinDepth(nodes, depth)
    decreases nodes
  {
    if nodes != [] {
      OrderedIsWithinDepth(nodes[0].nested, depth + 1);
      AscendingCons(nodes);
      assert forall n | n in nodes[1..] :: n in nodes;
      OrderedIsWithinDepth(nodes[1..], depth);
    }
  }

  // ---------- Writing one signature over the tree ----------

  /** The recursive map: every node for the target gets the signature, nothing else changes. */
  function WriteTree(nodes: seq<DelegateNode>, target: ScAddress, signature: ScVal): (r: seq<DelegateNode>)
    ensures |r| == |nodes|
  {
    if nodes == [] then []
    else
      var n := nodes[0];
      [DelegateNode(n.address, if n.address == target then signature else n.signature,
                    WriteTree(n.nested, target, signature))]
      + WriteTree(nodes[1..], target, signature)
  }

  lemma {:induction false} WriteTreeCons(nodes: seq<DelegateNode>, target: ScAddress, signature: ScVal)
    requires nodes != []
    ensures var w := WriteTree(nodes, target, signature);
            && w[0].address == nodes[0].address
            && w[0].signature == (if nodes[0].address == target then signature else nodes[0].signature)
            && w[0].nested == WriteTree(nodes[0].nested, target, signature)
            && w[1..] == WriteTree(nodes[1..], target, signature)
  {
  }

  function WriteCredentials(c: AddressCredentials, target: ScAddress, signature: ScVal,
                            expiration: u32): AddressCredentials {
    AddressCredentials(c.address, c.nonce, expiration, if c.address == target then signature else c.signature)
  }

  function Write(entry: Entry, target: ScAddress, signature: ScVal, expiration: u32): (r: Entry)
    requires entry.credentials.HasAddress()
    ensures r.credentials.HasAddress() && r.root == entry.root
    ensures r.credentials.creds == WriteCredentials(entry.credentials.creds, target, signature, expiration)
    ensures DelegatesOf(r.credentials) == WriteTree(DelegatesOf(entry.credentials), target, signature)
  {
    var creds := WriteCredentials(entry.credentials.creds, target, signature, expiration);
    Entry(match entry.credentials
          case Legacy(_) => Legacy(creds)
          case V2(_) => V2(creds)
          case WithDelegateTree(_, delegates) =>
            WithDelegateTree(creds, WriteTree(delegates, target, signature)),
          entry.root)
  }

  function WriteNode(n: CredentialNode, target: ScAddress, signature: ScVal): CredentialNode {
    if n.address == target then CredentialNode(n.address, signature) else n
  }

  function WriteEach(nodes: seq<CredentialNode>, target: ScAddress, signature: ScVal): (r: seq<CredentialNode>)
    ensures |r| == |nodes|
  {
    if nodes == [] then []
    else [WriteNode(nodes[0], target, signature)] + WriteEach(nodes[1..], target, signature)
  }

  lemma {:induction false} WriteEachAt(nodes: seq<CredentialNode>, target: ScAddress, signature: ScVal, i: nat)
    requires i < |nodes|
    ensures WriteEach(nodes, target, signature)[i] == WriteNode(nodes[i], target, signature)
  {
    if i > 0 {
      WriteEachAt(nodes[1..], target, signature, i - 1);
    }
  }

  lemma {:induction false} WriteEachConcat(x: seq<CredentialNode>, y: seq<CredentialNode>, target: ScAddress,
                                           signature: ScVal)
    ensures WriteEach(x + y, target, signature) == WriteEach(x, target, signature) + WriteEach(y, target, signature)
  {
    if x == [] {
      assert x + y == y;
    } else {
      var h := [WriteNode(x[0], target, signature)];
      calc {
        WriteEach(x + y, target, signature);
        { assert (x + y)[1..] == x[1..] + y; }
        h + WriteEach(x[1..] + y, target, signature);
        { WriteEachConcat(x[1..], y, target, signature); }
        h + (WriteEach(x[1..], target, signature) + WriteEach(y, target, signature));
        h + WriteEach(x[1..], target, signature) + WriteEach(y, target, signature);
      }
    }
  }

  /** Node by node, a write replaces the signature on the target's nodes and keeps every other node. */
  lemma {:induction false} WriteTreeNodes(nodes: seq<DelegateNode>, target: ScAddress, signature: ScVal)
    ensures Flatten(WriteTree(nodes, target, signature)) == WriteEach(Flatten(nodes), target, signature)
  {
    if nodes != [] {
      WriteTreeNodes(nodes[0].nested, target, signature);
      WriteTreeNodes(nodes[1..], target, signature);
      var head := CredentialNode(nodes[0].address, nodes[0].signature);
      var inner, tail := Flatten(nodes[0].nested), Flatten(nodes[1..]);
      WriteEachConcat([head], inner, target, signature);
      WriteEachConcat([head] + inner, tail, target, signature);
      WriteTreeCons(nodes, target, signature);
    }
  }

  lemma {:induction false} WriteNodes(entry: Entry, target: ScAddress, signature: ScVal, expiration: u32)
    requires entry.credentials.HasAddress()
    ensures Write(entry, target, signature, expiration).credentials.HasAddress()
    ensures Nodes(Write(entry, target, signature, expiration)) == WriteEach(Nodes(entry), target, signature)
  {
    var delegates := DelegatesOf(entry.credentials);
    var w := Write(entry, target, signature, expiration);
    var top := CredentialNode(entry.credentials.creds.address, entry.credentials.creds.signature);
    WriteTreeNodes(delegates, target, signature);
    WriteEachConcat([top], Flatten(delegates), target, signature);
    assert Nodes(w) == [WriteNode(top, target, signature)] + Flatten(WriteTree(delegates, target, signature));
  }

  /** Addresses, and so the order and the depth of the tree, survive a write. */
  lemma {:induction false} WriteKeepsValidation(nodes: seq<DelegateNode>, target: ScAddress, signature: ScVal,
                                                depth: nat)
    ensures ValidateLevel(WriteTree(nodes, target, signature), depth) == ValidateLevel(nodes, depth)
    decreases nodes, 1
  {
    WriteKeepsValidationFrom(nodes, target, signature, depth, None);
  }

  lemma {:induction false} WriteKeepsValidationFrom(
    nodes: seq<DelegateNode>, target: ScAddress, signature: ScVal, depth: nat, previous: Option<seq<byte>>)
    ensures ValidateFrom(WriteTree(nodes, target, signature), depth, previous) == ValidateFrom(nodes, depth, previous)
    decreases nodes, 0
  {
    if nodes != [] {
      WriteTreeCons(nodes, target, signature);
      WriteKeepsValidation(nodes[0].nested, target, signature, depth + 1);
      WriteKeepsValidationFrom(nodes[1..], target, signature, depth, Some(AddressBytes(nodes[0].address)));
    }
  }

  // ---------- The specification of AuthorizeEntry ----------

  /** ForAddress and AllowResign. */
  datatype Options = Options(target: Option<Strkey>, allowResign: bool, resignScope: seq<Strkey>)

  function ParseScope(scope: seq<Strkey>): (r: Result<seq<ScAddress>, Error>)
  {
    if scope == [] then Ok([])
    else
      var first :- ParseAddress(scope[0]);
      var rest :- ParseScope(scope[1..]);
      Ok([first] + rest)
  }

  /** Whose nodes a call writes, and whether it may write over a signature there. */
  datatype Target = Target(address: ScAddress, resign: bool)

  function Resolve(signer: Option<Signer>, expiration: u32, options: Options): (r: Result<Target, Error>)
    ensures r.Ok? ==> signer.Some? && expiration != 0
  {
    if expiration == 0 then Err(InvalidExpiration)
    else if signer.None? then Err(MissingSigner)
    else
      var text := if options.target.Some? then options.target.value else signer.value.address;
      if text == Unusable("") then Err(MissingSigner)
      else
        var target :- ParseAddress(text);
        var scope :- ParseScope(options.resignScope);
        Ok(Target(target, options.allowResign && (scope == [] || target in scope)))
  }

  /** The guards over the nodes: a node to write, one expiration per tree, no silent overwrite. */
  function CheckNodes(entry: Entry, target: Target, expiration: u32): (r: Result<(), Error>)
    requires entry.credentials.HasAddress()
  {
    var nodes := Nodes(entry);
    if !Mentions(nodes, target.address) then Err(NoMatchingCredentialNode)
    else if entry.credentials.WithDelegateTree? && entry.credentials.creds.expiration != expiration
            && AnySigned(nodes) then
      Err(InvalidExpiration)
    else if !target.resign && TargetSigned(nodes, target.address) then Err(AlreadySigned)
    else Ok(())
  }

  function CheckOrder(c: Credentials): (r: Result<(), Error>) {
    if c.WithDelegateTree? then ValidateLevel(c.delegates, 1) else Ok(())
  }

  /** What passing every guard yields: whose nodes are written, and what the signer is asked. */
  datatype Task = Task(target: ScAddress, preimage: HashIdPreimage)

  function Guard(entry: Entry, signer: Option<Signer>, expiration: u32, passphrase: string, options: Options):
    (r: Result<Task, Error>)
    ensures r.Ok? ==> entry.credentials.HasAddress() && signer.Some?
  {
    var _ :- GetCredentials(entry.credentials);
    var target :- Resolve(signer, expiration, options);
    var _ :- CheckOrder(entry.credentials);
    var _ :- CheckNodes(entry, target, expiration);
    var preimage :- Preimage(entry, expiration, passphrase);
    Ok(Task(target.address, preimage))
  }

  /** The returned pair, and every preimage the signer was asked to sign, in order. */
  datatype Outcome = Outcome(result: Result<Entry, Error>, asked: seq<HashIdPreimage>)

  /** What is left once the guards have passed: ask the signer, then write. */
  function Ask(entry: Entry, signer: Signer, task: Task, expiration: u32): (o: Outcome)
    requires entry.credentials.HasAddress()
  {
    match signer.sign(task.preimage, Sha256(task.preimage))
    case Err(e) => Outcome(Err(e), [task.preimage])
    case Ok(signature) => Outcome(Ok(Write(entry, task.target, signature, expiration)), [task.preimage])
  }

  function Authorize(entry: Entry, signer: Option<Signer>, expiration: u32, passphrase: string, options: Options,
                     cancelled: bool): (o: Outcome)
  {
    if cancelled then Outcome(Err(Cancelled), [])
    else if entry.credentials.SourceAccount? then Outcome(Ok(entry), [])
    else
      match Guard(entry, signer, expiration, passphrase, options)
      case Err(e) => Outcome(Err(e), [])
      case Ok(task) => Ask(entry, signer.value, task, expiration)
  }

  // ---------- The private copy and its pointers ----------

  /** One signature field of the copy, as the pointer to it sees it. */
  class SignatureCell {
    var value: ScVal

    constructor (v: ScVal)
      ensures value == v
    {
      value := v;
    }
  }

  datatype CellNode = CellNode(address: ScAddress, cell: SignatureCell, nested: seq<CellNode>)

  /** credentialNode: an encoded address and the pointer to its signature field. */
  datatype CredentialPointer = CredentialPointer(encoded: seq<byte>, signature: SignatureCell)

  /** The signature fields of a tree. */
  ghost function Cells(nodes: seq<CellNode>): (cells: set<SignatureCell>) {
    if nodes == [] then {}
    else {nodes[0].cell} + Cells(nodes[0].nested) + Cells(nodes[1..])
  }

  ghost function Pointers(nodes: seq<CellNode>): (ps: seq<CredentialPointer>) {
    if nodes == [] then []
    else
      [CredentialPointer(AddressBytes(nodes[0].address), nodes[0].cell)]
      + Pointers(nodes[0].nested) + Pointers(nodes[1..])
  }

  /** The tree the copy currently stands for. */
  function Snapshot(nodes: seq<CellNode>): (tree: seq<DelegateNode>)
    reads Cells(nodes)
    ensures |tree| == |nodes|
  {
    if nodes == [] then []
    else
      [DelegateNode(nodes[0].address, nodes[0].cell.value, Snapshot(nodes[0].nested))]
      + Snapshot(nodes[1..])
  }

  lemma {:induction false} SnapshotCons(nodes: seq<CellNode>)
    requires nodes != []
    ensures Snapshot(nodes)[0] == DelegateNode(nodes[0].address, nodes[0].cell.value, Snapshot(nodes[0].nested))
    ensures Snapshot(nodes)[1..] == Snapshot(nodes[1..])
  {
  }

  ghost predicate CellsWithinDepth(nodes: seq<CellNode>, depth: nat)
    decreases nodes
  {
    depth <= MAX_DEPTH
    && (nodes == [] || (CellsWithinDepth(nodes[0].nested, depth + 1) && CellsWithinDepth(nodes[1..], depth)))
  }

  lemma {:induction false} SnapshotWithinDepth(nodes: seq<CellNode>, depth: nat)
    ensures CellsWithinDepth(nodes, depth) <==> WithinDepth(Snapshot(nodes), depth)
    decreases nodes
  {
    if nodes != [] {
      SnapshotCons(nodes);
      SnapshotWithinDepth(nodes[0].nested, depth + 1);
      SnapshotWithinDepth(nodes[1..], depth);
    }
  }

  /** No field belongs to two nodes of different addresses. */
  ghost predicate Unshared(ps: seq<CredentialPointer>) {
    forall p, q :: p in ps && q in ps && p.signature == q.signature ==> p == q
  }

  /** The same tree with every signature read from `was` instead of the heap. */
  ghost function Frozen(nodes: seq<CellNode>, was: map<SignatureCell, ScVal>): (tree: seq<DelegateNode>)
    requires forall c :: c in Cells(nodes) ==> c in was
  {
    if nodes == [] then []
    else
      [DelegateNode(nodes[0].address, was[nodes[0].cell], Frozen(nodes[0].nested, was))]
      + Frozen(nodes[1..], was)
  }

  lemma {:induction false} FrozenNow(nodes: seq<CellNode>, was: map<SignatureCell, ScVal>)
    requires forall c :: c in Cells(nodes) ==> c in was && was[c] == c.value
    ensures Frozen(nodes, was) == Snapshot(nodes)
  {
    if nodes != [] {
      FrozenNow(nodes[0].nested, was);
      FrozenNow(nodes[1..], was);
    }
  }

  lemma {:induction false} PointersReachCells(nodes: seq<CellNode>)
    ensures forall p :: p in Pointers(nodes) ==> p.signature in Cells(nodes)
  {
    if nodes != [] {
      PointersReachCells(nodes[0].nested);
      PointersReachCells(nodes[1..]);
    }
  }

  ghost predicate PointsTo(p: CredentialPointer, n: CredentialNode)
    reads p.signature
  {
    p.encoded == AddressBytes(n.address) && p.signature.value == n.signature
  }

  /** The pointers and the flattened values are the same nodes. */
  lemma {:induction false} PointersOfSnapshot(nodes: seq<CellNode>)
    ensures forall p :: p in Pointers(nodes) ==> exists n :: n in Flatten(Snapshot(nodes)) && PointsTo(p, n)
    ensures forall n :: n in Flatten(Snapshot(nodes)) ==> exists p :: p in Pointers(nodes) && PointsTo(p, n)
  {
    if nodes != [] {
      PointersOfSnapshot(nodes[0].nested);
      PointersOfSnapshot(nodes[1..]);
      var tree := Snapshot(nodes);
      assert tree[1..] == Snapshot(nodes[1..]);
      var p0 := CredentialPointer(AddressBytes(nodes[0].address), nodes[0].cell);
      var n0 := CredentialNode(tree[0].address, tree[0].signature);
      assert PointsTo(p0, n0) && p0 in Pointers(nodes) && n0 in Flatten(tree);
    }
  }

  /** If every field holds what the write puts there, the copy is the written tree. */
  lemma {:induction false} WrittenSnapshot(
    nodes: seq<CellNode>, was: map<SignatureCell, ScVal>, target: ScAddress, signature: ScVal)
    requires forall c :: c in Cells(nodes) ==> c in was
    requires forall p :: p in Pointers(nodes) ==>
               p.signature in was
               && p.signature.value == if p.encoded == AddressBytes(target) then signature else was[p.signature]
    ensures Snapshot(nodes) == WriteTree(Frozen(nodes, was), target, signature)
  {
    if nodes != [] {
      WrittenSnapshot(nodes[0].nested, was, target, signature);
      WrittenSnapshot(nodes[1..], was, target, signature);
      var p0 := CredentialPointer(AddressBytes(nodes[0].address), nodes[0].cell);
      assert p0 in Pointers(nodes);
      AddressBytesInjective(nodes[0].address, target);
      assert Frozen(nodes, was)[1..] == Frozen(nodes[1..], was);
    }
  }

  /** Every node of a tree has a field of its own. */
  ghost predicate Apart(nodes: seq<CellNode>) {
    nodes == []
    || (&& {nodes[0].cell} !! Cells(nodes[0].nested) !! Cells(nodes[1..])
        && Apart(nodes[0].nested) && Apart(nodes[1..]))
  }

  lemma {:induction false} ApartIsUnshared(nodes: seq<CellNode>)
    requires Apart(nodes)
    ensures Unshared(Pointers(nodes))
  {
    if nodes != [] {
      ApartIsUnshared(nodes[0].nested);
      ApartIsUnshared(nodes[1..]);
      PointersReachCells(nodes[0].nested);
      PointersReachCells(nodes[1..]);
      var first := CredentialPointer(AddressBytes(nodes[0].address), nodes[0].cell);
      forall p, q | p in Pointers(nodes) && q in Pointers(nodes) && p.signature == q.signature ensures p == q {
        assert p == first || p in Pointers(nodes[0].nested) || p in Pointers(nodes[1..]);
        assert q == first || q in Pointers(nodes[0].nested) || q in Pointers(nodes[1..]);
      }
    }
  }

  /** The deep copy of a delegate array: fresh fields, one per node, holding the same values. */
  method CopyDelegates(tree: seq<DelegateNode>) returns (nodes: seq<CellNode>, ghost cells: set<SignatureCell>)
    ensures cells == Cells(nodes) && fresh(cells) && Apart(nodes)
    ensures Snapshot(nodes) == tree
  {
    if tree == [] {
      return [], {};
    }
    var cell := new SignatureCell(tree[0].signature);
    var nested, inner := CopyDelegates(tree[0].nested);
    var rest, others := CopyDelegates(tree[1..]);
    nodes, cells := [CellNode(tree[0].address, cell, nested)] + rest, {cell} + inner + others;
    assert nodes[1..] == rest;
    assert tree == [tree[0]] + tree[1..];
  }

  /** delegateNodesOf: the flattened pointers of a tree, or the depth error. */
  method DelegateNodesOf(nodes: seq<CellNode>, depth: nat) returns (r: Result<seq<CredentialPointer>, Error>)
    ensures r == if CellsWithinDepth(nodes, depth) then Ok(Pointers(nodes)) else Err(DecodeLimit)
    decreases nodes
  {
    if depth > MAX_DEPTH {
      return Err(DecodeLimit);
    }
    var out := [];
    for i := 0 to |nodes|
      invariant out + Pointers(nodes[i..]) == Pointers(nodes)
      invariant CellsWithinDepth(nodes, depth) <==> CellsWithinDepth(nodes[i..], depth)
    {
      assert nodes[i..][0] == nodes[i] && nodes[i..][1..] == nodes[i + 1..];
      var first := CredentialPointer(AddressBytes(nodes[i].address), nodes[i].cell);
      var nested := DelegateNodesOf(nodes[i].nested, depth + 1);
      if nested.Err? {
        return Err(nested.error);
      }
      assert out + ([first] + nested.value + Pointers(nodes[i + 1..]))
          == out + [first] + nested.value + Pointers(nodes[i + 1..]);
      out := out + [first] + nested.value;
    }
    assert nodes[|nodes|..] == [] && out + [] == out;
    return Ok(out);
  }

  /** The copy AuthorizeEntry works on: what it overwrites are fields, the rest is fixed. */
  class EntryCopy {
    const arm: Credentials
    const root: Invocation
    var expiration: u32
    const top: SignatureCell
    const delegates: seq<CellNode>
    ghost const cells: set<SignatureCell>

    ghost predicate Valid()
    {
      cells == Cells(delegates) && arm.HasAddress() && (delegates != [] ==> arm.WithDelegateTree?)
      && top !in cells && Apart(delegates)
    }

    /** The entry the copy stands for. */
    function Value(): (e: Entry)
      requires Valid()
      reads this, top, cells
      ensures e.credentials.HasAddress()
    {
      var creds := AddressCredentials(arm.creds.address, arm.creds.nonce, expiration, top.value);
      Entry(match arm
            case Legacy(_) => Legacy(creds)
            case V2(_) => V2(creds)
            case WithDelegateTree(_, _) => WithDelegateTree(creds, Snapshot(delegates)),
            root)
    }

    /** credentialNodes: the top-level field first, then the delegates'. */
    ghost function AllPointers(): (ps: seq<CredentialPointer>)
      requires Valid()
    {
      [CredentialPointer(AddressBytes(arm.creds.address), top)] + Pointers(delegates)
    }

    constructor (entry: Entry)
      requires entry.credentials.HasAddress()
      ensures Valid() && fresh(top) && fresh(cells)
      ensures arm == entry.credentials
      ensures Value() == entry
    {
      arm, root, expiration := entry.credentials, entry.root, entry.credentials.creds.expiration;
      top := new SignatureCell(entry.credentials.creds.signature);
      var nodes, fields := CopyDelegates(DelegatesOf(entry.credentials));
      delegates, cells := nodes, fields;
    }
  }

  /** The pointers of a copy are its flattened nodes. */
  lemma {:induction false} PointersOfCopy(copy: EntryCopy)
    requires copy.Valid()
    ensures forall p :: p in copy.AllPointers() ==> exists n :: n in Nodes(copy.Value()) && PointsTo(p, n)
    ensures forall n :: n in Nodes(copy.Value()) ==> exists p :: p in copy.AllPointers() && PointsTo(p, n)
  {
    PointersOfSnapshot(copy.delegates);
    var e := copy.Value();
    var n0 := CredentialNode(e.credentials.creds.address, e.credentials.creds.signature);
    var p0 := CredentialPointer(AddressBytes(copy.arm.creds.address), copy.top);
    assert DelegatesOf(e.credentials) == Snapshot(copy.delegates);
    assert n0 in Nodes(e) && p0 in copy.AllPointers() && PointsTo(p0, n0);
  }

  /** The fields behind the pointers that carry the target's encoding. */
  ghost predicate Matching(matches: seq<SignatureCell>, nodes: seq<CredentialPointer>, target: seq<byte>) {
    && (forall c :: c in matches ==> exists p :: p in nodes && p.encoded == target && p.signature == c)
    && (forall p :: p in nodes && p.encoded == target ==> p.signature in matches)
  }

  method CollectMatches(nodes: seq<CredentialPointer>, target: seq<byte>) returns (matches: seq<SignatureCell>)
    ensures Matching(matches, nodes, target)
  {
    matches := [];
    for i := 0 to |nodes|
      invariant Matching(matches, nodes[..i], target)
    {
      assert nodes[..i + 1] == nodes[..i] + [nodes[i]];
      if nodes[i].encoded == target {
        matches := matches + [nodes[i].signature];
      }
    }
    assert nodes[..|nodes|] == nodes;
  }

  method WriteMatches(matches: seq<SignatureCell>, signature: ScVal)
    modifies matches
    ensures forall c :: c in matches ==> c.value == signature
  {
    for i := 0 to |matches|
      invariant forall c :: c in matches[..i] ==> c.value == signature
    {
      matches[i].value := signature;
    }
  }

  /** validateDelegateLevel with its running `previous` encoding. */
  method ValidateDelegateLevel(nodes: seq<DelegateNode>, depth: nat) returns (r: Result<(), Error>)
    ensures r == ValidateLevel(nodes, depth)
    decreases nodes
  {
    if depth > MAX_DEPTH {
      return Err(DecodeLimit);
    }
    var previous: Option<seq<byte>> := None;
    for i := 0 to |nodes|
      invariant ValidateLevel(nodes, depth) == ValidateFrom(nodes[i..], depth, previous)
    {
      assert nodes[i..][0] == nodes[i] && nodes[i..][1..] == nodes[i + 1..];
      var current := AddressBytes(nodes[i].address);
      if previous.Some? {
        if previous.value == current {
          return Err(DuplicateDelegate);
        } else if !Less(previous.value, current) {
          return Err(DelegateOrder);
        }
      }
      previous := Some(current);
      var nested := ValidateDelegateLevel(nodes[i].nested, depth + 1);
      if nested.Err? {
        return nested;
      }
    }
    return Ok(());
  }

  /** What the guards read off the pointers is what the specification reads off the tree. */
  lemma {:induction false} GuardsReadTheTree(copy: EntryCopy, target: ScAddress)
    requires copy.Valid()
    ensures var nodes, ps := Nodes(copy.Value()), copy.AllPointers();
            && (Mentions(nodes, target) <==> exists p :: p in ps && p.encoded == AddressBytes(target))
            && (AnySigned(nodes) <==> exists p :: p in ps && IsSigned(p.signature.value))
            && (TargetSigned(nodes, target)
                <==> exists p :: p in ps && p.encoded == AddressBytes(target) && IsSigned(p.signature.value))
  {
    PointersOfCopy(copy);
    forall a ensures AddressBytes(a) == AddressBytes(target) <==> a == target {
      AddressBytesInjective(a, target);
    }
  }

  lemma {:induction false} AllPointersUnshared(copy: EntryCopy)
    requires copy.Valid()
    ensures Unshared(copy.AllPointers())
    ensures forall p :: p in copy.AllPointers() ==> p.signature in {copy.top} + copy.cells
  {
    PointersReachCells(copy.delegates);
    ApartIsUnshared(copy.delegates);
  }

  /** Once every pointer has been written through or left alone, the copy is the written entry. */
  lemma {:induction false} WrittenCopy(copy: EntryCopy, entry: Entry, was: map<SignatureCell, ScVal>, target: ScAddress,
                                       signature: ScVal)
    requires copy.Valid() && copy.arm == entry.credentials && copy.root == entry.root
    requires copy.top in was && forall c :: c in Cells(copy.delegates) ==> c in was
    requires entry.credentials.creds.signature == was[copy.top]
    requires DelegatesOf(entry.credentials) == Frozen(copy.delegates, was)
    requires forall p :: p in copy.AllPointers() ==>
               p.signature in was
               && p.signature.value == if p.encoded == AddressBytes(target) then signature else was[p.signature]
    ensures copy.Value() == Write(entry, target, signature, copy.expiration)
  {
    var p0 := CredentialPointer(AddressBytes(copy.arm.creds.address), copy.top);
    assert p0 in copy.AllPointers();
    AddressBytesInjective(copy.arm.creds.address, target);
    assert forall p :: p in Pointers(copy.delegates) ==> p in copy.AllPointers();
    WrittenSnapshot(copy.delegates, was, target, signature);
    WrittenParts(copy, entry, target, signature);
  }

  lemma {:induction false} WrittenParts(copy: EntryCopy, entry: Entry, target: ScAddress, signature: ScVal)
    requires copy.Valid() && copy.arm == entry.credentials && copy.root == entry.root
    requires copy.top.value == if copy.arm.creds.address == target then signature else entry.credentials.creds.signature
    requires Snapshot(copy.delegates) == WriteTree(DelegatesOf(entry.credentials), target, signature)
    ensures copy.Value() == Write(entry, target, signature, copy.expiration)
  {
  }

  /** credentialNodes over a copy whose tree has been validated. */
  method CredentialNodes(copy: EntryCopy) returns (r: Result<seq<CredentialPointer>, Error>)
    requires copy.Valid()
    ensures r == if copy.arm.WithDelegateTree? && !CellsWithinDepth(copy.delegates, 1) then Err(DecodeLimit)
                 else Ok(copy.AllPointers())
  {
    var nodes := [CredentialPointer(AddressBytes(copy.arm.creds.address), copy.top)];
    if copy.arm.WithDelegateTree? {
      var delegates :- DelegateNodesOf(copy.delegates, 1);
      nodes := nodes + delegates;
    } else {
      assert nodes + Pointers([]) == nodes;
    }
    return Ok(nodes);
  }

  lemma {:induction false} MatchesReadTheTree(copy: EntryCopy, matches: seq<SignatureCell>, target: ScAddress)
    requires copy.Valid() && Matching(matches, copy.AllPointers(), AddressBytes(target))
    ensures Mentions(Nodes(copy.Value()), target) <==> |matches| > 0
    ensures TargetSigned(Nodes(copy.Value()), target) <==> exists c :: c in matches && IsSigned(c.value)
    ensures AnySigned(Nodes(copy.Value())) <==> exists p :: p in copy.AllPointers() && IsSigned(p.signature.value)
  {
    GuardsReadTheTree(copy, target);
    assert |matches| > 0 ==> matches[0] in matches;
  }

  /** The guards, read through the pointers in the order the library checks them. */
  method CheckPointers(nodes: seq<CredentialPointer>, matches: seq<SignatureCell>, shared: bool, resign: bool,
                       ghost mentions: bool, ghost anySigned: bool, ghost targetSigned: bool)
    returns (r: Result<(), Error>)
    requires mentions <==> |matches| > 0
    requires anySigned <==> exists p :: p in nodes && IsSigned(p.signature.value)
    requires targetSigned <==> exists c :: c in matches && IsSigned(c.value)
    ensures r == if !mentions then Err(NoMatchingCredentialNode)
                 else if shared && anySigned then Err(InvalidExpiration)
                 else if !resign && targetSigned then Err(AlreadySigned)
                 else Ok(())
  {
    if |matches| == 0 {
      return Err(NoMatchingCredentialNode);
    }
    if shared {
      for i := 0 to |nodes|
        invariant forall p :: p in nodes[..i] ==> !IsSigned(p.signature.value)
      {
        if IsSigned(nodes[i].signature.value) {
          return Err(InvalidExpiration);
        }
      }
    }
    if !resign {
      for i := 0 to |matches|
        invariant forall c :: c in matches[..i] ==> !IsSigned(c.value)
      {
        if IsSigned(matches[i].value) {
          return Err(AlreadySigned);
        }
      }
    }
    return Ok(());
  }

  /** Fields of two nodes are the same field only if the nodes have one address. */
  lemma {:induction false} UnmatchedStays(copy: EntryCopy, matches: seq<SignatureCell>, target: seq<byte>)
    requires copy.Valid() && Matching(matches, copy.AllPointers(), target)
    ensures forall p :: p in copy.AllPointers() ==> (p.signature in matches <==> p.encoded == target)
  {
    AllPointersUnshared(copy);
    forall p | p in copy.AllPointers() && p.signature in matches ensures p.encoded == target {
      var q :| q in copy.AllPointers() && q.encoded == target && q.signature == p.signature;
    }
  }

  /** The expiration first, then every matching field, in place. */
  method WriteThrough(copy: EntryCopy, ghost entry: Entry, matches: seq<SignatureCell>,
                      target: ScAddress, signature: ScVal, expiration: u32)
    requires copy.Valid() && copy.Value() == entry && copy.arm == entry.credentials
    requires Matching(matches, copy.AllPointers(), AddressBytes(target))
    modifies copy`expiration, matches
    ensures copy.Value() == Write(entry, target, signature, expiration)
  {
    ghost var was: map<SignatureCell, ScVal> := map c: SignatureCell | c in {copy.top} + copy.cells :: c.value;
    FrozenNow(copy.delegates, was);
    AllPointersUnshared(copy);
    UnmatchedStays(copy, matches, AddressBytes(target));
    assert forall p :: p in copy.AllPointers() ==> p.signature in was && was[p.signature] == p.signature.value;
    copy.expiration := expiration;
    WriteMatches(matches, signature);
    forall p | p in copy.AllPointers()
      ensures p.signature.value == if p.encoded == AddressBytes(target) then signature else was[p.signature]
    {
      assert p.signature in matches <==> p.encoded == AddressBytes(target);
    }
    WrittenCopy(copy, entry, was, target, signature);
  }

  /** A copy of a validated entry, with the flattened pointers into it. */
  method CopyAndFlatten(entry: Entry) returns (copy: EntryCopy, nodes: seq<CredentialPointer>)
    requires entry.credentials.HasAddress() && CheckOrder(entry.credentials).Ok?
    ensures fresh(copy) && fresh({copy.top} + copy.cells) && copy.Valid() && copy.arm == entry.credentials
    ensures copy.Value() == entry && nodes == copy.AllPointers()
  {
    copy := new EntryCopy(entry);
    if copy.arm.WithDelegateTree? {
      ValidateAcceptsOrdered(entry.credentials.delegates, 1);
      OrderedIsWithinDepth(entry.credentials.delegates, 1);
      SnapshotWithinDepth(copy.delegates, 1);
    }
    var pointers := CredentialNodes(copy);
    nodes := pointers.value;
  }

  /** Copying the entry, flattening the copy and running the guards over it. */
  method PrepareCopy(entry: Entry, target: Target, expiration: u32)
    returns (copy: EntryCopy, matches: seq<SignatureCell>, r: Result<(), Error>)
    requires entry.credentials.HasAddress() && CheckOrder(entry.credentials).Ok?
    ensures fresh(copy) && copy.Valid() && copy.arm == entry.credentials && copy.Value() == entry
    ensures fresh(set c | c in matches) && Matching(matches, copy.AllPointers(), AddressBytes(target.address))
    ensures r == CheckNodes(entry, target, expiration)
  {
    var nodes;
    copy, nodes := CopyAndFlatten(entry);
    matches := CollectMatches(nodes, AddressBytes(target.address));
    AllPointersUnshared(copy);
    assert forall c :: c in matches ==> c in {copy.top} + copy.cells;
    MatchesReadTheTree(copy, matches, target.address);
    var shared := entry.credentials.WithDelegateTree? && entry.credentials.creds.expiration != expiration;
    r := CheckPointers(nodes, matches, shared, target.resign, Mentions(Nodes(entry), target.address),
                       AnySigned(Nodes(entry)), TargetSigned(Nodes(entry), target.address));
  }

  /**
   AuthorizeEntry as the library runs it. It returns exactly what `Authorize` specifies,
   touches no existing object, and asks the signer exactly what `Authorize` says is asked.
   */
  method AuthorizeEntry(entry: Entry, signer: Option<Signer>, expiration: u32, passphrase: string, options: Options,
                        cancelled: bool) returns (r: Result<Entry, Error>, asked: seq<HashIdPreimage>)
    ensures Outcome(r, asked) == Authorize(entry, signer, expiration, passphrase, options, cancelled)
  {
    if cancelled {
      return Err(Cancelled), [];
    }
    if entry.credentials.SourceAccount? {
      return Ok(entry), [];
    }
    var existing := GetCredentials(entry.credentials);
    if existing.Err? {
      return Err(existing.error), [];
    }
    var target := Resolve(signer, expiration, options);
    if target.Err? {
      return Err(target.error), [];
    }
    if entry.credentials.WithDelegateTree? {
      var valid := ValidateDelegateLevel(entry.credentials.delegates, 1);
      if valid.Err? {
        return Err(valid.error), [];
      }
    }
    var copy, matches, guarded := PrepareCopy(entry, target.value, expiration);
    if guarded.Err? {
      return Err(guarded.error), [];
    }
    var preimage := Preimage(entry, expiration, passphrase);
    if preimage.Err? {
      return Err(preimage.error), [];
    }
    asked := [preimage.value];
    var signature := signer.value.sign(preimage.value, Sha256(preimage.value));
    if signature.Err? {
      return Err(signature.error), asked;
    }
    WriteThrough(copy, entry, matches, target.value.address, signature.value, expiration);
    r := Ok(copy.Value());
  }
}