/**
 diff.go: what differs between two entries, and which differences move the signed payload.

 `DiffEntries` never builds a preimage. The lemmas at the end compare its verdict with
 `Preimages`, which defines what is signed.
 */
module Diffing {
  import opened Wrappers
  import opened Bytes
  import opened Xdr
  import opened Preimages
  import opened Authorization
  import opened DiffPaths
  import Text

  datatype ChangeKind =
    | ArmChange | AddressChange | NonceChange | ExpirationChange | InvocationChange
    | DelegateAdded | DelegateRemoved | SignatureChange

  datatype Change = Change(kind: ChangeKind, path: string, affectsPayload: bool)

  predicate AnyAffects(changes: seq<Change>) {
    exists c <- changes :: c.affectsPayload
  }

  lemma {:induction false} AnyAffectsJoin(a: seq<Change>, b: seq<Change>)
    ensures AnyAffects(a + b) <==> AnyAffects(a) || AnyAffects(b)
  {
    assert forall c :: c in a + b <==> c in a || c in b;
  }

  // ---------- Invocation trees ----------

  function When(condition: bool, kind: ChangeKind, path: string, affects: bool): seq<Change> {
    if condition then [Change(kind, path, affects)] else []
  }

  function ArgPath(path: string, i: nat): string {
    path + ".args[" + Text.Decimal(i) + "]"
  }

  /** The differing arguments among the first n. */
  function ArgChanges(path: string, a: seq<ScVal>, b: seq<ScVal>, n: nat): seq<Change>
    requires n <= |a| == |b|
  {
    if n == 0 then []
    else ArgChanges(path, a, b, n - 1) + When(a[n - 1] != b[n - 1], InvocationChange, ArgPath(path, n - 1), true)
  }

  function ContractFnChanges(path: string, a: AuthorizedFunction, b: AuthorizedFunction): seq<Change>
    requires a.ContractFn? && b.ContractFn?
  {
    When(a.contract != b.contract, InvocationChange, path + ".contractAddress", true)
    + When(a.name != b.name, InvocationChange, path + ".functionName", true)
    + if |a.args| != |b.args| then [Change(InvocationChange, path + ".args", true)]
      else ArgChanges(path, a.args, b.args, |a.args|)
  }

  predicate SameType(a: AuthorizedFunction, b: AuthorizedFunction) {
    a.ContractFn? == b.ContractFn? && a.CreateContract? == b.CreateContract?
  }

  function SubPath(path: string, i: nat): string {
    path + ".subInvocations[" + Text.Decimal(i) + "]"
  }

  function FunctionChanges(path: string, a: AuthorizedFunction, b: AuthorizedFunction): seq<Change>
    requires SameType(a, b)
  {
    if a.ContractFn? then ContractFnChanges(path, a, b) else When(a != b, InvocationChange, path + ".function", true)
  }

  /** The differences between two invocation trees, outermost first. */
  function InvocationChanges(path: string, a: Invocation, b: Invocation): seq<Change>
    decreases a, 0
  {
    if !SameType(a.function_, b.function_) then [Change(InvocationChange, path + ".function", true)]
    else
      FunctionChanges(path, a.function_, b.function_)
      + if |a.subs| != |b.subs| then [Change(InvocationChange, path + ".subInvocations", true)]
        else SubChanges(path, a.subs, b.subs, |a.subs|)
  }

  /** The differences within the first n sub-invocations. */
  function SubChanges(path: string, a: seq<Invocation>, b: seq<Invocation>, n: nat): seq<Change>
    requires n <= |a| == |b|
    decreases a, n
  {
    if n == 0 then [] else SubChanges(path, a, b, n - 1) + InvocationChanges(SubPath(path, n - 1), a[n - 1], b[n - 1])
  }

  /** Two trees can be compared: where both have a node it lies within the limit and its contract renders. */
  predicate InvocationsComparable(a: Invocation, b: Invocation, depth: nat)
    decreases a
  {
    && depth <= MAX_DEPTH
    && (SameType(a.function_, b.function_) ==>
          && (a.function_.ContractFn? ==> Formattable(a.function_.contract) && Formattable(b.function_.contract))
          && (|a.subs| == |b.subs| ==>
                forall i | 0 <= i < |a.subs| :: InvocationsComparable(a.subs[i], b.subs[i], depth + 1)))
  }

  /** The list that diffInvocation appends to through its pointer. */
  class ChangeList {
    var items: seq<Change>

    constructor (start: seq<Change>)
      ensures items == start
    {
      items := start;
    }

    method Add(kind: ChangeKind, path: string)
      modifies this
      ensures items == old(items) + [Change(kind, path, true)]
    {
      items := items + [Change(kind, path, true)];
    }

    /** diffContractFn. */
    method DiffContractFn(path: string, a: AuthorizedFunction, b: AuthorizedFunction) returns (err: Option<Error>)
      requires a.ContractFn? && b.ContractFn?
      modifies this
      ensures err.None? <==> Formattable(a.contract) && Formattable(b.contract)
      ensures err.None? ==> items == old(items) + ContractFnChanges(path, a, b)
    {
      var left := FormatAddress(a.contract);
      if left.Err? { return Some(left.error); }
      var right := FormatAddress(b.contract);
      if right.Err? { return Some(right.error); }
      AddressTextReadable(a.contract, b.contract);
      if StrkeyText(left.value) != StrkeyText(right.value) { Add(InvocationChange, path + ".contractAddress"); }
      if a.name != b.name { Add(InvocationChange, path + ".functionName"); }
      ghost var own := When(a.contract != b.contract, InvocationChange, path + ".contractAddress", true)
                       + When(a.name != b.name, InvocationChange, path + ".functionName", true);
      assert items == old(items) + own;
      if |a.args| != |b.args| {
        Add(InvocationChange, path + ".args");
      } else {
        DiffArgs(path, a.args, b.args);
      }
      return None;
    }

    /** The argument loop of diffContractFn. */
    method DiffArgs(path: string, a: seq<ScVal>, b: seq<ScVal>)
      requires |a| == |b|
      modifies this
      ensures items == old(items) + ArgChanges(path, a, b, |a|)
    {
      for i := 0 to |a|
        invariant items == old(items) + ArgChanges(path, a, b, i)
      {
        if a[i] != b[i] { Add(InvocationChange, path + ".args[" + Text.Decimal(i) + "]"); }
      }
    }

    /** diffInvocation: on an error what was appended is discarded by the caller. */
    method DiffInvocation(path: string, a: Invocation, b: Invocation, depth: nat) returns (err: Option<Error>)
      modifies this
      ensures err.None? <==> InvocationsComparable(a, b, depth)
      ensures err.None? ==> items == old(items) + InvocationChanges(path, a, b)
      decreases a
    {
      if depth > MAX_DEPTH { return Some(DecodeLimit); }
      if !SameType(a.function_, b.function_) {
        Add(InvocationChange, path + ".function");
        return None;
      }
      if a.function_.ContractFn? {
        var failed := DiffContractFn(path, a.function_, b.function_);
        if failed.Some? { return failed; }
      } else if a.function_ != b.function_ {
        Add(InvocationChange, path + ".function");
      }
      assert items == old(items) + FunctionChanges(path, a.function_, b.function_);
      if |a.subs| != |b.subs| {
        Add(InvocationChange, path + ".subInvocations");
        return None;
      }
      err := DiffSubs(path, a.subs, b.subs, depth);
    }

    /** The loop of diffInvocation over sub-invocations. */
    method DiffSubs(path: string, a: seq<Invocation>, b: seq<Invocation>, depth: nat) returns (err: Option<Error>)
      requires |a| == |b|
      modifies this
      ensures err.None? <==> forall i :: 0 <= i < |a| ==> InvocationsComparable(a[i], b[i], depth + 1)
      ensures err.None? ==> items == old(items) + SubChanges(path, a, b, |a|)
      decreases a
    {
      for i := 0 to |a|
        invariant forall j :: 0 <= j < i ==> InvocationsComparable(a[j], b[j], depth + 1)
        invariant items == old(items) + SubChanges(path, a, b, i)
      {
        var failed := DiffInvocation(path + ".subInvocations[" + Text.Decimal(i) + "]", a[i], b[i], depth + 1);
        if failed.Some? { return failed; }
      }
      return None;
    }
  }

  // ---------- Signature-bearing nodes ----------

  function SignatureMap(nodes: seq<DiffNode>): (m: map<string, ScVal>) {
    if nodes == [] then map[]
    else
      var last := nodes[|nodes| - 1];
      SignatureMap(nodes[..|nodes| - 1])[last.path := last.signature]
  }

  /** Every path of either entry, those of the first before those only the second has. */
  function PathOrder(a: seq<DiffNode>, b: seq<DiffNode>, left: map<string, ScVal>): seq<string> {
    if b != [] then
      PathOrder(a, b[..|b| - 1], left) + if b[|b| - 1].path in left then [] else [b[|b| - 1].path]
    else if a != [] then PathOrder(a[..|a| - 1], [], left) + [a[|a| - 1].path]
    else []
  }

  /** The change, if any, at one path. */
  function NodeChange(path: string, left: map<string, ScVal>, right: map<string, ScVal>): seq<Change>
    requires path in left || path in right
  {
    if path == TOP && (path in left) != (path in right) then []
    else if path !in right then [Change(DelegateRemoved, path, false)]
    else if path !in left then [Change(DelegateAdded, path, false)]
    else When(left[path] != right[path], SignatureChange, path + ".signature", false)
  }

  predicate CarriedOver(path: string, left: map<string, ScVal>, right: map<string, ScVal>) {
    path in left && path in right && left[path] == right[path] && IsSigned(left[path])
  }

  predicate Resigned(path: string, left: map<string, ScVal>, right: map<string, ScVal>) {
    path in left && path in right && left[path] != right[path]
  }

  function NodeChanges(order: seq<string>, left: map<string, ScVal>, right: map<string, ScVal>): seq<Change>
    requires forall p :: p in order ==> p in left || p in right
  {
    if order == [] then []
    else
      var n := |order| - 1;
      NodeChanges(order[..n], left, right) + NodeChange(order[n], left, right)
  }

  function Stale(order: seq<string>, left: map<string, ScVal>, right: map<string, ScVal>): seq<string> {
    if order == [] then []
    else
      var n := |order| - 1;
      Stale(order[..n], left, right) + if CarriedOver(order[n], left, right) then [order[n]] else []
  }

  predicate AnyResigned(order: seq<string>, left: map<string, ScVal>, right: map<string, ScVal>) {
    order != [] && (AnyResigned(order[..|order| - 1], left, right) || Resigned(order[|order| - 1], left, right))
  }

  datatype NodeDiff = NodeDiff(changes: seq<Change>, carriedOver: seq<string>, signaturesChanged: bool,
                               signedBefore: bool)

  predicate AnyNodeSigned(nodes: seq<DiffNode>) {
    nodes != [] && (AnyNodeSigned(nodes[..|nodes| - 1]) || IsSigned(nodes[|nodes| - 1].signature))
  }

  lemma {:induction false} OrderCovers(a: seq<DiffNode>, b: seq<DiffNode>, left: map<string, ScVal>)
    requires forall n :: n in a ==> n.path in left
    ensures forall p :: p in PathOrder(a, b, left) <==>
                          (exists n :: n in a && n.path == p) || (p !in left && exists n :: n in b && n.path == p)
    decreases |a| + |b|
  {
    if b != [] {
      OrderCovers(a, b[..|b| - 1], left);
      assert b == b[..|b| - 1] + [b[|b| - 1]];
    } else if a != [] {
      OrderCovers(a[..|a| - 1], [], left);
      assert a == a[..|a| - 1] + [a[|a| - 1]];
    }
  }

  lemma {:induction false} MapHolds(nodes: seq<DiffNode>)
    ensures forall p :: p in SignatureMap(nodes) <==> exists n :: n in nodes && n.path == p
    ensures DistinctPaths(nodes) ==> forall n :: n in nodes ==> SignatureMap(nodes)[n.path] == n.signature
  {
    if nodes != [] {
      var init, last := nodes[..|nodes| - 1], nodes[|nodes| - 1];
      MapHolds(init);
      assert nodes == init + [last];
    }
  }

  /** The first loop of diffNodeSets: the first entry's table, its paths in order, and whether it is signed. */
  method ReadLeft(a: seq<DiffNode>) returns (left: map<string, ScVal>, order: seq<string>, signedBefore: bool)
    ensures left == SignatureMap(a) && order == PathOrder(a, [], left) && signedBefore == AnyNodeSigned(a)
  {
    left, order, signedBefore := map[], [], false;
    for i := 0 to |a|
      invariant left == SignatureMap(a[..i]) && order == PathOrder(a[..i], [], SignatureMap(a))
      invariant signedBefore == AnyNodeSigned(a[..i])
    {
      assert a[..i + 1][..i] == a[..i];
      left, order := left[a[i].path := a[i].signature], order + [a[i].path];
      if IsSigned(a[i].signature) { signedBefore := true; }
    }
    assert a[..|a|] == a;
  }

  /** The second loop: the second entry's table, and the paths only it has. */
  method ReadRight(b: seq<DiffNode>, left: map<string, ScVal>, start: seq<string>, ghost a: seq<DiffNode>)
    returns (right: map<string, ScVal>, order: seq<string>)
    requires start == PathOrder(a, [], left)
    ensures right == SignatureMap(b) && order == PathOrder(a, b, left)
  {
    right, order := map[], start;
    for i := 0 to |b|
      invariant right == SignatureMap(b[..i]) && order == PathOrder(a, b[..i], left)
    {
      assert b[..i + 1][..i] == b[..i];
      right := right[b[i].path := b[i].signature];
      if b[i].path !in left { order := order + [b[i].path]; }
    }
    assert b[..|b|] == b;
  }

  /** The third loop: what happened at each path. */
  method CompareNodes(order: seq<string>, left: map<string, ScVal>, right: map<string, ScVal>)
    returns (changes: seq<Change>, carriedOver: seq<string>, signaturesChanged: bool)
    requires forall p :: p in order ==> p in left || p in right
    ensures changes == NodeChanges(order, left, right) && carriedOver == Stale(order, left, right)
    ensures signaturesChanged == AnyResigned(order, left, right)
  {
    changes, carriedOver, signaturesChanged := [], [], false;
    for i := 0 to |order|
      invariant changes == NodeChanges(order[..i], left, right) && carriedOver == Stale(order[..i], left, right)
      invariant signaturesChanged == AnyResigned(order[..i], left, right)
    {
      var path := order[i];
      assert order[..i + 1] == order[..i] + [path] && order[..i + 1][..i] == order[..i];
      if path == TOP && (path in left) != (path in right) { continue; }
      if path in left && path !in right {
        changes := changes + [Change(DelegateRemoved, path, false)];
      } else if path !in left && path in right {
        changes := changes + [Change(DelegateAdded, path, false)];
      } else if left[path] == right[path] {
        if IsSigned(left[path]) { carriedOver := carriedOver + [path]; }
      } else {
        signaturesChanged := true;
        changes := changes + [Change(SignatureChange, path + ".signature", false)];
      }
    }
    assert order[..|order|] == order;
  }

  /** The paths of either entry in the order compared. */
  function Order(a: seq<DiffNode>, b: seq<DiffNode>): seq<string> {
    PathOrder(a, b, SignatureMap(a))
  }

  lemma {:induction false} OrderIsKnown(a: seq<DiffNode>, b: seq<DiffNode>)
    ensures forall p :: p in Order(a, b) <==> p in SignatureMap(a) || p in SignatureMap(b)
  {
    MapHolds(a);
    MapHolds(b);
    OrderCovers(a, b, SignatureMap(a));
  }

  /** diffNodeSets. */
  method DiffNodeSets(a: seq<DiffNode>, b: seq<DiffNode>) returns (r: NodeDiff)
    ensures var left, right := SignatureMap(a), SignatureMap(b);
            && (forall p :: p in Order(a, b) ==> p in left || p in right)
            && r == NodeDiff(NodeChanges(Order(a, b), left, right), Stale(Order(a, b), left, right),
                             AnyResigned(Order(a, b), left, right), AnyNodeSigned(a))
  {
    var left, start, signedBefore := ReadLeft(a);
    var right, order := ReadRight(b, left, start, a);
    OrderIsKnown(a, b);
    var changes, carriedOver, signaturesChanged := CompareNodes(order, left, right);
    return NodeDiff(changes, carriedOver, signaturesChanged, signedBefore);
  }

  // ---------- Whole entries ----------

  /** The report, with its changes in the order found. */
  datatype EntryDiff = EntryDiff(
    identical: bool, payloadChanged: bool, signaturesChanged: bool, stale: seq<string>, changes: seq<Change>)

  predicate SameArm(a: Credentials, b: Credentials) {
    a.SourceAccount? == b.SourceAccount? && a.Legacy? == b.Legacy? && a.V2? == b.V2?
    && a.WithDelegateTree? == b.WithDelegateTree? && a.UnknownType? == b.UnknownType?
  }

  function CredentialChanges(a: Credentials, b: Credentials): seq<Change> {
    When(!SameArm(a, b), ArmChange, "credentials.type", true)
    + if !a.HasAddress() || !b.HasAddress() then []
      else
        When(a.creds.address != b.creds.address, AddressChange, "credentials.address",
             AddressBound(a) && AddressBound(b))
        + When(a.creds.nonce != b.creds.nonce, NonceChange, "credentials.nonce", true)
        + When(a.creds.expiration != b.creds.expiration, ExpirationChange, "credentials.signatureExpirationLedger",
               true)
  }

  /** The arms are known and not empty, every address to be shown renders, and no tree is too deep. */
  predicate Comparable(a: Entry, b: Entry) {
    var x, y := a.credentials, b.credentials;
    && (x.HasAddress() || x.SourceAccount?) && (y.HasAddress() || y.SourceAccount?)
    && (x.HasAddress() && y.HasAddress() ==> Formattable(x.creds.address) && Formattable(y.creds.address))
    && InvocationsComparable(a.root, b.root, 1)
    && NodesNameable(x) && NodesNameable(y)
  }

  /** Every difference, in the order found. */
  function Changes(a: Entry, b: Entry): seq<Change>
    requires Comparable(a, b)
  {
    var x, y := NodesWithPaths(a.credentials), NodesWithPaths(b.credentials);
    OrderIsKnown(x, y);
    CredentialChanges(a.credentials, b.credentials)
    + InvocationChanges("rootInvocation", a.root, b.root)
    + NodeChanges(Order(x, y), SignatureMap(x), SignatureMap(y))
  }

  /** DiffEntries. */
  method DiffEntries(a: Entry, b: Entry) returns (r: Result<EntryDiff, Error>)
    ensures r.Ok? <==> Comparable(a, b)
    ensures r.Ok? ==>
              var x, y := NodesWithPaths(a.credentials), NodesWithPaths(b.credentials);
              && r.value.identical == (a == b)
              && r.value.changes == Changes(a, b)
              && r.value.payloadChanged == AnyAffects(Changes(a, b))
              && r.value.signaturesChanged == AnyResigned(Order(x, y), SignatureMap(x), SignatureMap(y))
              && r.value.stale == if r.value.payloadChanged then Stale(Order(x, y), SignatureMap(x), SignatureMap(y))
                                  else []
  {
    var x, y := a.credentials, b.credentials;
    if x.UnknownType? || y.UnknownType? { return Err(UnsupportedCredentials); }
    if x.EmptyAddressArm? || y.EmptyAddressArm? { return Err(EmptyArm); }
    var changes := new ChangeList([]);
    var own, failed := DiffCredentials(x, y);
    if failed.Some? { return Err(failed.value); }
    changes.items := own;
    failed := changes.DiffInvocation("rootInvocation", a.root, b.root, 1);
    if failed.Some? { return Err(failed.value); }
    var left :- DiffNodes(x);
    var right :- DiffNodes(y);
    var nodes := DiffNodeSets(left, right);
    var all := changes.items + nodes.changes;
    var payloadChanged := AffectsAny(all);
    return Ok(EntryDiff(a == b, payloadChanged, nodes.signaturesChanged,
                        if payloadChanged then nodes.carriedOver else [], all));
  }

  /** The credential fields, compared only where both entries carry them. */
  method DiffCredentials(x: Credentials, y: Credentials) returns (changes: seq<Change>, err: Option<Error>)
    requires (x.HasAddress() || x.SourceAccount?) && (y.HasAddress() || y.SourceAccount?)
    ensures err.None? <==>
              (x.HasAddress() && y.HasAddress() ==> Formattable(x.creds.address) && Formattable(y.creds.address))
    ensures err.None? ==> changes == CredentialChanges(x, y)
  {
    changes := if SameArm(x, y) then [] else [Change(ArmChange, "credentials.type", true)];
    if x.SourceAccount? || y.SourceAccount? { return changes, None; }
    var addressX, addressY := FormatAddress(x.creds.address), FormatAddress(y.creds.address);
    if addressX.Err? { return changes, Some(addressX.error); }
    if addressY.Err? { return changes, Some(addressY.error); }
    AddressTextReadable(x.creds.address, y.creds.address);
    var fields := [];
    if StrkeyText(addressX.value) != StrkeyText(addressY.value) {
      fields := [Change(AddressChange, "credentials.address", AddressBound(x) && AddressBound(y))];
    }
    if x.creds.nonce != y.creds.nonce {
      fields := fields + [Change(NonceChange, "credentials.nonce", true)];
    }
    if x.creds.expiration != y.creds.expiration {
      fields := fields + [Change(ExpirationChange, "credentials.signatureExpirationLedger", true)];
    }
    return changes + fields, None;
  }

  /** The loop that derives PayloadChanged from the changes. */
  method AffectsAny(changes: seq<Change>) returns (any: bool)
    ensures any == AnyAffects(changes)
  {
    for i := 0 to |changes|
      invariant forall j :: 0 <= j < i ==> !changes[j].affectsPayload
    {
      if changes[i].affectsPayload { return true; }
    }
    return false;
  }

  // ---------- The verdict against the preimage ----------

  lemma {:induction false} PrefixesDiffer<T>(a: seq<T>, b: seq<T>, n: nat)
    requires 0 < n <= |a| == |b|
    ensures a[..n] != b[..n] <==> a[..n - 1] != b[..n - 1] || a[n - 1] != b[n - 1]
  {
    assert a[..n] == a[..n - 1] + [a[n - 1]] && b[..n] == b[..n - 1] + [b[n - 1]];
  }

  lemma {:induction false} ArgChangesMean(path: string, a: seq<ScVal>, b: seq<ScVal>, n: nat)
    requires n <= |a| == |b|
    ensures AnyAffects(ArgChanges(path, a, b, n)) <==> a[..n] != b[..n]
  {
    if n > 0 {
      ArgChangesMean(path, a, b, n - 1);
      AnyAffectsJoin(ArgChanges(path, a, b, n - 1),
                     When(a[n - 1] != b[n - 1], InvocationChange, ArgPath(path, n - 1), true));
      WhenMeans(a[n - 1] != b[n - 1], InvocationChange, ArgPath(path, n - 1), true);
      PrefixesDiffer(a, b, n);
    }
  }

  lemma {:induction false} WhenMeans(condition: bool, kind: ChangeKind, path: string, affects: bool)
    ensures AnyAffects(When(condition, kind, path, affects)) <==> condition && affects
  {
    if condition { assert Change(kind, path, affects) in When(condition, kind, path, affects); }
  }

  lemma {:induction false} FunctionChangesMean(path: string, a: AuthorizedFunction, b: AuthorizedFunction)
    requires SameType(a, b)
    ensures AnyAffects(FunctionChanges(path, a, b)) <==> a != b
  {
    WhenMeans(a != b, InvocationChange, path + ".function", true);
    if a.ContractFn? {
      var x := When(a.contract != b.contract, InvocationChange, path + ".contractAddress", true);
      var y := When(a.name != b.name, InvocationChange, path + ".functionName", true);
      var z := if |a.args| != |b.args| then [Change(InvocationChange, path + ".args", true)]
               else ArgChanges(path, a.args, b.args, |a.args|);
      AnyAffectsJoin(x + y, z);
      AnyAffectsJoin(x, y);
      WhenMeans(a.contract != b.contract, InvocationChange, path + ".contractAddress", true);
      WhenMeans(a.name != b.name, InvocationChange, path + ".functionName", true);
      if |a.args| == |b.args| {
        ArgChangesMean(path, a.args, b.args, |a.args|);
        assert a.args[..|a.args|] == a.args && b.args[..|b.args|] == b.args;
      } else {
        WhenMeans(true, InvocationChange, path + ".args", true);
      }
    }
  }

  /** Two invocation trees show a difference exactly when they differ. */
  lemma {:induction false} InvocationChangesMean(path: string, a: Invocation, b: Invocation)
    ensures AnyAffects(InvocationChanges(path, a, b)) <==> a != b
    decreases a, 0
  {
    if SameType(a.function_, b.function_) {
      FunctionChangesMean(path, a.function_, b.function_);
      WhenMeans(true, InvocationChange, path + ".subInvocations", true);
      if |a.subs| == |b.subs| {
        SubChangesMean(path, a.subs, b.subs, |a.subs|);
        assert a.subs[..|a.subs|] == a.subs && b.subs[..|b.subs|] == b.subs;
        AnyAffectsJoin(FunctionChanges(path, a.function_, b.function_), SubChanges(path, a.subs, b.subs, |a.subs|));
      } else {
        AnyAffectsJoin(FunctionChanges(path, a.function_, b.function_),
                       [Change(InvocationChange, path + ".subInvocations", true)]);
      }
    } else {
      WhenMeans(true, InvocationChange, path + ".function", true);
    }
  }

  lemma {:induction false} SubChangesMean(path: string, a: seq<Invocation>, b: seq<Invocation>, n: nat)
    requires n <= |a| == |b|
    ensures AnyAffects(SubChanges(path, a, b, n)) <==> a[..n] != b[..n]
    decreases a, n
  {
    if n > 0 {
      SubChangesMean(path, a, b, n - 1);
      InvocationChangesMean(SubPath(path, n - 1), a[n - 1], b[n - 1]);
      AnyAffectsJoin(SubChanges(path, a, b, n - 1), InvocationChanges(SubPath(path, n - 1), a[n - 1], b[n - 1]));
      PrefixesDiffer(a, b, n);
    }
  }

  /** Nothing in a delegate tree, and no signature, moves the payload. */
  lemma {:induction false} NodeChangesDoNotAffect(order: seq<string>, left: map<string, ScVal>,
                                                  right: map<string, ScVal>)
    requires forall p :: p in order ==> p in left || p in right
    ensures !AnyAffects(NodeChanges(order, left, right))
  {
    if order != [] {
      var n := |order| - 1;
      NodeChangesDoNotAffect(order[..n], left, right);
      AnyAffectsJoin(NodeChanges(order[..n], left, right), NodeChange(order[n], left, right));
    }
  }

  lemma {:induction false} CredentialChangesMean(a: Credentials, b: Credentials)
    requires a.HasAddress() && b.HasAddress()
    ensures AnyAffects(CredentialChanges(a, b))
            <==> !SameArm(a, b) || a.creds.nonce != b.creds.nonce || a.creds.expiration != b.creds.expiration
                 || (AddressBound(a) && a.creds.address != b.creds.address)
  {
    var bound := AddressBound(a) && AddressBound(b);
    var w := When(!SameArm(a, b), ArmChange, "credentials.type", true);
    var x := When(a.creds.address != b.creds.address, AddressChange, "credentials.address", bound);
    var y := When(a.creds.nonce != b.creds.nonce, NonceChange, "credentials.nonce", true);
    var z := When(a.creds.expiration != b.creds.expiration, ExpirationChange, "credentials.signatureExpirationLedger",
                  true);
    WhenMeans(!SameArm(a, b), ArmChange, "credentials.type", true);
    WhenMeans(a.creds.address != b.creds.address, AddressChange, "credentials.address", bound);
    WhenMeans(a.creds.nonce != b.creds.nonce, NonceChange, "credentials.nonce", true);
    WhenMeans(a.creds.expiration != b.creds.expiration, ExpirationChange, "credentials.signatureExpirationLedger",
              true);
    AnyAffectsJoin(w, x + y + z);
    AnyAffectsJoin(x + y, z);
    AnyAffectsJoin(x, y);
  }

  /** The fields the verdict rests on: the arm, and what the preimage of that arm holds. */
  predicate SignedFieldsDiffer(a: Entry, b: Entry)
    requires a.credentials.HasAddress() && b.credentials.HasAddress()
  {
    var x, y := a.credentials, b.credentials;
    || !SameArm(x, y) || x.creds.nonce != y.creds.nonce || x.creds.expiration != y.creds.expiration
    || (AddressBound(x) && x.creds.address != y.creds.address) || a.root != b.root
  }

  lemma {:induction false} VerdictMeans(a: Entry, b: Entry)
    requires Comparable(a, b) && a.credentials.HasAddress() && b.credentials.HasAddress()
    ensures AnyAffects(Changes(a, b)) <==> SignedFieldsDiffer(a, b)
  {
    var x, y := NodesWithPaths(a.credentials), NodesWithPaths(b.credentials);
    OrderIsKnown(x, y);
    var c, i := CredentialChanges(a.credentials, b.credentials), InvocationChanges("rootInvocation", a.root, b.root);
    var n := NodeChanges(Order(x, y), SignatureMap(x), SignatureMap(y));
    AnyAffectsJoin(c + i, n);
    AnyAffectsJoin(c, i);
    CredentialChangesMean(a.credentials, b.credentials);
    InvocationChangesMean("rootInvocation", a.root, b.root);
    NodeChangesDoNotAffect(Order(x, y), SignatureMap(x), SignatureMap(y));
  }

  /** PayloadChanged = false is safe: the two preimages are then equal on every network. */
  lemma {:induction false} NoChangeMissed(a: Entry, b: Entry, passphrase: string)
    requires Comparable(a, b) && a.credentials.HasAddress() && b.credentials.HasAddress()
    requires !AnyAffects(Changes(a, b))
    ensures OwnPayload(a, passphrase) == OwnPayload(b, passphrase)
  {
    VerdictMeans(a, b);
  }

  /**
   PayloadChanged says exactly whether the payloads differ, unless one entry is V2 and the other
   carries delegates while all signed fields agree: those two share a preimage, and are flagged.
   */
  lemma {:induction false} VerdictIsExact(a: Entry, b: Entry, passphrase: string)
    requires Comparable(a, b) && a.credentials.HasAddress() && b.credentials.HasAddress() && passphrase != ""
    ensures (AnyAffects(Changes(a, b)) <==> OwnPayload(a, passphrase) != OwnPayload(b, passphrase))
            <==> !(&& !SameArm(a.credentials, b.credentials)
                   && AddressBound(a.credentials) && AddressBound(b.credentials)
                   && a.credentials.creds.nonce == b.credentials.creds.nonce
                   && a.credentials.creds.expiration == b.credentials.creds.expiration
                   && a.credentials.creds.address == b.credentials.creds.address && a.root == b.root)
  {
    VerdictMeans(a, b);
  }

  /** Two entries that never authorize by signature differ in what they authorize exactly when flagged. */
  lemma {:induction false} SourceAccountVerdict(a: Entry, b: Entry)
    requires Comparable(a, b) && a.credentials.SourceAccount? && b.credentials.SourceAccount?
    ensures AnyAffects(Changes(a, b)) <==> a.root != b.root
  {
    var x, y := NodesWithPaths(a.credentials), NodesWithPaths(b.credentials);
    OrderIsKnown(x, y);
    var c, i := CredentialChanges(a.credentials, b.credentials), InvocationChanges("rootInvocation", a.root, b.root);
    AnyAffectsJoin(c + i, NodeChanges(Order(x, y), SignatureMap(x), SignatureMap(y)));
    AnyAffectsJoin(c, i);
    InvocationChangesMean("rootInvocation", a.root, b.root);
    NodeChangesDoNotAffect(Order(x, y), SignatureMap(x), SignatureMap(y));
  }

  // ---------- Stale signatures ----------

  /** At each path the report says whether the node was added, removed or re-signed, and nothing else. */
  lemma {:induction false} NodeChangesMean(order: seq<string>, left: map<string, ScVal>, right: map<string, ScVal>,
                                           p: string)
    requires forall q :: q in order ==> q in left || q in right
    requires p in order
    ensures Change(DelegateAdded, p, false) in NodeChanges(order, left, right) <==> p !in left && p != TOP
    ensures Change(DelegateRemoved, p, false) in NodeChanges(order, left, right) <==> p !in right && p != TOP
    ensures Change(SignatureChange, p + ".signature", false) in NodeChanges(order, left, right)
            <==> Resigned(p, left, right)
  {
    ChangeAt(order, left, right, p, Change(DelegateAdded, p, false));
    ChangeAt(order, left, right, p, Change(DelegateRemoved, p, false));
    ChangeAt(order, left, right, p, Change(SignatureChange, p + ".signature", false));
  }

  /** A change is in the report exactly when it is the one at the path it names. */
  lemma {:induction false} ChangeAt(order: seq<string>, left: map<string, ScVal>, right: map<string, ScVal>, p: string,
                                    c: Change)
    requires forall q :: q in order ==> q in left || q in right
    requires p in order && c.path == if c.kind.SignatureChange? then p + ".signature" else p
    ensures c in NodeChanges(order, left, right) <==> c in NodeChange(p, left, right)
  {
    NodeChangesAt(order, left, right);
    if c in NodeChanges(order, left, right) {
      var q :| q in order && c in NodeChange(q, left, right);
      if c.kind.SignatureChange? { SignaturePathNames(p, q, left, right); }
    }
  }

  /** The path of a signature change names the node whose signature changed. */
  lemma {:induction false} SignaturePathNames(p: string, q: string, left: map<string, ScVal>, right: map<string, ScVal>)
    requires q in left || q in right
    requires exists c :: c in NodeChange(q, left, right) && c.kind.SignatureChange? && c.path == p + ".signature"
    ensures q == p
  {
    assert q + ".signature" == p + ".signature";
    assert |q| == |p|;
    SplitEqual(q, ".signature", p, ".signature");
  }

  lemma {:induction false} NodeChangesAt(order: seq<string>, left: map<string, ScVal>, right: map<string, ScVal>)
    requires forall q :: q in order ==> q in left || q in right
    ensures forall c :: c in NodeChanges(order, left, right)
                        <==> exists p :: p in order && c in NodeChange(p, left, right)
  {
    if order != [] {
      var n := |order| - 1;
      NodeChangesAt(order[..n], left, right);
      assert order == order[..n] + [order[n]];
    }
  }

  /** The node at this path is signed, with the same value, in both entries. */
  ghost predicate SignedAlike(path: string, a: seq<DiffNode>, b: seq<DiffNode>) {
    exists v :: IsSigned(v) && DiffNode(path, v) in a && DiffNode(path, v) in b
  }

  ghost predicate NoRepeats(s: seq<string>) {
    forall i, j :: 0 <= i < j < |s| ==> s[i] != s[j]
  }

  lemma {:induction false} OrderHasNoRepeats(a: seq<DiffNode>, b: seq<DiffNode>, left: map<string, ScVal>)
    requires DistinctPaths(a) && DistinctPaths(b) && forall n :: n in a ==> n.path in left
    ensures NoRepeats(PathOrder(a, b, left))
    decreases |a| + |b|
  {
    if b != [] {
      var init, last := b[..|b| - 1], b[|b| - 1];
      OrderHasNoRepeats(a, init, left);
      OrderCovers(a, init, left);
      assert forall n :: n in init ==> n.path != last.path;
    } else if a != [] {
      var init, last := a[..|a| - 1], a[|a| - 1];
      OrderHasNoRepeats(init, [], left);
      OrderCovers(init, [], left);
      assert forall n :: n in init ==> n.path != last.path;
    }
  }

  lemma {:induction false} StaleFilters(order: seq<string>, left: map<string, ScVal>, right: map<string, ScVal>)
    ensures forall p :: p in Stale(order, left, right) <==> p in order && CarriedOver(p, left, right)
    ensures NoRepeats(order) ==> NoRepeats(Stale(order, left, right))
  {
    if order != [] {
      var n := |order| - 1;
      StaleFilters(order[..n], left, right);
      assert order == order[..n] + [order[n]];
    }
  }

  /** The stale list names, once each, the nodes signed with identical bytes in both entries. */
  lemma {:induction false} StaleListsExactly(a: Entry, b: Entry)
    requires Comparable(a, b)
    ensures var x, y := NodesWithPaths(a.credentials), NodesWithPaths(b.credentials);
            var stale := Stale(Order(x, y), SignatureMap(x), SignatureMap(y));
            NoRepeats(stale) && forall p :: p in stale <==> SignedAlike(p, x, y)
  {
    var x, y := NodesWithPaths(a.credentials), NodesWithPaths(b.credentials);
    PathsAreUnique(a.credentials);
    PathsAreUnique(b.credentials);
    MapHolds(x);
    MapHolds(y);
    OrderIsKnown(x, y);
    OrderHasNoRepeats(x, y, SignatureMap(x));
    StaleFilters(Order(x, y), SignatureMap(x), SignatureMap(y));
    forall p ensures CarriedOver(p, SignatureMap(x), SignatureMap(y)) <==> SignedAlike(p, x, y) {
      CarriedOverMeans(p, x, y);
    }
  }

  lemma {:induction false} CarriedOverMeans(p: string, x: seq<DiffNode>, y: seq<DiffNode>)
    requires DistinctPaths(x) && DistinctPaths(y)
    ensures CarriedOver(p, SignatureMap(x), SignatureMap(y)) <==> SignedAlike(p, x, y)
  {
    MapHolds(x);
    MapHolds(y);
    if CarriedOver(p, SignatureMap(x), SignatureMap(y)) {
      var m :| m in x && m.path == p;
      var n :| n in y && n.path == p;
      assert m == DiffNode(p, m.signature) && n == DiffNode(p, n.signature) && m.signature == n.signature;
    }
  }
}
