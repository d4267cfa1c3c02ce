/**
 What the report of diff.go says, node by node and field by field: which changes it lists for two
 entries, at which paths, and what the paths name.
 */
module DiffMeaning {
  import opened Wrappers
  import opened Bytes
  import opened Xdr
  import opened Preimages
  import opened Authorization
  import opened DiffPaths
  import opened Diffing
  import Text

  // ---------- Credential fields ----------

  lemma {:induction false} WhenHolds(condition: bool, c: Change, d: Change)
    ensures c in When(condition, d.kind, d.path, d.affectsPayload) <==> condition && c == d
  {
  }

  predicate FieldDiffers(a: Credentials, b: Credentials, c: Change)
    requires a.HasAddress() && b.HasAddress()
  {
    match c.kind
    case AddressChange =>
      var weight := !a.Legacy? && !b.Legacy?;
      a.creds.address != b.creds.address && c == Change(AddressChange, "credentials.address", weight)
    case NonceChange => a.creds.nonce != b.creds.nonce && c == Change(NonceChange, "credentials.nonce", true)
    case ExpirationChange =>
      && a.creds.expiration != b.creds.expiration
      && c == Change(ExpirationChange, "credentials.signatureExpirationLedger", true)
    case _ => false
  }

  /** The changes of two credentials: one per field that differs, each with its own kind, path and weight. */
  lemma {:induction false} CredentialChangesAre(a: Credentials, b: Credentials, c: Change)
    ensures c in CredentialChanges(a, b)
            <==> || (!SameArm(a, b) && c == Change(ArmChange, "credentials.type", true))
                 || (a.HasAddress() && b.HasAddress() && FieldDiffers(a, b, c))
  {
    WhenHolds(!SameArm(a, b), c, Change(ArmChange, "credentials.type", true));
    if a.HasAddress() && b.HasAddress() {
      var x := Change(AddressChange, "credentials.address", AddressBound(a) && AddressBound(b));
      var y := Change(NonceChange, "credentials.nonce", true);
      var z := Change(ExpirationChange, "credentials.signatureExpirationLedger", true);
      WhenHolds(a.creds.address != b.creds.address, c, x);
      WhenHolds(a.creds.nonce != b.creds.nonce, c, y);
      WhenHolds(a.creds.expiration != b.creds.expiration, c, z);
      FieldsAre(a, b, c, x, y, z);
    }
  }

  lemma {:induction false} FieldsAre(a: Credentials, b: Credentials, c: Change, x: Change, y: Change, z: Change)
    requires a.HasAddress() && b.HasAddress()
    requires x == Change(AddressChange, "credentials.address", AddressBound(a) && AddressBound(b))
    requires y == Change(NonceChange, "credentials.nonce", true)
    requires z == Change(ExpirationChange, "credentials.signatureExpirationLedger", true)
    ensures FieldDiffers(a, b, c)
            <==> || (a.creds.address != b.creds.address && c == x)
                 || (a.creds.nonce != b.creds.nonce && c == y)
                 || (a.creds.expiration != b.creds.expiration && c == z)
  {
  }

  // ---------- Invocation trees ----------

  /** The change the two functions at one place of the trees give rise to. */
  ghost predicate FunctionDiffers(path: string, a: AuthorizedFunction, b: AuthorizedFunction, c: Change) {
    && c.kind == InvocationChange && c.affectsPayload
    && if !(a.ContractFn? && b.ContractFn?) then a != b && c.path == path + ".function"
       else || (a.contract != b.contract && c.path == path + ".contractAddress")
            || (a.name != b.name && c.path == path + ".functionName")
            || (|a.args| != |b.args| && c.path == path + ".args")
            || (|a.args| == |b.args| && exists i: nat :: i < |a.args| && ArgDiffers(path, a.args, b.args, i, c))
  }

  ghost predicate ArgDiffers(path: string, a: seq<ScVal>, b: seq<ScVal>, i: nat, c: Change)
    requires i < |a| == |b|
  {
    a[i] != b[i] && c == Change(InvocationChange, path + ".args[" + Text.Decimal(i) + "]", true)
  }

  lemma {:induction false} ArgChangesAre(path: string, a: seq<ScVal>, b: seq<ScVal>, n: nat, c: Change)
    requires n <= |a| == |b|
    ensures c in ArgChanges(path, a, b, n) <==> exists i: nat :: i < n && ArgDiffers(path, a, b, i, c)
  {
    if n > 0 {
      ArgChangesAre(path, a, b, n - 1, c);
      WhenHolds(a[n - 1] != b[n - 1], c, Change(InvocationChange, ArgPath(path, n - 1), true));
      assert c in ArgChanges(path, a, b, n)
          <==> c in ArgChanges(path, a, b, n - 1) || ArgDiffers(path, a, b, n - 1, c);
    }
  }

  lemma {:induction false} FunctionChangesAre(path: string, a: AuthorizedFunction, b: AuthorizedFunction, c: Change)
    requires SameType(a, b)
    ensures c in FunctionChanges(path, a, b) <==> FunctionDiffers(path, a, b, c)
  {
    if a.ContractFn? && |a.args| == |b.args| {
      ArgChangesAre(path, a.args, b.args, |a.args|, c);
    }
  }

  /** The change that the two invocations reached by these steps give rise to. */
  ghost predicate DiffersAt(path: string, a: Invocation, b: Invocation, steps: seq<nat>, c: Change)
    decreases |steps|
  {
    if steps == [] then
      FunctionDiffers(path, a.function_, b.function_, c)
      || (SameType(a.function_, b.function_) && |a.subs| != |b.subs|
          && c == Change(InvocationChange, path + ".subInvocations", true))
    else
      && SameType(a.function_, b.function_) && steps[0] < |a.subs| == |b.subs|
      && DiffersAt(path + ".subInvocations[" + Text.Decimal(steps[0]) + "]", a.subs[steps[0]], b.subs[steps[0]],
                   steps[1..], c)
  }

  /** Some place of the two trees gives rise to the change. */
  ghost predicate Differs(path: string, a: Invocation, b: Invocation, c: Change) {
    exists steps :: DiffersAt(path, a, b, steps, c)
  }

  ghost predicate SubDiffers(path: string, a: seq<Invocation>, b: seq<Invocation>, i: nat, c: Change)
    requires i < |a| == |b|
  {
    Differs(SubPath(path, i), a[i], b[i], c)
  }

  /** Two trees differ at the top or within a pair of sub-invocations. */
  lemma {:induction false} DiffersUnfold(path: string, a: Invocation, b: Invocation, c: Change)
    ensures Differs(path, a, b, c)
            <==> || DiffersAt(path, a, b, [], c)
                 || (SameType(a.function_, b.function_) && |a.subs| == |b.subs|
                     && exists i: nat :: i < |a.subs| && SubDiffers(path, a.subs, b.subs, i, c))
  {
    if steps :| steps != [] && DiffersAt(path, a, b, steps, c) {
      assert DiffersAt(SubPath(path, steps[0]), a.subs[steps[0]], b.subs[steps[0]], steps[1..], c);
      assert SubDiffers(path, a.subs, b.subs, steps[0], c);
    }
    if SameType(a.function_, b.function_) && |a.subs| == |b.subs| {
      if i: nat :| i < |a.subs| && SubDiffers(path, a.subs, b.subs, i, c) {
        var rest :| DiffersAt(SubPath(path, i), a.subs[i], b.subs[i], rest, c);
        assert ([i] + rest)[1..] == rest;
        assert DiffersAt(path, a, b, [i] + rest, c);
      }
    }
  }

  /** The changes of two trees are those of the pairs of invocations that line up, and no others. */
  lemma {:induction false} InvocationChangesAre(path: string, a: Invocation, b: Invocation, c: Change)
    ensures c in InvocationChanges(path, a, b) <==> Differs(path, a, b, c)
    decreases a, 0
  {
    DiffersUnfold(path, a, b, c);
    if SameType(a.function_, b.function_) {
      FunctionChangesAre(path, a.function_, b.function_, c);
      if |a.subs| == |b.subs| { SubChangesAre(path, a.subs, b.subs, |a.subs|, c); }
    }
  }

  lemma {:induction false} SubChangesAre(path: string, a: seq<Invocation>, b: seq<Invocation>, n: nat, c: Change)
    requires n <= |a| == |b|
    ensures c in SubChanges(path, a, b, n) <==> exists i: nat :: i < n && SubDiffers(path, a, b, i, c)
    decreases a, n
  {
    if n > 0 {
      SubChangesAre(path, a, b, n - 1, c);
      InvocationChangesAre(SubPath(path, n - 1), a[n - 1], b[n - 1], c);
      var here := InvocationChanges(SubPath(path, n - 1), a[n - 1], b[n - 1]);
      assert SubChanges(path, a, b, n) == SubChanges(path, a, b, n - 1) + here;
      assert c in here <==> SubDiffers(path, a, b, n - 1, c);
    }
  }

  // ---------- Signatures ----------

  lemma {:induction false} AnyResignedMeans(order: seq<string>, left: map<string, ScVal>, right: map<string, ScVal>)
    ensures AnyResigned(order, left, right)
            <==> exists p :: p in order && p in left && p in right && left[p] != right[p]
  {
    if order != [] {
      var n := |order| - 1;
      AnyResignedMeans(order[..n], left, right);
      assert forall p :: p in order <==> p in order[..n] || p == order[n];
    }
  }

  /** The node at this path is in both entries, with different signatures. */
  ghost predicate SignedApart(path: string, x: seq<DiffNode>, y: seq<DiffNode>) {
    exists v, w :: DiffNode(path, v) in x && DiffNode(path, w) in y && v != w
  }

  lemma {:induction false} ResignedMeans(p: string, x: seq<DiffNode>, y: seq<DiffNode>)
    requires DistinctPaths(x) && DistinctPaths(y)
    ensures Resigned(p, SignatureMap(x), SignatureMap(y)) <==> SignedApart(p, x, y)
  {
    MapHolds(x);
    MapHolds(y);
    if Resigned(p, SignatureMap(x), SignatureMap(y)) {
      var m :| m in x && m.path == p;
      var n :| n in y && n.path == p;
      assert m == DiffNode(p, m.signature) && n == DiffNode(p, n.signature);
    }
  }

  /** SignaturesChanged says exactly whether some node of both entries holds different signatures in them. */
  lemma {:induction false} SignaturesChangedExactly(a: Entry, b: Entry)
    requires Comparable(a, b)
    ensures var x, y := NodesWithPaths(a.credentials), NodesWithPaths(b.credentials);
            AnyResigned(Order(x, y), SignatureMap(x), SignatureMap(y)) <==> exists p :: SignedApart(p, x, y)
  {
    var x, y := NodesWithPaths(a.credentials), NodesWithPaths(b.credentials);
    var left, right := SignatureMap(x), SignatureMap(y);
    PathsAreUnique(a.credentials);
    PathsAreUnique(b.credentials);
    AnyResignedMeans(Order(x, y), left, right);
    OrderIsKnown(x, y);
    forall p ensures Resigned(p, left, right) <==> SignedApart(p, x, y) {
      ResignedMeans(p, x, y);
    }
    if p :| SignedApart(p, x, y) {
      assert Resigned(p, left, right);
    }
    if p :| p in Order(x, y) && p in left && p in right && left[p] != right[p] {
      assert Resigned(p, left, right);
    }
  }

  // ---------- What the paths name ----------

  /** The last segment of a path names the address, and its number if it is not the first of its level. */
  ghost predicate Names(path: string, a: ScAddress) {
    Formattable(a)
    && exists prefix: string, n: nat {:trigger Named(prefix, a, n)} ::
         path == Named(prefix, a, n)
  }

  function Named(prefix: string, a: ScAddress, n: nat): string
    requires Formattable(a)
  {
    prefix + "[" + StrkeyText(FormatAddress(a).value) + "]" + if n > 1 then "#" + Text.Decimal(n) else ""
  }

  /** The compared nodes are the credential nodes, in the same order, with their signatures and addresses. */
  ghost predicate Lists(named: seq<DiffNode>, nodes: seq<CredentialNode>) {
    && |named| == |nodes|
    && forall k :: 0 <= k < |nodes| ==>
         named[k].signature == nodes[k].signature && Names(named[k].path, nodes[k].address)
  }

  lemma {:induction false} ListsJoin(a: seq<DiffNode>, x: seq<CredentialNode>, b: seq<DiffNode>, y: seq<CredentialNode>)
    requires Lists(a, x) && Lists(b, y)
    ensures Lists(a + b, x + y)
  {
  }

  lemma {:induction false} LevelLists(prefix: string, level: seq<DelegateNode>, depth: nat, i: nat)
    requires Nameable(level, depth) && i <= |level|
    ensures Lists(LevelNodes(prefix, level, depth, i), Flatten(level[i..]))
    decreases level, |level| - i
  {
    if i < |level| {
      var d, path := level[i], PathAt(prefix, level, i);
      LevelLists(path + ".nested", d.nested, depth + 1, 0);
      LevelLists(prefix, level, depth, i + 1);
      assert d.nested[0..] == d.nested && level[i..][1..] == level[i + 1..];
      assert path == Named(prefix, d.address, Occurrences(level, i, d.address) + 1);
      assert Names(path, d.address);
      var own := [CredentialNode(d.address, d.signature)];
      ListsJoin([DiffNode(path, d.signature)], own, LevelNodes(path + ".nested", d.nested, depth + 1, 0),
                Flatten(d.nested));
      ListsJoin(TreeNodes(path, d, depth), own + Flatten(d.nested), LevelNodes(prefix, level, depth, i + 1),
                Flatten(level[i + 1..]));
    }
  }

  /** The top-level node comes first, then every delegate at every depth, each path naming the node's address. */
  lemma {:induction false} PathsNameNodes(entry: Entry)
    requires entry.credentials.HasAddress() && NodesNameable(entry.credentials)
    ensures var named := NodesWithPaths(entry.credentials);
            && |named| > 0 && named[0] == DiffNode("credentials", entry.credentials.creds.signature)
            && Lists(named[1..], Nodes(entry)[1..])
  {
    if entry.credentials.WithDelegateTree? {
      var delegates := entry.credentials.delegates;
      LevelLists("credentials.delegates", delegates, 1, 0);
      assert delegates[0..] == delegates;
    }
  }
}
