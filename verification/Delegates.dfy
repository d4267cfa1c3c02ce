/**
 delegates.go: building a delegate tree from descriptors and wrapping an entry in it.

 `Build` is the specification; `BuildDelegateNodes` is the loop the library runs.
 */
module Delegates {
  import opened Wrappers
  import opened Bytes
  import opened Xdr
  import opened Preimages
  import opened Authorization

  /** A delegate as a caller describes it; a missing signature becomes the Void placeholder. */
  datatype Delegate = Delegate(address: Strkey, signature: Option<ScVal>, nested: seq<Delegate>)

  function Before(a: DelegateNode, b: DelegateNode): bool {
    Less(AddressBytes(a.address), AddressBytes(b.address))
  }

  /** One step of sorting a level: the node goes after every node that is not greater. */
  function Insert(sorted: seq<DelegateNode>, n: DelegateNode): (r: seq<DelegateNode>) {
    if sorted == [] then [n]
    else if Before(n, sorted[0]) then [n] + sorted
    else [sorted[0]] + Insert(sorted[1..], n)
  }

  function SortLevel(nodes: seq<DelegateNode>): (r: seq<DelegateNode>) {
    if nodes == [] then [] else Insert(SortLevel(nodes[..|nodes| - 1]), nodes[|nodes| - 1])
  }

  predicate Repeats(nodes: seq<DelegateNode>) {
    exists i, j | 0 <= i < j < |nodes| :: nodes[i].address == nodes[j].address
  }

  function BuildOne(d: Delegate, depth: nat): (r: Result<DelegateNode, Error>)
    decreases d, 0
  {
    var address :- ParseAddress(d.address);
    var nested :- Build(d.nested, depth + 1);
    Ok(DelegateNode(address, if d.signature.Some? then d.signature.value else Void, nested))
  }

  function BuildEach(delegates: seq<Delegate>, depth: nat): (r: Result<seq<DelegateNode>, Error>)
    decreases delegates, 0
  {
    if delegates == [] then Ok([])
    else
      var init :- BuildEach(delegates[..|delegates| - 1], depth);
      var last :- BuildOne(delegates[|delegates| - 1], depth);
      Ok(init + [last])
  }

  function Build(delegates: seq<Delegate>, depth: nat): (r: Result<seq<DelegateNode>, Error>)
    decreases delegates, 1
  {
    if depth > MAX_DEPTH then Err(DecodeLimit)
    else
      var built :- BuildEach(delegates, depth);
      if Repeats(built) then Err(DuplicateDelegate) else Ok(SortLevel(built))
  }

  // ---------- Sorting ----------

  lemma {:induction false} InsertMembers(sorted: seq<DelegateNode>, n: DelegateNode)
    ensures forall x :: x in Insert(sorted, n) <==> x in sorted || x == n
  {
    if sorted != [] && !Before(n, sorted[0]) {
      InsertMembers(sorted[1..], n);
      assert sorted == [sorted[0]] + sorted[1..];
    }
  }

  /** Ascending order that admits equal neighbours, which is all a sort promises. */
  predicate NonDescending(nodes: seq<DelegateNode>) {
    forall i, j :: 0 <= i < j < |nodes| ==> nodes[i].address == nodes[j].address || Before(nodes[i], nodes[j])
  }

  lemma {:induction false} NonDescendingCons(first: DelegateNode, rest: seq<DelegateNode>)
    requires NonDescending(rest)
    requires forall x :: x in rest ==> first.address == x.address || Before(first, x)
    ensures NonDescending([first] + rest)
  {
    var s := [first] + rest;
    forall i, j | 0 <= i < j < |s| ensures s[i].address == s[j].address || Before(s[i], s[j]) {
      assert s[j] == rest[j - 1];
      if i > 0 {
        assert s[i] == rest[i - 1];
      }
    }
  }

  lemma {:induction false} InsertNonDescending(sorted: seq<DelegateNode>, n: DelegateNode)
    requires NonDescending(sorted)
    ensures NonDescending(Insert(sorted, n))
  {
    if sorted != [] {
      var first, rest := sorted[0], sorted[1..];
      if Before(n, first) {
        forall x | x in sorted ensures Before(n, x) {
          var k :| 0 <= k < |sorted| && sorted[k] == x;
          if k > 0 && first.address != x.address {
            LessTransitive(AddressBytes(n.address), AddressBytes(first.address), AddressBytes(x.address));
          }
        }
        NonDescendingCons(n, sorted);
      } else {
        assert forall k :: 0 <= k < |rest| ==> rest[k] == sorted[k + 1];
        InsertNonDescending(rest, n);
        InsertMembers(rest, n);
        AddressBytesInjective(first.address, n.address);
        LessTotal(AddressBytes(first.address), AddressBytes(n.address));
        NonDescendingCons(first, Insert(rest, n));
      }
    }
  }

  /** Some node of a level has the given address. */
  predicate Mentioned(nodes: seq<DelegateNode>, a: ScAddress) {
    exists x | x in nodes :: x.address == a
  }

  lemma {:induction false} RepeatsCons(first: DelegateNode, rest: seq<DelegateNode>)
    ensures Repeats([first] + rest) <==> Mentioned(rest, first.address) || Repeats(rest)
  {
    var s := [first] + rest;
    if Repeats(s) {
      var i, j :| 0 <= i < j < |s| && s[i].address == s[j].address;
      assert s[j] == rest[j - 1] && rest[j - 1] in rest;
      if i > 0 {
        assert rest[i - 1].address == rest[j - 1].address;
      }
    }
    if Mentioned(rest, first.address) {
      var k :| 0 <= k < |rest| && rest[k].address == first.address;
      assert s[0].address == s[k + 1].address;
    }
    if Repeats(rest) {
      var i, j :| 0 <= i < j < |rest| && rest[i].address == rest[j].address;
      assert s[i + 1].address == s[j + 1].address;
    }
  }

  lemma {:induction false} InsertRepeats(sorted: seq<DelegateNode>, n: DelegateNode)
    ensures Repeats(Insert(sorted, n)) <==> Mentioned(sorted, n.address) || Repeats(sorted)
  {
    if sorted == [] {
    } else if Before(n, sorted[0]) {
      RepeatsCons(n, sorted);
    } else {
      var first, rest := sorted[0], sorted[1..];
      assert sorted == [first] + rest;
      InsertRepeats(rest, n);
      InsertMembers(rest, n);
      RepeatsCons(first, rest);
      RepeatsCons(first, Insert(rest, n));
      assert Mentioned(sorted, n.address) <==> first.address == n.address || Mentioned(rest, n.address);
      assert Mentioned(Insert(rest, n), first.address)
          <==> Mentioned(rest, first.address) || n.address == first.address;
    }
  }

  lemma {:induction false} RepeatsSnoc(init: seq<DelegateNode>, last: DelegateNode)
    ensures Repeats(init + [last]) <==> Mentioned(init, last.address) || Repeats(init)
  {
    var s := init + [last];
    if Repeats(s) {
      var i, j :| 0 <= i < j < |s| && s[i].address == s[j].address;
      assert init[i] in init;
      if j < |init| {
        assert init[i].address == init[j].address;
      }
    }
    if Mentioned(init, last.address) {
      var k :| 0 <= k < |init| && init[k].address == last.address;
      assert s[k].address == s[|init|].address;
    }
    if Repeats(init) {
      var i, j :| 0 <= i < j < |init| && init[i].address == init[j].address;
      assert s[i].address == s[j].address;
    }
  }

  lemma {:induction false} SortMembers(nodes: seq<DelegateNode>)
    ensures forall x :: x in SortLevel(nodes) <==> x in nodes
  {
    if nodes != [] {
      var init, last := nodes[..|nodes| - 1], nodes[|nodes| - 1];
      SortMembers(init);
      InsertMembers(SortLevel(init), last);
      assert nodes == init + [last];
    }
  }

  lemma {:induction false} InsertPermutes(sorted: seq<DelegateNode>, n: DelegateNode)
    ensures multiset(Insert(sorted, n)) == multiset(sorted) + multiset{n}
  {
    if sorted != [] {
      assert sorted == [sorted[0]] + sorted[1..];
      InsertPermutes(sorted[1..], n);
    }
  }

  /** A level is sorted into a permutation of itself, which neither loses nor invents a repeated address. */
  lemma {:induction false} SortOutcome(nodes: seq<DelegateNode>)
    ensures multiset(SortLevel(nodes)) == multiset(nodes)
    ensures NonDescending(SortLevel(nodes))
    ensures Repeats(SortLevel(nodes)) <==> Repeats(nodes)
  {
    if nodes != [] {
      var init, last := nodes[..|nodes| - 1], nodes[|nodes| - 1];
      assert nodes == init + [last];
      SortOutcome(init);
      SortMembers(init);
      InsertPermutes(SortLevel(init), last);
      InsertNonDescending(SortLevel(init), last);
      InsertRepeats(SortLevel(init), last);
      RepeatsSnoc(init, last);
    }
  }

  lemma {:induction false} SortAscending(nodes: seq<DelegateNode>)
    requires !Repeats(nodes)
    ensures Ascending(SortLevel(nodes))
  {
    SortOutcome(nodes);
  }

  /** Two ascending levels with the same nodes are one sequence: sorting has a single outcome. */
  lemma {:induction false} AscendingUnique(x: seq<DelegateNode>, y: seq<DelegateNode>)
    requires Ascending(x) && Ascending(y)
    requires forall n :: n in x <==> n in y
    ensures x == y
  {
    assert x != [] ==> x[0] in y;
    assert y != [] ==> y[0] in x;
    if x != [] {
      FirstIsLeast(x, y);
      FirstIsLeast(y, x);
      AscendingHeads(x[0], y[0]);
      assert x == [x[0]] + x[1..] && y == [y[0]] + y[1..];
      AscendingCons(x);
      AscendingCons(y);
      HeadNotInTail(x);
      HeadNotInTail(y);
      forall n ensures n in x[1..] <==> n in y[1..] {
        assert n in x <==> n == x[0] || n in x[1..];
        assert n in y <==> n == y[0] || n in y[1..];
      }
      AscendingUnique(x[1..], y[1..]);
    }
  }

  lemma {:induction false} FirstIsLeast(x: seq<DelegateNode>, y: seq<DelegateNode>)
    requires Ascending(x) && x != [] && y != []
    requires forall n :: n in y ==> n in x
    ensures x[0] == y[0] || Before(x[0], y[0])
  {
    assert y[0] in x;
    var k :| 0 <= k < |x| && x[k] == y[0];
  }

  lemma {:induction false} AscendingHeads(a: DelegateNode, b: DelegateNode)
    requires a == b || Before(a, b)
    requires a == b || Before(b, a)
    ensures a == b
  {
    if a != b {
      LessTransitive(AddressBytes(a.address), AddressBytes(b.address), AddressBytes(a.address));
      LessIrreflexive(AddressBytes(a.address));
    }
  }

  lemma {:induction false} HeadNotInTail(x: seq<DelegateNode>)
    requires Ascending(x) && x != []
    ensures x[0] !in x[1..]
  {
    LessIrreflexive(AddressBytes(x[0].address));
    forall k | 1 <= k < |x| ensures x[k] != x[0] {
    }
  }

  // ---------- What a build accepts and returns ----------

  /** Everything a build can object to: depth, an address that does not parse, a repeat within one level. */
  predicate Buildable(delegates: seq<Delegate>, depth: nat)
    decreases delegates
  {
    depth <= MAX_DEPTH
    && (forall d | d in delegates :: ParseAddress(d.address).Ok? && Buildable(d.nested, depth + 1))
    && (forall i, j | 0 <= i < j < |delegates| :: delegates[i].address != delegates[j].address)
  }

  /** On success, node k of the unsorted level is the build of descriptor k. */
  lemma {:induction false} BuildEachAt(delegates: seq<Delegate>, depth: nat)
    ensures BuildEach(delegates, depth).Ok? <==> forall d :: d in delegates ==> BuildOne(d, depth).Ok?
    ensures var r := BuildEach(delegates, depth);
            r.Ok? ==> |r.value| == |delegates|
                      && forall k :: 0 <= k < |delegates| ==> BuildOne(delegates[k], depth) == Ok(r.value[k])
  {
    if delegates != [] {
      var init, last := delegates[..|delegates| - 1], delegates[|delegates| - 1];
      BuildEachAt(init, depth);
      BuildEachLast(delegates, depth);
      assert forall d :: d in delegates <==> d in init || d == last;
    }
  }

  lemma {:induction false} BuildEachLast(delegates: seq<Delegate>, depth: nat)
    requires delegates != []
    ensures var n := |delegates| - 1;
            var all, init := BuildEach(delegates, depth), BuildEach(delegates[..n], depth);
            var last := BuildOne(delegates[n], depth);
            (all.Ok? <==> init.Ok? && last.Ok?) && (all.Ok? ==> all.value == init.value + [last.value])
  {
  }

  /**
   A build fails for the three documented reasons and no other, and what it returns is
   in strictly ascending order at every level, so it passes the validation.
   */
  lemma {:induction false} BuildAccepts(delegates: seq<Delegate>, depth: nat)
    ensures Build(delegates, depth).Ok? <==> Buildable(delegates, depth)
    ensures Build(delegates, depth).Ok? ==> Ordered(Build(delegates, depth).value, depth)
    decreases delegates
  {
    if depth <= MAX_DEPTH {
      BuildEachAt(delegates, depth);
      forall d | d in delegates
        ensures BuildOne(d, depth).Ok? <==> ParseAddress(d.address).Ok? && Buildable(d.nested, depth + 1)
        ensures BuildOne(d, depth).Ok? ==> Ordered(BuildOne(d, depth).value.nested, depth + 1)
      {
        BuildAccepts(d.nested, depth + 1);
      }
      var built := BuildEach(delegates, depth);
      if built.Ok? {
        RepeatsTransfer(delegates, built.value, depth);
        if !Repeats(built.value) {
          SortAscending(built.value);
          SortMembers(built.value);
          forall n | n in SortLevel(built.value) ensures Ordered(n.nested, depth + 1) {
            var k :| 0 <= k < |built.value| && built.value[k] == n;
            assert delegates[k] in delegates;
          }
        }
      }
    }
  }

  lemma {:induction false} RepeatsTransfer(delegates: seq<Delegate>, built: seq<DelegateNode>, depth: nat)
    requires |built| == |delegates|
    requires forall k :: 0 <= k < |delegates| ==> BuildOne(delegates[k], depth) == Ok(built[k])
    ensures Repeats(built) <==> exists i, j :: 0 <= i < j < |delegates| && delegates[i].address == delegates[j].address
  {
    forall i, j | 0 <= i < j < |delegates|
      ensures built[i].address == built[j].address <==> delegates[i].address == delegates[j].address
    {
      assert BuildOne(delegates[i], depth).Ok? && BuildOne(delegates[j], depth).Ok?;
    }
  }

  /** One node per descriptor, at its address, with its signature or Void, and realizing its nested descriptors. */
  ghost predicate Realizes(delegates: seq<Delegate>, nodes: seq<DelegateNode>)
    decreases delegates, 1
  {
    |nodes| == |delegates| && forall d :: d in delegates ==> exists n :: n in nodes && RealizedBy(d, n)
  }

  ghost predicate RealizedBy(d: Delegate, n: DelegateNode)
    decreases d, 0
  {
    && ParseAddress(d.address) == Ok(n.address) && Realizes(d.nested, n.nested)
    && n.signature == if d.signature.Some? then d.signature.value else Void
  }

  /** A built tree realizes its descriptors; its addresses differ within a level, so the match is one to one. */
  lemma {:induction false} BuildRealizes(delegates: seq<Delegate>, depth: nat)
    requires Build(delegates, depth).Ok?
    ensures Realizes(delegates, Build(delegates, depth).value)
    decreases delegates
  {
    BuildFinds(delegates, depth);
    forall d | d in delegates ensures exists n :: n in Build(delegates, depth).value && RealizedBy(d, n) {
      BuildRealizes(d.nested, depth + 1);
      assert RealizedBy(d, BuildOne(d, depth).value);
    }
  }

  /** Sorting a level keeps the node built for each descriptor. */
  lemma {:induction false} BuildFinds(delegates: seq<Delegate>, depth: nat)
    requires Build(delegates, depth).Ok?
    ensures |Build(delegates, depth).value| == |delegates|
    ensures forall d :: d in delegates ==>
                          BuildOne(d, depth).Ok? && BuildOne(d, depth).value in Build(delegates, depth).value
  {
    BuildEachAt(delegates, depth);
    var built := BuildEach(delegates, depth).value;
    SortMembers(built);
    SortOutcome(built);
    assert |multiset(SortLevel(built))| == |multiset(built)|;
    forall d | d in delegates ensures BuildOne(d, depth).Ok? && BuildOne(d, depth).value in built {
      var k :| 0 <= k < |delegates| && delegates[k] == d;
      assert built[k] in built;
    }
  }

  // ---------- The normal form ----------

  /** A rearrangement of the indices below n. */
  ghost predicate Permutation(p: seq<nat>, n: nat) {
    |p| == n
    && (forall i :: 0 <= i < n ==> p[i] < n)
    && (forall i, j :: 0 <= i < j < n ==> p[i] != p[j])
    && (forall k: nat :: k < n ==> k in p)
  }

  /** The same descriptors in some other order, at this level and at every level below. */
  ghost predicate Reordered(a: seq<Delegate>, b: seq<Delegate>)
    decreases a, 1
  {
    exists p :: ReorderedBy(a, b, p)
  }

  ghost predicate ReorderedBy(a: seq<Delegate>, b: seq<Delegate>, p: seq<nat>)
    decreases a, 0
  {
    |a| == |b| && Permutation(p, |a|)
    && forall i :: 0 <= i < |a| ==>
         a[i].address == b[p[i]].address && a[i].signature == b[p[i]].signature
         && Reordered(a[i].nested, b[p[i]].nested)
  }

  /** Writing the descriptors of a tree in another order, at any level, builds the same tree or fails alike. */
  lemma {:induction false} BuildIsNormalForm(a: seq<Delegate>, b: seq<Delegate>, depth: nat)
    requires Reordered(a, b)
    ensures Build(a, depth).Ok? <==> Build(b, depth).Ok?
    ensures Build(a, depth).Ok? ==> Build(a, depth) == Build(b, depth)
    decreases a
  {
    var p :| ReorderedBy(a, b, p);
    if depth <= MAX_DEPTH {
      BuildEachAt(a, depth);
      BuildEachAt(b, depth);
      forall i | 0 <= i < |a|
        ensures BuildOne(a[i], depth).Ok? <==> BuildOne(b[p[i]], depth).Ok?
        ensures BuildOne(a[i], depth).Ok? ==> BuildOne(a[i], depth) == BuildOne(b[p[i]], depth)
      {
        BuildIsNormalForm(a[i].nested, b[p[i]].nested, depth + 1);
      }
      SameBuilds(a, b, p, depth);
      if BuildEach(a, depth).Ok? {
        var x, y := BuildEach(a, depth).value, BuildEach(b, depth).value;
        SameMembers(x, y, p);
        if !Repeats(x) {
          SortAscending(x);
          SortAscending(y);
          SortMembers(x);
          SortMembers(y);
          AscendingUnique(SortLevel(x), SortLevel(y));
        }
      }
    }
  }

  lemma {:induction false} SameBuilds(a: seq<Delegate>, b: seq<Delegate>, p: seq<nat>, depth: nat)
    requires |a| == |b| && Permutation(p, |a|)
    requires forall i :: 0 <= i < |a| ==> (BuildOne(a[i], depth).Ok? <==> BuildOne(b[p[i]], depth).Ok?)
    ensures (forall d :: d in a ==> BuildOne(d, depth).Ok?) <==> (forall d :: d in b ==> BuildOne(d, depth).Ok?)
  {
    if forall d :: d in a ==> BuildOne(d, depth).Ok? {
      forall d | d in b ensures BuildOne(d, depth).Ok? {
        var k: nat :| k < |b| && b[k] == d;
        assert k in p;
        var i :| 0 <= i < |p| && p[i] == k;
        assert a[i] in a;
      }
    }
    if forall d :: d in b ==> BuildOne(d, depth).Ok? {
      forall d | d in a ensures BuildOne(d, depth).Ok? {
        var i :| 0 <= i < |a| && a[i] == d;
        assert b[p[i]] in b;
      }
    }
  }

  lemma {:induction false} SameMembers(x: seq<DelegateNode>, y: seq<DelegateNode>, p: seq<nat>)
    requires |x| == |y| && Permutation(p, |x|)
    requires forall i :: 0 <= i < |x| ==> x[i] == y[p[i]]
    ensures forall n :: n in x <==> n in y
    ensures Repeats(x) <==> Repeats(y)
  {
    forall n | n in y ensures n in x {
      var k: nat :| k < |y| && y[k] == n;
      assert k in p;
      var i :| 0 <= i < |p| && p[i] == k;
      assert x[i] == n;
    }
    if Repeats(x) {
      var i, j :| 0 <= i < j < |x| && x[i].address == x[j].address;
      assert p[i] != p[j];
      if p[i] < p[j] {
        assert y[p[i]].address == y[p[j]].address;
      } else {
        assert y[p[j]].address == y[p[i]].address;
      }
    }
    if Repeats(y) {
      var k: nat, l: nat :| k < l < |y| && y[k].address == y[l].address;
      assert k in p && l in p;
      var i :| 0 <= i < |p| && p[i] == k;
      var j :| 0 <= j < |p| && p[j] == l;
      assert x[i].address == x[j].address;
      if i < j {
        assert x[i].address == x[j].address;
      } else {
        assert x[j].address == x[i].address;
      }
    }
  }

  // ---------- The loop, and wrapping an entry ----------

  /** sortDelegateLevel: sort one level, then compare neighbours. */
  method SortDelegateLevel(nodes: seq<DelegateNode>) returns (r: Result<seq<DelegateNode>, Error>)
    ensures r == if Repeats(nodes) then Err(DuplicateDelegate) else Ok(SortLevel(nodes))
  {
    var sorted := [];
    for i := 0 to |nodes|
      invariant sorted == SortLevel(nodes[..i])
    {
      assert nodes[..i + 1][..i] == nodes[..i];
      sorted := Insert(sorted, nodes[i]);
    }
    assert nodes[..|nodes|] == nodes;
    SortOutcome(nodes);
    var i := 1;
    while i < |sorted|
      invariant 1 <= i
      invariant forall k :: 1 <= k < i && k < |sorted| ==> sorted[k - 1].address != sorted[k].address
    {
      if sorted[i - 1].address == sorted[i].address {
        return Err(DuplicateDelegate);
      }
      i := i + 1;
    }
    DistinctNeighbours(sorted);
    return Ok(sorted);
  }

  /** In a sorted level, distinct neighbours leave no repeat anywhere. */
  lemma {:induction false} DistinctNeighbours(sorted: seq<DelegateNode>)
    requires NonDescending(sorted)
    requires forall k :: 1 <= k < |sorted| ==> sorted[k - 1].address != sorted[k].address
    ensures !Repeats(sorted)
  {
    if Repeats(sorted) {
      var i, j :| 0 <= i < j < |sorted| && sorted[i].address == sorted[j].address;
      assert Before(sorted[j - 1], sorted[j]);
      if i < j - 1 && sorted[i].address != sorted[j - 1].address {
        LessTransitive(AddressBytes(sorted[i].address), AddressBytes(sorted[j - 1].address),
                       AddressBytes(sorted[j].address));
      }
      LessIrreflexive(AddressBytes(sorted[i].address));
      assert false;
    }
  }

  /** buildDelegateNodes, one level at a time. */
  method BuildDelegateNodes(delegates: seq<Delegate>, depth: nat) returns (r: Result<seq<DelegateNode>, Error>)
    ensures r == Build(delegates, depth)
    decreases delegates
  {
    if depth > MAX_DEPTH {
      return Err(DecodeLimit);
    }
    if |delegates| == 0 {
      return Ok([]);
    }
    var built := [];
    for i := 0 to |delegates|
      invariant BuildEach(delegates[..i], depth) == Ok(built)
    {
      var d := delegates[i];
      assert delegates[..i + 1][..i] == delegates[..i];
      var address := ParseAddress(d.address);
      if address.Err? {
        BuildEachFails(delegates, i, depth);
        return Err(address.error);
      }
      var nested := BuildDelegateNodes(d.nested, depth + 1);
      if nested.Err? {
        BuildEachFails(delegates, i, depth);
        return Err(nested.error);
      }
      built := built + [DelegateNode(address.value, if d.signature.Some? then d.signature.value else Void,
                                     nested.value)];
    }
    assert delegates[..|delegates|] == delegates;
    r := SortDelegateLevel(built);
  }

  /** The first descriptor that does not build decides the error. */
  lemma {:induction false} BuildEachFails(delegates: seq<Delegate>, i: nat, depth: nat)
    requires i < |delegates| && BuildEach(delegates[..i], depth).Ok? && BuildOne(delegates[i], depth).Err?
    ensures BuildEach(delegates, depth) == Err(BuildOne(delegates[i], depth).error)
  {
    if i + 1 < |delegates| {
      var init := delegates[..|delegates| - 1];
      assert init[..i] == delegates[..i];
      BuildEachFails(init, i, depth);
    }
  }

  /** WithDelegates. `topSignature` is the account's own signature, Void when absent. */
  function WithDelegates(entry: Entry, expiration: u32, delegates: seq<Delegate>, topSignature: Option<ScVal>):
    (r: Result<Entry, Error>)
  {
    match entry.credentials
    case SourceAccount => Err(UnsupportedCredentials)
    case WithDelegateTree(_, _) => Err(UnsupportedCredentials)
    case UnknownType => Err(UnsupportedCredentials)
    case _ =>
      var creds :- GetCredentials(entry.credentials);
      if expiration == 0 then Err(InvalidExpiration)
      else if IsSigned(creds.signature) then Err(AlreadySigned)
      else
        var nodes :- Build(delegates, 1);
        var signature := if topSignature.Some? then topSignature.value else Void;
        Ok(Entry(WithDelegateTree(AddressCredentials(creds.address, creds.nonce, expiration, signature), nodes),
                 entry.root))
  }

  /**
   Wrapping succeeds exactly on an unsigned legacy or V2 entry with a non-zero expiration and a
   buildable tree. It keeps address, nonce and invocation, the tree realizes the descriptors, and
   AuthorizeEntry's own order check accepts it.
   */
  lemma {:induction false} WithDelegatesOutcome(entry: Entry, expiration: u32, delegates: seq<Delegate>,
                                                topSignature: Option<ScVal>)
    ensures WithDelegates(entry, expiration, delegates, topSignature).Ok?
            <==> && (entry.credentials.Legacy? || entry.credentials.V2?) && expiration != 0
                 && !IsSigned(entry.credentials.creds.signature) && Buildable(delegates, 1)
    ensures WithDelegates(entry, expiration, delegates, topSignature).Ok? ==>
              var wrapped := WithDelegates(entry, expiration, delegates, topSignature).value;
              && wrapped.credentials.WithDelegateTree? && wrapped.root == entry.root
              && wrapped.credentials.creds.address == entry.credentials.creds.address
              && wrapped.credentials.creds.nonce == entry.credentials.creds.nonce
              && wrapped.credentials.creds.expiration == expiration
              && wrapped.credentials.creds.signature == (if topSignature.Some? then topSignature.value else Void)
              && CheckOrder(wrapped.credentials).Ok? && Realizes(delegates, wrapped.credentials.delegates)
  {
    BuildAccepts(delegates, 1);
    if Build(delegates, 1).Ok? {
      BuildRealizes(delegates, 1);
      ValidateAcceptsOrdered(Build(delegates, 1).value, 1);
    }
  }

  /** upgrade.go: UpgradeToV2. */
  function UpgradeToV2(entry: Entry): (r: Result<Entry, Error>)
    ensures r.Ok?
            <==> entry.credentials.V2?
                 || (entry.credentials.Legacy? && !IsSigned(entry.credentials.creds.signature))
    ensures r.Ok? ==> r.value == Entry(V2(entry.credentials.creds), entry.root)
  {
    match entry.credentials
    case V2(_) => Ok(entry)
    case Legacy(creds) =>
      if IsSigned(creds.signature) then Err(AlreadySigned) else Ok(Entry(V2(creds), entry.root))
    case EmptyAddressArm => Err(EmptyArm)
    case _ => Err(UnsupportedCredentials)
  }
}