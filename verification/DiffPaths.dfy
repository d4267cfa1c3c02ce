/**
 diff.go: the paths that name the signature-bearing nodes of an entry when two entries
 are compared, such as credentials.delegates[G...]#2.nested[C...].
 */
module DiffPaths {
  import opened Wrappers
  import opened Bytes
  import opened Xdr
  import opened Preimages
  import opened Text

  // ---------- Addresses as text ----------

  /** What base32 strkey text gives: distinct texts for distinct keys, and no brackets. */
  ghost predicate Readable(f: Strkey -> string) {
    && (forall s: Strkey, t: Strkey :: !s.Unusable? && !t.Unusable? && f(s) == f(t) ==> s == t)
    && (forall s: Strkey :: !s.Unusable? ==> ']' !in f(s))
  }

  function HexText(s: Strkey): string {
    match s
    case GKey(key) => "G" + Hex(key, true)
    case CKey(id) => "C" + Hex(id, true)
    case Unusable(text) => text
  }

  lemma {:induction false} HexHasNoBracket(data: seq<byte>)
    ensures ']' !in Hex(data, true)
  {
    if data != [] {
      HexHasNoBracket(data[1..]);
    }
  }

  lemma {:induction false} HexTextIsReadable()
    ensures Readable(HexText)
  {
    forall s: Strkey, t: Strkey | !s.Unusable? && !t.Unusable? && HexText(s) == HexText(t) ensures s == t {
      var x, y := if s.GKey? then s.key else s.id, if t.GKey? then t.key else t.id;
      assert HexText(s)[0] == HexText(t)[0];
      assert HexText(s)[1..] == Hex(x, true) && HexText(t)[1..] == Hex(y, true);
      HexBytesOfHex(x, true);
      HexBytesOfHex(y, true);
    }
    forall s: Strkey | !s.Unusable? ensures ']' !in HexText(s) {
      HexHasNoBracket(if s.GKey? then s.key else s.id);
    }
  }

  type Rendering = f: Strkey -> string | Readable(f) witness (HexTextIsReadable(); HexText)

  /** Strkey text. Any readable rendering is meant; `HexText` shows there is one. */
  const StrkeyText: Rendering

  predicate Formattable(a: ScAddress) {
    FormatAddress(a).Ok?
  }

  function AddressText(a: ScAddress): string
    requires Formattable(a)
  {
    StrkeyText(FormatAddress(a).value)
  }

  lemma {:induction false} AddressTextReadable(a: ScAddress, b: ScAddress)
    requires Formattable(a) && Formattable(b)
    ensures AddressText(a) == AddressText(b) <==> a == b
    ensures ']' !in AddressText(a)
  {
    assert Readable(StrkeyText);
    assert ParseAddress(FormatAddress(a).value) == Ok(a) && ParseAddress(FormatAddress(b).value) == Ok(b);
  }

  // ---------- Paths ----------

  datatype DiffNode = DiffNode(path: string, signature: ScVal)

  /** Every address at every level renders, and no level lies deeper than the limit. */
  predicate Nameable(level: seq<DelegateNode>, depth: nat)
    decreases level
  {
    && depth <= MAX_DEPTH
    && forall i | 0 <= i < |level| :: Formattable(level[i].address) && Nameable(level[i].nested, depth + 1)
  }

  /** How many of the first i delegates of a level have this address. */
  function Occurrences(level: seq<DelegateNode>, i: nat, a: ScAddress): (n: nat)
    requires i <= |level|
  {
    if i == 0 then 0 else Occurrences(level, i - 1, a) + if level[i - 1].address == a then 1 else 0
  }

  /** The n-th node of one address at a level: the first is bare, the others are numbered. */
  function Suffix(n: nat): string {
    if n > 1 then "#" + Decimal(n) else ""
  }

  function NodePath(prefix: string, a: ScAddress, n: nat): string
    requires Formattable(a)
  {
    prefix + "[" + AddressText(a) + "]" + Suffix(n)
  }

  /** The path of the i-th delegate of a level. */
  function PathAt(prefix: string, level: seq<DelegateNode>, i: nat): string
    requires i < |level| && Formattable(level[i].address)
  {
    NodePath(prefix, level[i].address, Occurrences(level, i, level[i].address) + 1)
  }

  /** A delegate at a path, followed by those nested in it. */
  function TreeNodes(path: string, d: DelegateNode, depth: nat): (nodes: seq<DiffNode>)
    requires Nameable(d.nested, depth + 1)
    decreases d
  {
    [DiffNode(path, d.signature)] + LevelNodes(path + ".nested", d.nested, depth + 1, 0)
  }

  /** The nodes of a level from the i-th delegate on. */
  function LevelNodes(prefix: string, level: seq<DelegateNode>, depth: nat, i: nat): (nodes: seq<DiffNode>)
    requires Nameable(level, depth) && i <= |level|
    decreases level, |level| - i
  {
    if i == |level| then []
    else TreeNodes(PathAt(prefix, level, i), level[i], depth) + LevelNodes(prefix, level, depth, i + 1)
  }

  const TOP: string := "credentials"

  predicate NodesNameable(c: Credentials) {
    c.WithDelegateTree? ==> Nameable(c.delegates, 1)
  }

  /** The nodes of an entry: the top-level one, then its delegates. A source-account entry has none. */
  function NodesWithPaths(c: Credentials): (nodes: seq<DiffNode>)
    requires NodesNameable(c)
  {
    if !c.HasAddress() then []
    else
      [DiffNode(TOP, c.creds.signature)]
      + if c.WithDelegateTree? then LevelNodes("credentials.delegates", c.delegates, 1, 0) else []
  }

  // ---------- Paths are unique ----------

  /** No two nodes of the list share a path. */
  ghost predicate DistinctPaths(nodes: seq<DiffNode>) {
    forall i, j :: 0 <= i < j < |nodes| ==> nodes[i].path != nodes[j].path
  }

  /** The node at `path`, or one nested in it. */
  predicate Within(p: string, path: string) {
    p == path || path + ".nested" <= p
  }

  lemma {:induction false} NotLonger(c: char, a: string, t: string, b: string, u: string)
    requires c !in b && (t == [] || t[0] == c) && a + t == b + u
    ensures |b| <= |a|
  {
    assert forall i :: 0 <= i < |b| ==> (b + u)[i] == b[i] && b[i] in b;
    assert t != [] ==> (a + t)[|a|] == c;
    assert |a + t| == |b + u|;
  }

  /** A separator that neither part contains cuts two equal texts at the same place. */
  lemma {:induction false} CutAt(c: char, a: string, t: string, b: string, u: string)
    requires c !in a && c !in b && (t == [] || t[0] == c) && (u == [] || u[0] == c)
    requires a + t == b + u
    ensures a == b && t == u
  {
    NotLonger(c, a, t, b, u);
    NotLonger(c, b, u, a, t);
    SplitEqual(a, t, b, u);
  }

  lemma {:induction false} SuffixPlain(n: nat)
    ensures '.' !in Suffix(n)
  {
    DecimalDigits(n);
  }

  lemma {:induction false} SuffixInjective(m: nat, n: nat)
    requires m > 0 && n > 0
    ensures Suffix(m) == Suffix(n) <==> m == n
  {
    DecimalInjective(m, n);
    if m > 1 && n > 1 && Suffix(m) == Suffix(n) {
      assert Suffix(m)[1..] == Decimal(m) && Suffix(n)[1..] == Decimal(n);
    }
  }

  /** What follows a node's own path: nothing, or the path of something nested. */
  lemma {:induction false} TailOf(p: string, path: string) returns (t: string)
    requires Within(p, path)
    ensures p == path + t && (t == [] || t[0] == '.')
  {
    t := p[|path|..];
    if p != path {
      assert p[|path|] == (path + ".nested")[|path|];
      assert path == (path + ".nested")[..|path|] == p[..|path|];
    }
  }

  lemma {:induction false} PathParts(prefix: string, a: ScAddress, n: nat, t: string)
    requires Formattable(a)
    ensures NodePath(prefix, a, n) + t == (prefix + "[") + (AddressText(a) + ("]" + (Suffix(n) + t)))
  {
  }

  /** Paths within nodes of different address or different number never meet. */
  lemma {:induction false} PathsApart(prefix: string, a: ScAddress, m: nat, b: ScAddress, n: nat, p: string)
    requires Formattable(a) && Formattable(b) && m > 0 && n > 0
    requires Within(p, NodePath(prefix, a, m)) && Within(p, NodePath(prefix, b, n))
    ensures a == b && m == n
  {
    var t := TailOf(p, NodePath(prefix, a, m));
    var u := TailOf(p, NodePath(prefix, b, n));
    PathParts(prefix, a, m, t);
    PathParts(prefix, b, n, u);
    AddressTextReadable(a, b);
    AddressTextReadable(b, a);
    var x, y := Suffix(m) + t, Suffix(n) + u;
    SplitEqual(prefix + "[", AddressText(a) + ("]" + x), prefix + "[", AddressText(b) + ("]" + y));
    CutAt(']', AddressText(a), "]" + x, AddressText(b), "]" + y);
    SplitEqual("]", x, "]", y);
    SuffixPlain(m);
    SuffixPlain(n);
    CutAt('.', Suffix(m), t, Suffix(n), u);
    SuffixInjective(m, n);
  }

  lemma {:induction false} OccurrencesGrow(level: seq<DelegateNode>, i: nat, j: nat, a: ScAddress)
    requires i <= j <= |level|
    ensures Occurrences(level, i, a) <= Occurrences(level, j, a)
    ensures i < j && level[i].address == a ==> Occurrences(level, i, a) < Occurrences(level, j, a)
  {
    if i < j {
      OccurrencesGrow(level, i, j - 1, a);
    }
  }

  lemma {:induction false} SiblingsApart(prefix: string, level: seq<DelegateNode>, i: nat, j: nat, p: string)
    requires i < j < |level| && Formattable(level[i].address) && Formattable(level[j].address)
    requires Within(p, PathAt(prefix, level, i))
    ensures !Within(p, PathAt(prefix, level, j))
  {
    var a, b := level[i].address, level[j].address;
    var m, n := Occurrences(level, i, a) + 1, Occurrences(level, j, b) + 1;
    if Within(p, PathAt(prefix, level, j)) {
      PathsApart(prefix, a, m, b, n, p);
      OccurrencesGrow(level, i, j, a);
      assert false;
    }
  }

  /** Each path from the i-th delegate on lies within one of those delegates. */
  lemma {:induction false} PlaceOf(prefix: string, level: seq<DelegateNode>, depth: nat, i: nat, node: DiffNode)
    returns (j: nat)
    requires Nameable(level, depth) && i <= |level| && node in LevelNodes(prefix, level, depth, i)
    ensures i <= j < |level| && Within(node.path, PathAt(prefix, level, j))
    decreases level, |level| - i, 0
  {
    if node in TreeNodes(PathAt(prefix, level, i), level[i], depth) {
      TreeWithin(PathAt(prefix, level, i), level[i], depth, node);
      j := i;
    } else {
      j := PlaceOf(prefix, level, depth, i + 1, node);
    }
  }

  /** Every path of a delegate's tree lies within the delegate's own; those nested are not that one. */
  lemma {:induction false} TreeWithin(path: string, d: DelegateNode, depth: nat, node: DiffNode)
    requires Nameable(d.nested, depth + 1) && node in TreeNodes(path, d, depth)
    ensures Within(node.path, path)
    ensures node in LevelNodes(path + ".nested", d.nested, depth + 1, 0) ==> node.path != path
    decreases d
  {
    if node in LevelNodes(path + ".nested", d.nested, depth + 1, 0) {
      PathsExtend(path + ".nested", d.nested, depth + 1, 0, node);
    }
  }

  /** Every path of a level is longer than the level's prefix, which it starts with. */
  lemma {:induction false} PathsExtend(prefix: string, level: seq<DelegateNode>, depth: nat, i: nat, node: DiffNode)
    requires Nameable(level, depth) && i <= |level| && node in LevelNodes(prefix, level, depth, i)
    ensures prefix <= node.path && |prefix| < |node.path|
    decreases level, |level| - i, 1
  {
    var j := PlaceOf(prefix, level, depth, i, node);
    var t := TailOf(node.path, PathAt(prefix, level, j));
    PathParts(prefix, level[j].address, Occurrences(level, j, level[j].address) + 1, t);
  }

  /** No node of one list shares a path with a node of the other. */
  ghost predicate PathsDisjoint(a: seq<DiffNode>, b: seq<DiffNode>) {
    forall x, y :: x in a && y in b ==> x.path != y.path
  }

  lemma {:induction false} DistinctJoin(a: seq<DiffNode>, b: seq<DiffNode>)
    requires DistinctPaths(a) && DistinctPaths(b) && PathsDisjoint(a, b)
    ensures DistinctPaths(a + b)
  {
    var nodes := a + b;
    forall i, j | 0 <= i < j < |nodes| ensures nodes[i].path != nodes[j].path {
      assert i < |a| ==> nodes[i] == a[i] && a[i] in a;
      assert j >= |a| ==> nodes[j] == b[j - |a|] && b[j - |a|] in b;
    }
  }

  lemma {:induction false} TreePathsDistinct(path: string, d: DelegateNode, depth: nat)
    requires Nameable(d.nested, depth + 1)
    ensures DistinctPaths(TreeNodes(path, d, depth))
    decreases d
  {
    var nested := LevelNodes(path + ".nested", d.nested, depth + 1, 0);
    LevelPathsDistinct(path + ".nested", d.nested, depth + 1, 0);
    forall y | y in nested ensures y.path != path {
      TreeWithin(path, d, depth, y);
    }
    DistinctJoin([DiffNode(path, d.signature)], nested);
  }

  /** Paths are unique at every level, repeated addresses included. */
  lemma {:induction false} LevelPathsDistinct(prefix: string, level: seq<DelegateNode>, depth: nat, i: nat)
    requires Nameable(level, depth) && i <= |level|
    ensures DistinctPaths(LevelNodes(prefix, level, depth, i))
    decreases level, |level| - i
  {
    if i < |level| {
      TreePathsDistinct(PathAt(prefix, level, i), level[i], depth);
      LevelPathsDistinct(prefix, level, depth, i + 1);
      LaterApart(prefix, level, depth, i);
      DistinctJoin(TreeNodes(PathAt(prefix, level, i), level[i], depth), LevelNodes(prefix, level, depth, i + 1));
    }
  }

  /** Nothing in a delegate's tree shares a path with anything after it. */
  lemma {:induction false} LaterApart(prefix: string, level: seq<DelegateNode>, depth: nat, i: nat)
    requires Nameable(level, depth) && i < |level|
    ensures PathsDisjoint(TreeNodes(PathAt(prefix, level, i), level[i], depth), LevelNodes(prefix, level, depth, i + 1))
  {
    var own := TreeNodes(PathAt(prefix, level, i), level[i], depth);
    var others := LevelNodes(prefix, level, depth, i + 1);
    forall x, y | x in own && y in others
      ensures x.path != y.path
    {
      TreeWithin(PathAt(prefix, level, i), level[i], depth, x);
      var j := PlaceOf(prefix, level, depth, i + 1, y);
      SiblingsApart(prefix, level, i, j, x.path);
    }
  }

  /** Every signature-bearing node of an entry has a path of its own. */
  lemma {:induction false} PathsAreUnique(c: Credentials)
    requires NodesNameable(c)
    ensures DistinctPaths(NodesWithPaths(c))
  {
    if c.WithDelegateTree? {
      var nodes := LevelNodes("credentials.delegates", c.delegates, 1, 0);
      LevelPathsDistinct("credentials.delegates", c.delegates, 1, 0);
      forall y | y in nodes ensures y.path != TOP {
        PathsExtend("credentials.delegates", c.delegates, 1, 0, y);
      }
      DistinctJoin([DiffNode(TOP, c.creds.signature)], nodes);
    }
  }

  // ---------- The walk ----------

  function Bare(prefix: string, a: ScAddress): string
    requires Formattable(a)
  {
    prefix + "[" + AddressText(a) + "]"
  }

  function Seen(seen: map<string, nat>, path: string): nat {
    if path in seen then seen[path] else 0
  }

  /** The counters hold how often each address has occurred so far. */
  ghost predicate Counts(seen: map<string, nat>, prefix: string, level: seq<DelegateNode>, i: nat)
    requires i <= |level|
  {
    forall a :: Formattable(a) ==> Seen(seen, Bare(prefix, a)) == Occurrences(level, i, a)
  }

  lemma {:induction false} BareInjective(prefix: string, a: ScAddress, b: ScAddress)
    requires Formattable(a) && Formattable(b)
    ensures Bare(prefix, a) == Bare(prefix, b) <==> a == b
  {
    AddressTextReadable(a, b);
    AddressTextReadable(b, a);
    if Bare(prefix, a) == Bare(prefix, b) {
      assert Bare(prefix, a) == (prefix + "[") + (AddressText(a) + "]");
      assert Bare(prefix, b) == (prefix + "[") + (AddressText(b) + "]");
      SplitEqual(prefix + "[", AddressText(a) + "]", prefix + "[", AddressText(b) + "]");
      CutAt(']', AddressText(a), "]", AddressText(b), "]");
    }
  }

  lemma {:induction false} CountsStep(seen: map<string, nat>, prefix: string, level: seq<DelegateNode>, i: nat)
    requires i < |level| && Formattable(level[i].address) && Counts(seen, prefix, level, i)
    ensures var bare := Bare(prefix, level[i].address);
            Counts(seen[bare := Seen(seen, bare) + 1], prefix, level, i + 1)
  {
    var bare := Bare(prefix, level[i].address);
    var next := seen[bare := Seen(seen, bare) + 1];
    forall a | Formattable(a) ensures Seen(next, Bare(prefix, a)) == Occurrences(level, i + 1, a) {
      BareInjective(prefix, a, level[i].address);
    }
  }

  /** The first i delegates have been walked, giving these nodes. */
  ghost predicate Walked(prefix: string, level: seq<DelegateNode>, depth: nat, i: nat, out: seq<DiffNode>) {
    && depth <= MAX_DEPTH && i <= |level|
    && (forall j :: 0 <= j < i ==> Formattable(level[j].address) && Nameable(level[j].nested, depth + 1))
    && (Nameable(level, depth) ==> LevelNodes(prefix, level, depth, 0) == out + LevelNodes(prefix, level, depth, i))
  }

  lemma {:induction false} WalkStep(prefix: string, level: seq<DelegateNode>, depth: nat, i: nat, out: seq<DiffNode>)
    requires i < |level| && Walked(prefix, level, depth, i, out)
    requires Formattable(level[i].address) && Nameable(level[i].nested, depth + 1)
    ensures Walked(prefix, level, depth, i + 1, out + TreeNodes(PathAt(prefix, level, i), level[i], depth))
  {
    var tree := TreeNodes(PathAt(prefix, level, i), level[i], depth);
    if Nameable(level, depth) {
      var others := LevelNodes(prefix, level, depth, i + 1);
      assert out + (tree + others) == out + tree + others;
    }
  }

  lemma {:induction false} NotNameable(level: seq<DelegateNode>, depth: nat, i: nat)
    requires i < |level| && !(Formattable(level[i].address) && Nameable(level[i].nested, depth + 1))
    ensures !Nameable(level, depth)
  {
  }

  lemma {:induction false} WalkEnds(prefix: string, level: seq<DelegateNode>, depth: nat, out: seq<DiffNode>)
    requires Walked(prefix, level, depth, |level|, out)
    ensures Nameable(level, depth) && out == LevelNodes(prefix, level, depth, 0)
  {
    assert out + [] == out;
  }

  /** diffNodesOf: it fails exactly on an address without a strkey form or below the depth limit. */
  method DiffNodesOf(prefix: string, delegates: seq<DelegateNode>, depth: nat) returns (r: Result<seq<DiffNode>, Error>)
    ensures r.Ok? <==> Nameable(delegates, depth)
    ensures r.Ok? ==> r.value == LevelNodes(prefix, delegates, depth, 0)
    decreases delegates
  {
    if depth > MAX_DEPTH { return Err(DecodeLimit); }
    var seen: map<string, nat>, out := map[], [];
    for i := 0 to |delegates|
      invariant Counts(seen, prefix, delegates, i) && Walked(prefix, delegates, depth, i, out)
    {
      var d := delegates[i];
      var address := FormatAddress(d.address);
      if address.Err? {
        NotNameable(delegates, depth, i);
        return Err(address.error);
      }
      var bare := prefix + "[" + StrkeyText(address.value) + "]";
      CountsStep(seen, prefix, delegates, i);
      var n := Seen(seen, bare) + 1;
      seen := seen[bare := n];
      var path := bare + Suffix(n);
      var nested := DiffNodesOf(path + ".nested", d.nested, depth + 1);
      if nested.Err? {
        NotNameable(delegates, depth, i);
        return Err(nested.error);
      }
      WalkStep(prefix, delegates, depth, i, out);
      out := out + ([DiffNode(path, d.signature)] + nested.value);
    }
    WalkEnds(prefix, delegates, depth, out);
    return Ok(out);
  }

  /** diffNodes. */
  method DiffNodes(c: Credentials) returns (r: Result<seq<DiffNode>, Error>)
    ensures r.Ok? <==> NodesNameable(c) && (c.HasAddress() || c.SourceAccount?)
    ensures r.Ok? ==> r.value == NodesWithPaths(c)
  {
    if c.SourceAccount? { return Ok([]); }
    var creds :- GetCredentials(c);
    var nodes := [DiffNode(TOP, creds.signature)];
    if c.WithDelegateTree? {
      var delegates := DiffNodesOf("credentials.delegates", c.delegates, 1);
      if delegates.Err? { return Err(delegates.error); }
      nodes := nodes + delegates.value;
    }
    return Ok(nodes);
  }
}
