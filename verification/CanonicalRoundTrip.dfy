/**
 What the canonical codec of canonical.go keeps: which entries encode, and which come back.

 `Height` measures nesting on the value itself, without a counter. Encoder and decoder are
 each shown to refuse exactly where counter plus height passes the limit.
 */
module CanonicalRoundTrip {
  import opened Wrappers
  import opened Bytes
  import opened Xdr
  import opened Canonical
  import Text

  function Max(a: nat, b: nat): nat {
    if a < b then b else a
  }

  // ---------- Heights ----------

  /** How many levels of vectors, maps and instances with members lie below a value. */
  function Height(v: ScVal): nat
    decreases v
  {
    match v
    case Vec(Items(vals)) => if vals == [] then 0 else 1 + HeightOfVals(vals)
    case Map(Entries(pairs)) => if pairs == [] then 0 else 1 + HeightOfEntries(pairs)
    case ContractInstance(_, storage) => HeightOfMap(storage)
    case _ => 0
  }

  function HeightOfVals(vs: seq<ScVal>): nat
    decreases vs
  {
    if vs == [] then 0 else Max(Height(vs[0]), HeightOfVals(vs[1..]))
  }

  function HeightOfEntry(e: MapEntry): nat
    decreases e
  {
    Max(Height(e.key), Height(e.val))
  }

  function HeightOfEntries(es: seq<MapEntry>): nat
    decreases es
  {
    if es == [] then 0 else Max(HeightOfEntry(es[0]), HeightOfEntries(es[1..]))
  }

  function HeightOfMap(m: ScMap): nat
    decreases m
  {
    match m
    case NilMap => 0
    case Entries(pairs) => if pairs == [] then 0 else 1 + HeightOfEntries(pairs)
  }

  function HeightOfArgs(args: seq<ScVal>): nat {
    if args == [] then 0 else 2 + HeightOfVals(args)
  }

  function HeightOfFunction(f: AuthorizedFunction): nat {
    match f
    case ContractFn(_, _, args) => HeightOfArgs(args)
    case CreateContract(_, _) => 0
    case CreateContractV2(_, _, args) => HeightOfArgs(args)
  }

  function HeightOfInvocation(i: Invocation): nat
    decreases i
  {
    Max(HeightOfFunction(i.function_), HeightOfSubs(i.subs))
  }

  function HeightOfSubs(subs: seq<Invocation>): nat
    decreases subs
  {
    if subs == [] then 0 else Max(1 + HeightOfInvocation(subs[0]), HeightOfSubs(subs[1..]))
  }

  /** A list of delegates counts even when it is empty, so a leaf delegate already adds one level. */
  function HeightOfDelegate(n: DelegateNode): nat
    decreases n
  {
    1 + Max(Height(n.signature), HeightOfDelegates(n.nested))
  }

  function HeightOfDelegates(nodes: seq<DelegateNode>): nat
    decreases nodes
  {
    if nodes == [] then 0 else Max(HeightOfDelegate(nodes[0]), HeightOfDelegates(nodes[1..]))
  }

  function HeightOfCredentials(c: Credentials): nat {
    if !c.HasAddress() then 0
    else Max(1 + Height(c.creds.signature), if c.WithDelegateTree? then 1 + HeightOfDelegates(c.delegates) else 0)
  }

  // ---------- Zero-length bytes ----------

  /** No `bytes` value inside is empty. */
  predicate Full(v: ScVal)
    decreases v
  {
    match v
    case Bytes(b) => b != []
    case Vec(Items(vals)) => FullVals(vals)
    case Map(Entries(pairs)) => FullEntries(pairs)
    case ContractInstance(_, storage) => FullMap(storage)
    case _ => true
  }

  predicate FullVals(vs: seq<ScVal>)
    decreases vs
  {
    vs == [] || (Full(vs[0]) && FullVals(vs[1..]))
  }

  predicate FullEntry(e: MapEntry)
    decreases e
  {
    Full(e.key) && Full(e.val)
  }

  predicate FullEntries(es: seq<MapEntry>)
    decreases es
  {
    es == [] || (FullEntry(es[0]) && FullEntries(es[1..]))
  }

  predicate FullMap(m: ScMap)
    decreases m
  {
    match m
    case NilMap => true
    case Entries(pairs) => FullEntries(pairs)
  }

  predicate FullFunction(f: AuthorizedFunction) {
    match f
    case ContractFn(_, _, args) => FullVals(args)
    case CreateContract(_, _) => true
    case CreateContractV2(_, _, args) => FullVals(args)
  }

  predicate FullInvocation(i: Invocation)
    decreases i
  {
    FullFunction(i.function_) && FullSubs(i.subs)
  }

  predicate FullSubs(subs: seq<Invocation>)
    decreases subs
  {
    subs == [] || (FullInvocation(subs[0]) && FullSubs(subs[1..]))
  }

  predicate FullDelegate(n: DelegateNode)
    decreases n
  {
    Full(n.signature) && FullDelegates(n.nested)
  }

  predicate FullDelegates(nodes: seq<DelegateNode>)
    decreases nodes
  {
    nodes == [] || (FullDelegate(nodes[0]) && FullDelegates(nodes[1..]))
  }

  predicate FullCredentials(c: Credentials) {
    c.HasAddress() ==> Full(c.creds.signature) && (c.WithDelegateTree? ==> FullDelegates(c.delegates))
  }

  /** No value anywhere in the entry is a zero-length `bytes`. */
  predicate FullEntryOf(e: Entry) {
    FullCredentials(e.credentials) && FullInvocation(e.root)
  }

  // ---------- Values ----------

  /** A decoder result is the original exactly when the condition holds, and otherwise a refusal. */
  ghost predicate Returns<T>(r: Result<T, Fault>, original: T, condition: bool) {
    if condition then r == Ok(original) else r.Err?
  }

  lemma {:induction false} Uint64Back(n: u64)
    ensures DecodeU64(Text.Decimal(n)) == Ok(n)
  {
    Text.Uint64RoundTrip(n);
  }

  lemma {:induction false} Int64Back(n: i64)
    ensures DecodeI64(Text.SignedDecimal(n)) == Ok(n)
  {
    Text.Int64RoundTrip(n);
  }

  ghost predicate NumberReturns(v: ScVal)
    requires IsNumber(v)
  {
    var c := EncodeNumber(v);
    |c.fields| == 1 && DecodeNumber(c.kind, c.fields[0]) == Ok(v)
  }

  lemma {:induction false} ShortNumberBack(v: ScVal)
    requires v.U64? || v.I64? || v.Timepoint? || v.Duration?
    ensures NumberReturns(v)
  {
    match v
    case U64(n) => Uint64Back(n);
    case I64(n) => Int64Back(n);
    case Timepoint(n) => Uint64Back(n);
    case Duration(n) => Uint64Back(n);
  }

  lemma {:induction false} U128Parts(hi: u64, lo: u64)
    ensures DecodeU128(Parts128(Text.Decimal(hi), Text.Decimal(lo))) == Ok(U128(hi, lo))
  {
    Uint64Back(hi);
    Uint64Back(lo);
  }

  lemma {:induction false} I128Parts(hi: i64, lo: u64)
    ensures DecodeI128(Parts128(Text.SignedDecimal(hi), Text.Decimal(lo))) == Ok(I128(hi, lo))
  {
    Int64Back(hi);
    Uint64Back(lo);
  }

  lemma {:induction false} U256Parts(a: u64, b: u64, c: u64, d: u64)
    ensures DecodeU256(Parts256(Text.Decimal(a), Text.Decimal(b), Text.Decimal(c), Text.Decimal(d)))
            == Ok(U256(a, b, c, d))
  {
    Uint64Back(a);
    Uint64Back(b);
    Uint64Back(c);
    Uint64Back(d);
  }

  lemma {:induction false} I256Parts(a: i64, b: u64, c: u64, d: u64)
    ensures DecodeI256(Parts256(Text.SignedDecimal(a), Text.Decimal(b), Text.Decimal(c), Text.Decimal(d)))
            == Ok(I256(a, b, c, d))
  {
    Int64Back(a);
    Uint64Back(b);
    Uint64Back(c);
    Uint64Back(d);
  }

  lemma {:induction false} U128Back(hi: u64, lo: u64)
    ensures NumberReturns(U128(hi, lo))
  {
    U128Parts(hi, lo);
  }

  lemma {:induction false} I128Back(hi: i64, lo: u64)
    ensures NumberReturns(I128(hi, lo))
  {
    I128Parts(hi, lo);
  }

  lemma {:induction false} U256Back(a: u64, b: u64, c: u64, d: u64)
    ensures NumberReturns(U256(a, b, c, d))
  {
    U256Parts(a, b, c, d);
  }

  lemma {:induction false} I256Back(a: i64, b: u64, c: u64, d: u64)
    ensures NumberReturns(I256(a, b, c, d))
  {
    I256Parts(a, b, c, d);
  }

  lemma {:induction false} NumberBack(v: ScVal)
    requires IsNumber(v)
    ensures NumberReturns(v)
  {
    match v
    case U128(hi, lo) => U128Back(hi, lo);
    case I128(hi, lo) => I128Back(hi, lo);
    case U256(a, b, c, d) => U256Back(a, b, c, d);
    case I256(a, b, c, d) => I256Back(a, b, c, d);
    case _ => ShortNumberBack(v);
  }

  /** Bytes come back unless there are none: the empty text is refused as base64. */
  lemma {:induction false} BytesBack(b: seq<byte>)
    ensures Returns(DecodeBase64(Text.Base64(b, false, true)), b, b != [])
  {
    if b != [] { Text.Base64RoundTrip(b); }
  }

  lemma {:induction false} TextBack(v: ScVal)
    requires IsText(v)
    ensures var c := EncodeTextual(v);
            |c.fields| == 1 && Returns(DecodeField(c.kind, c.fields[0]), v, v.Bytes? ==> v.bytes != [])
  {
    match v
    case Bytes(b) => BytesBack(b);
    case String(s) => TextRoundTrip(s);
    case Symbol(s) => TextRoundTrip(s);
    case ExecutableTag(t) => TextRoundTrip(t);
  }

  lemma {:induction false} NumberField(c: CVal)
    requires |c.fields| == 1 && DecodeNumber(c.kind, c.fields[0]).Ok?
    ensures DecodeSimple(c) == DecodeNumber(c.kind, c.fields[0])
  {
  }

  lemma {:induction false} SimpleRoundTrip(v: ScVal)
    requires !IsContainer(v)
    ensures Returns(DecodeSimple(EncodeSimple(v)), v, v.Bytes? ==> v.bytes != [])
  {
    if IsNumber(v) {
      NumberBack(v);
      NumberField(EncodeNumber(v));
    } else if IsText(v) {
      TextBack(v);
    } else {
      OtherBack(v);
    }
  }

  lemma {:induction false} OtherBack(v: ScVal)
    requires !IsContainer(v) && !IsNumber(v) && !IsText(v)
    ensures DecodeSimple(EncodeSimple(v)) == Ok(v)
  {
    if v.Address? { AddressRoundTrip(v.address); }
  }

  /** A value encodes exactly when its height fits under the limit at the depth where it stands. */
  lemma {:induction false} ValEncodes(v: ScVal, depth: nat)
    ensures EncodeVal(v, depth).Ok? <==> depth + Height(v) <= MAX_DEPTH
    decreases v, 1
  {
    if v.Vec? { VecEncodes(v, depth); }
    else if v.Map? { MapEncodes(v, depth); }
    else if v.ContractInstance? { InstanceEncodes(v, depth); }
  }

  lemma {:induction false} VecEncodes(v: ScVal, depth: nat)
    requires v.Vec?
    ensures EncodeVal(v, depth).Ok? <==> depth + Height(v) <= MAX_DEPTH
    decreases v, 0
  {
    if v.vec.Items? { ValsEncode(v.vec.vals, depth + 1); }
  }

  lemma {:induction false} MapEncodes(v: ScVal, depth: nat)
    requires v.Map?
    ensures EncodeVal(v, depth).Ok? <==> depth + Height(v) <= MAX_DEPTH
    decreases v, 0
  {
    if v.entries.Entries? { EntriesEncode(v.entries.pairs, depth + 1); }
  }

  lemma {:induction false} InstanceEncodes(v: ScVal, depth: nat)
    requires v.ContractInstance?
    ensures EncodeVal(v, depth).Ok? <==> depth + Height(v) <= MAX_DEPTH
    decreases v, 0
  {
    StorageEncodes(v.storage, depth + 1);
  }

  lemma {:induction false} ValsEncode(vs: seq<ScVal>, depth: nat)
    ensures EncodeVals(vs, depth).Ok? <==> vs == [] || depth + HeightOfVals(vs) <= MAX_DEPTH
    decreases vs
  {
    if vs != [] {
      ValEncodes(vs[0], depth);
      ValsEncode(vs[1..], depth);
    }
  }

  lemma {:induction false} EntryEncodes(e: MapEntry, depth: nat)
    ensures EncodeEntry(e, depth).Ok? <==> depth + HeightOfEntry(e) <= MAX_DEPTH
    decreases e
  {
    ValEncodes(e.key, depth);
    ValEncodes(e.val, depth);
  }

  lemma {:induction false} EntriesEncode(es: seq<MapEntry>, depth: nat)
    ensures EncodeEntries(es, depth).Ok? <==> es == [] || depth + HeightOfEntries(es) <= MAX_DEPTH
    decreases es
  {
    if es != [] {
      EntryEncodes(es[0], depth);
      EntriesEncode(es[1..], depth);
    }
  }

  lemma {:induction false} StorageEncodes(m: ScMap, depth: nat)
    requires depth > 0
    ensures EncodeStorage(m, depth).Ok? <==> HeightOfMap(m) == 0 || depth - 1 + HeightOfMap(m) <= MAX_DEPTH
    decreases m
  {
    if m.Entries? {
      EntriesEncode(m.pairs, depth);
    }
  }

  /** A value's document comes back, at any depth where its height fits, exactly when no `bytes` in it is empty. */
  lemma {:induction false} ValRoundTrip(v: ScVal, depth: nat, at: nat)
    requires EncodeVal(v, depth).Ok?
    ensures Returns(DecodeVal(EncodeVal(v, depth).value, at), v, at + Height(v) <= MAX_DEPTH && Full(v))
    decreases v, 1
  {
    if v.Vec? { VecRoundTrip(v, depth, at); }
    else if v.Map? { MapRoundTrip(v, depth, at); }
    else if v.ContractInstance? { InstanceRoundTrip(v, depth, at); }
    else { SimpleRoundTrip(v); }
  }

  lemma {:induction false} VecRoundTrip(v: ScVal, depth: nat, at: nat)
    requires v.Vec? && EncodeVal(v, depth).Ok?
    ensures Returns(DecodeVal(EncodeVal(v, depth).value, at), v, at + Height(v) <= MAX_DEPTH && Full(v))
    decreases v, 0
  {
    if v.vec.Items? {
      ValsRoundTrip(v.vec.vals, depth + 1, at + 1);
      VecBack(v.vec.vals, depth, at);
    }
  }

  lemma {:induction false} MapRoundTrip(v: ScVal, depth: nat, at: nat)
    requires v.Map? && EncodeVal(v, depth).Ok?
    ensures Returns(DecodeVal(EncodeVal(v, depth).value, at), v, at + Height(v) <= MAX_DEPTH && Full(v))
    decreases v, 0
  {
    if v.entries.Entries? {
      EntriesRoundTrip(v.entries.pairs, depth + 1, at + 1);
      MapBack(v.entries.pairs, depth, at);
    }
  }

  lemma {:induction false} InstanceRoundTrip(v: ScVal, depth: nat, at: nat)
    requires v.ContractInstance? && EncodeVal(v, depth).Ok?
    ensures Returns(DecodeVal(EncodeVal(v, depth).value, at), v, at + Height(v) <= MAX_DEPTH && Full(v))
    decreases v, 0
  {
    StorageRoundTrip(v.storage, depth + 1, at + 1);
    InstanceBack(v, depth, at);
  }

  lemma {:induction false} VecBack(vals: seq<ScVal>, depth: nat, at: nat)
    requires depth <= MAX_DEPTH && EncodeVals(vals, depth + 1).Ok?
    requires Returns(DecodeVals(EncodeVals(vals, depth + 1).value, at + 1), vals,
                     (vals == [] || at + 1 + HeightOfVals(vals) <= MAX_DEPTH) && FullVals(vals))
    ensures var v := Vec(Items(vals));
            && EncodeVal(v, depth).Ok?
            && Returns(DecodeVal(EncodeVal(v, depth).value, at), v, at + Height(v) <= MAX_DEPTH && Full(v))
  {
  }

  lemma {:induction false} MapBack(pairs: seq<MapEntry>, depth: nat, at: nat)
    requires depth <= MAX_DEPTH && EncodeEntries(pairs, depth + 1).Ok?
    requires Returns(DecodeEntries(EncodeEntries(pairs, depth + 1).value, at + 1), pairs,
                     (pairs == [] || at + 1 + HeightOfEntries(pairs) <= MAX_DEPTH) && FullEntries(pairs))
    ensures var v := Map(Entries(pairs));
            && EncodeVal(v, depth).Ok?
            && Returns(DecodeVal(EncodeVal(v, depth).value, at), v, at + Height(v) <= MAX_DEPTH && Full(v))
  {
  }

  lemma {:induction false} InstanceBack(v: ScVal, depth: nat, at: nat)
    requires v.ContractInstance? && EncodeVal(v, depth).Ok? && EncodeStorage(v.storage, depth + 1).Ok?
    requires Returns(DecodeStorage(EncodeStorage(v.storage, depth + 1).value, at + 1), v.storage,
                     (HeightOfMap(v.storage) == 0 || at + HeightOfMap(v.storage) <= MAX_DEPTH) && FullMap(v.storage))
    ensures Returns(DecodeVal(EncodeVal(v, depth).value, at), v, at + Height(v) <= MAX_DEPTH && Full(v))
  {
    ExecutableRoundTrip(v.executable);
  }

  lemma {:induction false} ValsRoundTrip(vs: seq<ScVal>, depth: nat, at: nat)
    requires EncodeVals(vs, depth).Ok?
    ensures Returns(DecodeVals(EncodeVals(vs, depth).value, at), vs,
                    (vs == [] || at + HeightOfVals(vs) <= MAX_DEPTH) && FullVals(vs))
    decreases vs
  {
    if vs != [] {
      var first, others := EncodeVal(vs[0], depth).value, EncodeVals(vs[1..], depth).value;
      assert ([first] + others)[1..] == others && vs == [vs[0]] + vs[1..];
      ValRoundTrip(vs[0], depth, at);
      ValsRoundTrip(vs[1..], depth, at);
    }
  }

  lemma {:induction false} EntryRoundTrip(e: MapEntry, depth: nat, at: nat)
    requires EncodeEntry(e, depth).Ok?
    ensures Returns(DecodeEntry(EncodeEntry(e, depth).value, at), e, at + HeightOfEntry(e) <= MAX_DEPTH && FullEntry(e))
    decreases e
  {
    ValRoundTrip(e.key, depth, at);
    ValRoundTrip(e.val, depth, at);
  }

  lemma {:induction false} EntriesRoundTrip(es: seq<MapEntry>, depth: nat, at: nat)
    requires EncodeEntries(es, depth).Ok?
    ensures Returns(DecodeEntries(EncodeEntries(es, depth).value, at), es,
                    (es == [] || at + HeightOfEntries(es) <= MAX_DEPTH) && FullEntries(es))
    decreases es
  {
    if es != [] {
      var first, others := EncodeEntry(es[0], depth).value, EncodeEntries(es[1..], depth).value;
      assert ([first] + others)[1..] == others && es == [es[0]] + es[1..];
      EntryRoundTrip(es[0], depth, at);
      EntriesRoundTrip(es[1..], depth, at);
    }
  }

  lemma {:induction false} StorageRoundTrip(m: ScMap, depth: nat, at: nat)
    requires EncodeStorage(m, depth).Ok? && at > 0
    ensures Returns(DecodeStorage(EncodeStorage(m, depth).value, at), m,
                    (HeightOfMap(m) == 0 || at - 1 + HeightOfMap(m) <= MAX_DEPTH) && FullMap(m))
    decreases m
  {
    if m.Entries? {
      EntriesRoundTrip(m.pairs, depth, at);
    }
  }

  // ---------- Invocations ----------

  predicate NoAsset(f: AuthorizedFunction) {
    !f.ContractFn? ==> f.idPreimage.FromAddress?
  }

  /** No contract anywhere in the tree is created from an asset. */
  predicate NoAssets(i: Invocation)
    decreases i
  {
    NoAsset(i.function_) && NoAssetsIn(i.subs)
  }

  predicate NoAssetsIn(subs: seq<Invocation>)
    decreases subs
  {
    subs == [] || (NoAssets(subs[0]) && NoAssetsIn(subs[1..]))
  }

  lemma {:induction false} FunctionEncodes(f: AuthorizedFunction, depth: nat)
    requires depth > 0
    ensures EncodeFunction(f, depth).Ok?
            <==> NoAsset(f) && (HeightOfFunction(f) == 0 || depth - 1 + HeightOfFunction(f) <= MAX_DEPTH)
  {
    match f
    case ContractFn(_, _, args) => ValsEncode(args, depth + 1);
    case CreateContract(_, _) =>
    case CreateContractV2(_, _, args) => ValsEncode(args, depth + 1);
  }

  lemma {:induction false} InvocationEncodes(i: Invocation, depth: nat)
    ensures EncodeInvocation(i, depth).Ok? <==> NoAssets(i) && depth + HeightOfInvocation(i) <= MAX_DEPTH
    decreases i
  {
    FunctionEncodes(i.function_, depth + 1);
    SubsEncode(i.subs, depth + 1);
  }

  lemma {:induction false} SubsEncode(subs: seq<Invocation>, depth: nat)
    requires depth > 0
    ensures EncodeSubs(subs, depth).Ok?
            <==> NoAssetsIn(subs) && (subs == [] || depth - 1 + HeightOfSubs(subs) <= MAX_DEPTH)
    decreases subs
  {
    if subs != [] {
      InvocationEncodes(subs[0], depth);
      SubsEncode(subs[1..], depth);
    }
  }

  lemma {:induction false} PreimageRoundTrip(p: ContractIdPreimage)
    requires p.FromAddress?
    ensures EncodePreimage(p).Ok? && DecodePreimage(EncodePreimage(p).value) == Ok(p)
  {
    AddressRoundTrip(p.deployer);
    Text.HexRoundTrip(p.salt);
  }

  lemma {:induction false} FunctionRoundTrip(f: AuthorizedFunction, depth: nat, at: nat)
    requires EncodeFunction(f, depth).Ok? && at > 0
    ensures Returns(DecodeFunction(EncodeFunction(f, depth).value, at), f,
                    (HeightOfFunction(f) == 0 || at - 1 + HeightOfFunction(f) <= MAX_DEPTH) && FullFunction(f))
  {
    match f
    case ContractFn(contract, name, args) =>
      AddressRoundTrip(contract);
      TextRoundTrip(name);
      ValsRoundTrip(args, depth + 1, at + 1);
    case CreateContract(idPreimage, executable) =>
      PreimageRoundTrip(idPreimage);
      ExecutableRoundTrip(executable);
    case CreateContractV2(idPreimage, executable, args) =>
      PreimageRoundTrip(idPreimage);
      ExecutableRoundTrip(executable);
      ValsRoundTrip(args, depth + 1, at + 1);
  }

  lemma {:induction false} InvocationRoundTrip(i: Invocation, depth: nat, at: nat)
    requires EncodeInvocation(i, depth).Ok?
    ensures Returns(DecodeInvocation(EncodeInvocation(i, depth).value, at), i,
                    at + HeightOfInvocation(i) <= MAX_DEPTH && FullInvocation(i))
    decreases i
  {
    FunctionRoundTrip(i.function_, depth + 1, at + 1);
    SubsRoundTrip(i.subs, depth + 1, at + 1);
    InvocationBack(i, depth, at);
  }

  lemma {:induction false} InvocationBack(i: Invocation, depth: nat, at: nat)
    requires EncodeInvocation(i, depth).Ok?
    requires EncodeFunction(i.function_, depth + 1).Ok? && EncodeSubs(i.subs, depth + 1).Ok?
    requires Returns(DecodeFunction(EncodeFunction(i.function_, depth + 1).value, at + 1), i.function_,
                     (HeightOfFunction(i.function_) == 0 || at + HeightOfFunction(i.function_) <= MAX_DEPTH)
                     && FullFunction(i.function_))
    requires Returns(DecodeSubs(EncodeSubs(i.subs, depth + 1).value, at + 1), i.subs,
                     (i.subs == [] || at + HeightOfSubs(i.subs) <= MAX_DEPTH) && FullSubs(i.subs))
    ensures Returns(DecodeInvocation(EncodeInvocation(i, depth).value, at), i,
                    at + HeightOfInvocation(i) <= MAX_DEPTH && FullInvocation(i))
  {
    assert i.subs == [] ==> HeightOfSubs(i.subs) == 0;
    assert FullInvocation(i) <==> FullFunction(i.function_) && FullSubs(i.subs);
  }

  lemma {:induction false} SubsRoundTrip(subs: seq<Invocation>, depth: nat, at: nat)
    requires EncodeSubs(subs, depth).Ok? && at > 0
    ensures Returns(DecodeSubs(EncodeSubs(subs, depth).value, at), subs,
                    (subs == [] || at - 1 + HeightOfSubs(subs) <= MAX_DEPTH) && FullSubs(subs))
    decreases subs
  {
    if subs != [] {
      var first, others := EncodeInvocation(subs[0], depth).value, EncodeSubs(subs[1..], depth).value;
      assert ([first] + others)[1..] == others && subs == [subs[0]] + subs[1..];
      InvocationRoundTrip(subs[0], depth, at);
      SubsRoundTrip(subs[1..], depth, at);
    }
  }

  // ---------- Credentials ----------

  lemma {:induction false} DelegateEncodes(n: DelegateNode, depth: nat)
    ensures EncodeDelegate(n, depth).Ok? <==> depth + HeightOfDelegate(n) <= MAX_DEPTH
    decreases n
  {
    ValEncodes(n.signature, depth + 1);
    DelegatesEncode(n.nested, depth + 1);
  }

  lemma {:induction false} DelegatesEncode(nodes: seq<DelegateNode>, depth: nat)
    ensures EncodeDelegates(nodes, depth).Ok? <==> depth + HeightOfDelegates(nodes) <= MAX_DEPTH
    decreases nodes
  {
    if nodes != [] {
      DelegateEncodes(nodes[0], depth);
      DelegatesEncode(nodes[1..], depth);
    }
  }

  lemma {:induction false} DelegateRoundTrip(n: DelegateNode, depth: nat, at: nat)
    requires EncodeDelegate(n, depth).Ok?
    ensures Returns(DecodeDelegate(EncodeDelegate(n, depth).value, at), n,
                    at + HeightOfDelegate(n) <= MAX_DEPTH && FullDelegate(n))
    decreases n
  {
    AddressRoundTrip(n.address);
    ValRoundTrip(n.signature, depth + 1, at + 1);
    DelegatesRoundTrip(n.nested, depth + 1, at + 1);
  }

  lemma {:induction false} DelegatesRoundTrip(nodes: seq<DelegateNode>, depth: nat, at: nat)
    requires EncodeDelegates(nodes, depth).Ok?
    ensures Returns(DecodeDelegates(EncodeDelegates(nodes, depth).value, at), nodes,
                    at + HeightOfDelegates(nodes) <= MAX_DEPTH && FullDelegates(nodes))
    decreases nodes
  {
    if nodes != [] {
      var first, others := EncodeDelegate(nodes[0], depth).value, EncodeDelegates(nodes[1..], depth).value;
      assert ([first] + others)[1..] == others && nodes == [nodes[0]] + nodes[1..];
      DelegateRoundTrip(nodes[0], depth, at);
      DelegatesRoundTrip(nodes[1..], depth, at);
    }
  }

  lemma {:induction false} AddressCredentialsRoundTrip(kind: CredentialType, creds: AddressCredentials, c: CCredential)
    requires EncodeAddressCredentials(kind, creds, 0) == Ok(c.(delegates := None))
    ensures Returns(DecodeAddressCredentials(c, 0), creds, Full(creds.signature))
  {
    AddressRoundTrip(creds.address);
    Int64Back(creds.nonce);
    ValEncodes(creds.signature, 1);
    ValRoundTrip(creds.signature, 1, 1);
  }

  lemma {:induction false} CredentialsEncode(c: Credentials)
    ensures EncodeCredentials(c, 0).Ok? <==> (c.HasAddress() || c.SourceAccount?) && HeightOfCredentials(c) <= MAX_DEPTH
  {
    if c.HasAddress() {
      ValEncodes(c.creds.signature, 1);
      if c.WithDelegateTree? { DelegatesEncode(c.delegates, 1); }
    }
  }

  lemma {:induction false} CredentialsRoundTrip(c: Credentials)
    requires EncodeCredentials(c, 0).Ok?
    ensures Returns(DecodeCredentials(EncodeCredentials(c, 0).value, 0), c, FullCredentials(c))
  {
    var encoded := EncodeCredentials(c, 0).value;
    match c
    case SourceAccount =>
    case Legacy(creds) => AddressCredentialsRoundTrip(AddressType_, creds, encoded);
    case V2(creds) => AddressCredentialsRoundTrip(AddressV2Type, creds, encoded);
    case WithDelegateTree(_, _) => TreeCredentialsRoundTrip(c);
  }

  lemma {:induction false} TreeCredentialsRoundTrip(c: Credentials)
    requires c.WithDelegateTree? && EncodeCredentials(c, 0).Ok?
    ensures Returns(DecodeCredentials(EncodeCredentials(c, 0).value, 0), c, FullCredentials(c))
  {
    AddressCredentialsRoundTrip(WithDelegatesType, c.creds, EncodeCredentials(c, 0).value);
    DelegatesEncode(c.delegates, 1);
    DelegatesRoundTrip(c.delegates, 1, 1);
  }

  // ---------- Entries ----------

  /** Which entries have a canonical document: known arms, no asset preimage, nesting within the limit. */
  lemma {:induction false} EncodesExactly(e: Entry)
    ensures Encode(e).Ok?
            <==> && (e.credentials.HasAddress() || e.credentials.SourceAccount?) && NoAssets(e.root)
                 && HeightOfCredentials(e.credentials) <= MAX_DEPTH && HeightOfInvocation(e.root) <= MAX_DEPTH
  {
    CredentialsEncode(e.credentials);
    InvocationEncodes(e.root, 0);
  }

  /**
   Every entry that encodes comes back from its document, unless it holds a zero-length `bytes`;
   that one is refused.
   */
  lemma {:induction false} RoundTrip(e: Entry)
    requires Encode(e).Ok?
    ensures Decode(Encode(e).value) == Ok(e) <==> FullEntryOf(e)
    ensures !FullEntryOf(e) ==> Decode(Encode(e).value).Err?
  {
    CredentialsRoundTrip(e.credentials);
    InvocationEncodes(e.root, 0);
    InvocationRoundTrip(e.root, 0, 0);
  }

  /** A zero-length `bytes` encodes, and its own document is refused. */
  lemma {:induction false} EmptyBytesAreRefused()
    ensures EncodeVal(ScVal.Bytes([]), 0).Ok? && DecodeVal(EncodeVal(ScVal.Bytes([]), 0).value, 0) == Err(Malformed)
  {
    assert Text.Base64([], false, true) == "";
  }
}
