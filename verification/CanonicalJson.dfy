/**
 canonical.go: the JSON tree a canonical document is written as, and the scan that refuses
 repeated keys and deep nesting before a document is decoded.
 */
module CanonicalJson {
  import opened Wrappers
  import opened Bytes
  import opened Xdr
  import opened Canonical
  import opened CanonicalRoundTrip

  /** The scanner's limit: eight JSON levels per traversal level. */
  const MAX_JSON_DEPTH: nat := 8 * MAX_DEPTH

  datatype Json = Leaf | Arr(items: seq<Json>) | Obj(members: seq<Member>)
  datatype Member = Member(key: string, value: Json)

  predicate DistinctKeys(members: seq<Member>) {
    forall i, j | 0 <= i < j < |members| :: members[i].key != members[j].key
  }

  /** How many levels lie below a value. */
  function Nesting(j: Json): nat
    decreases j
  {
    match j
    case Leaf => 0
    case Arr(items) => if items == [] then 0 else 1 + NestingOfItems(items)
    case Obj(members) => if members == [] then 0 else 1 + NestingOfMembers(members)
  }

  function NestingOfItems(items: seq<Json>): nat
    decreases items
  {
    if items == [] then 0 else Max(Nesting(items[0]), NestingOfItems(items[1..]))
  }

  function NestingOfMember(m: Member): nat
    decreases m
  {
    Nesting(m.value)
  }

  function NestingOfMembers(members: seq<Member>): nat
    decreases members
  {
    if members == [] then 0 else Max(NestingOfMember(members[0]), NestingOfMembers(members[1..]))
  }

  /** No object repeats a key. */
  predicate Clean(j: Json)
    decreases j
  {
    match j
    case Leaf => true
    case Arr(items) => CleanItems(items)
    case Obj(members) => DistinctKeys(members) && CleanMembers(members)
  }

  predicate CleanItems(items: seq<Json>)
    decreases items
  {
    items == [] || (Clean(items[0]) && CleanItems(items[1..]))
  }

  predicate CleanMember(m: Member)
    decreases m
  {
    Clean(m.value)
  }

  predicate CleanMembers(members: seq<Member>)
    decreases members
  {
    members == [] || (CleanMember(members[0]) && CleanMembers(members[1..]))
  }

  /** No object repeats a key, and at most n levels lie below. */
  predicate Within(j: Json, n: int) {
    Clean(j) && Nesting(j) <= n
  }

  lemma {:induction false} ItemsMean(items: seq<Json>, n: nat)
    ensures CleanItems(items) && NestingOfItems(items) <= n <==> forall x :: x in items ==> Within(x, n)
  {
    if items != [] {
      ItemsMean(items[1..], n);
      assert forall x :: x in items <==> x == items[0] || x in items[1..];
      assert items[0] in items && (Within(items[0], n) <==> Clean(items[0]) && Nesting(items[0]) <= n);
      assert CleanItems(items) <==> Clean(items[0]) && CleanItems(items[1..]);
      assert NestingOfItems(items) <= n <==> Nesting(items[0]) <= n && NestingOfItems(items[1..]) <= n;
    }
  }

  lemma {:induction false} MembersMean(members: seq<Member>, n: nat)
    ensures CleanMembers(members) && NestingOfMembers(members) <= n <==> forall m :: m in members ==> Within(m.value, n)
  {
    if members != [] {
      MembersMean(members[1..], n);
      assert forall m :: m in members <==> m == members[0] || m in members[1..];
      assert CleanMembers(members) <==> Clean(members[0].value) && CleanMembers(members[1..]);
      assert NestingOfMembers(members) <= n <==> Nesting(members[0].value) <= n && NestingOfMembers(members[1..]) <= n;
    }
  }

  /** An array fits exactly when its items fit one level lower. */
  lemma {:induction false} ArrMeans(items: seq<Json>, n: nat)
    ensures Within(Arr(items), n) <==> forall x :: x in items ==> Within(x, n - 1)
  {
    if n > 0 {
      ItemsMean(items, n - 1);
    } else if items != [] {
      assert items[0] in items && !Within(items[0], n - 1);
    } else {
      assert CleanItems(items);
    }
  }

  /** An object fits exactly when its keys are distinct and its members fit one level lower. */
  lemma {:induction false} ObjMeans(members: seq<Member>, n: nat)
    ensures Within(Obj(members), n) <==> DistinctKeys(members) && forall m :: m in members ==> Within(m.value, n - 1)
  {
    if n > 0 {
      MembersMean(members, n - 1);
    } else if members != [] {
      assert members[0] in members && !Within(members[0].value, n - 1);
    } else {
      assert CleanMembers(members);
    }
  }

  // ---------- The scan ----------

  datatype Token = OpenObject | CloseObject | OpenArray | CloseArray | KeyToken(key: string) | Scalar

  /** The tokens of a value, in the order a JSON decoder returns them. */
  function Tokens(j: Json): (t: seq<Token>)
    ensures |t| > 0 && !t[0].CloseArray? && !t[0].CloseObject?
    decreases j
  {
    match j
    case Leaf => [Scalar]
    case Arr(items) => [OpenArray] + TokensOfItems(items) + [CloseArray]
    case Obj(members) => [OpenObject] + TokensOfMembers(members) + [CloseObject]
  }

  function TokensOfItems(items: seq<Json>): (t: seq<Token>)
    decreases items
  {
    if items == [] then [] else Tokens(items[0]) + TokensOfItems(items[1..])
  }

  function TokensOfMember(m: Member): (t: seq<Token>)
    decreases m
  {
    [KeyToken(m.key)] + Tokens(m.value)
  }

  function TokensOfMembers(members: seq<Member>): (t: seq<Token>)
    decreases members
  {
    if members == [] then [] else TokensOfMember(members[0]) + TokensOfMembers(members[1..])
  }

  lemma {:induction false} ItemsStep(items: seq<Json>, tail: seq<Token>)
    requires items != []
    ensures TokensOfItems(items) + tail == Tokens(items[0]) + (TokensOfItems(items[1..]) + tail)
  {
  }

  lemma {:induction false} MembersStep(members: seq<Member>, tail: seq<Token>)
    requires members != []
    ensures TokensOfMembers(members) + tail
            == [KeyToken(members[0].key)] + (Tokens(members[0].value) + (TokensOfMembers(members[1..]) + tail))
  {
  }

  /** The keys of the first i members. */
  function KeysOf(members: seq<Member>, i: nat): set<string>
    requires i <= |members|
  {
    set k | 0 <= k < i :: members[k].key
  }

  /** The keys of the first i members are distinct. */
  predicate DistinctUpTo(members: seq<Member>, i: nat)
    requires i <= |members|
  {
    forall j, k | 0 <= j < k < i :: members[j].key != members[k].key
  }

  /** One more member: a key seen before is a repeat, a new one keeps the keys distinct. */
  lemma {:induction false} KeyStep(members: seq<Member>, i: nat)
    requires i < |members| && DistinctUpTo(members, i)
    ensures members[i].key in KeysOf(members, i) ==> !DistinctKeys(members)
    ensures members[i].key !in KeysOf(members, i) ==> DistinctUpTo(members, i + 1)
    ensures KeysOf(members, i) + {members[i].key} == KeysOf(members, i + 1)
  {
  }

  /** The tokens still to be read. */
  class Reader {
    var rest: seq<Token>

    constructor (tokens: seq<Token>)
      ensures rest == tokens
    {
      rest := tokens;
    }

    /** decoder.More: the array or object being read has another element. */
    predicate More()
      reads this
    {
      rest != [] && !rest[0].CloseArray? && !rest[0].CloseObject?
    }

    /** decoder.Token. */
    method Next() returns (t: Token)
      requires rest != []
      modifies this
      ensures t == old(rest[0]) && rest == old(rest[1..])
    {
      t := rest[0];
      rest := rest[1..];
    }

    /** scanJSONValue, on the tokens of a well-formed value j and whatever follows them. */
    method Scan(depth: nat, ghost j: Json, ghost tail: seq<Token>) returns (ok: bool)
      requires rest == Tokens(j) + tail
      modifies this
      ensures ok <==> depth <= MAX_JSON_DEPTH && Within(j, MAX_JSON_DEPTH - depth)
      ensures ok ==> rest == tail
      decreases j, 1
    {
      if depth > MAX_JSON_DEPTH { return false; }
      var token := Next();
      match token {
        case OpenObject => ok := ScanMembers(depth, j.members, tail);
        case OpenArray => ok := ScanItems(depth, j.items, tail);
        case _ => return true;
      }
    }

    /** The array loop of scanJSONValue. */
    method ScanItems(depth: nat, ghost items: seq<Json>, ghost tail: seq<Token>) returns (ok: bool)
      requires depth <= MAX_JSON_DEPTH && rest == TokensOfItems(items) + [CloseArray] + tail
      modifies this
      ensures ok <==> Within(Arr(items), MAX_JSON_DEPTH - depth)
      ensures ok ==> rest == tail
      decreases items, 0
    {
      ghost var i := 0;
      ghost var end := [CloseArray] + tail;
      ArrMeans(items, MAX_JSON_DEPTH - depth);
      while More()
        invariant i <= |items| && rest == TokensOfItems(items[i..]) + end
        invariant forall k :: 0 <= k < i ==> Within(items[k], MAX_JSON_DEPTH - depth - 1)
        decreases |items| - i
      {
        assert i < |items|;
        ItemsStep(items[i..], end);
        assert items[i..][1..] == items[i + 1..];
        var accepted := Scan(depth + 1, items[i], TokensOfItems(items[i + 1..]) + end);
        if !accepted {
          assert items[i] in items;
          return false;
        }
        i := i + 1;
      }
      if i < |items| { ItemsStep(items[i..], end); }
      var close := Next();
      return true;
    }

    /** The object loop of scanJSONValue, with the keys already seen. */
    method ScanMembers(depth: nat, ghost members: seq<Member>, ghost tail: seq<Token>) returns (ok: bool)
      requires depth <= MAX_JSON_DEPTH && rest == TokensOfMembers(members) + [CloseObject] + tail
      modifies this
      ensures ok <==> Within(Obj(members), MAX_JSON_DEPTH - depth)
      ensures ok ==> rest == tail
      decreases members, 0
    {
      var seen: set<string> := {};
      ghost var i := 0;
      ghost var end := [CloseObject] + tail;
      ObjMeans(members, MAX_JSON_DEPTH - depth);
      while More()
        invariant i <= |members| && rest == TokensOfMembers(members[i..]) + end
        invariant seen == KeysOf(members, i) && DistinctUpTo(members, i)
        invariant forall k :: 0 <= k < i ==> Within(members[k].value, MAX_JSON_DEPTH - depth - 1)
        decreases |members| - i
      {
        assert i < |members|;
        MembersStep(members[i..], end);
        assert members[i..][1..] == members[i + 1..];
        var token := Next();
        assert token == KeyToken(members[i].key);
        KeyStep(members, i);
        if token.key in seen { return false; }
        seen := seen + {token.key};
        var accepted := Scan(depth + 1, members[i].value, TokensOfMembers(members[i + 1..]) + end);
        if !accepted {
          assert members[i] in members;
          return false;
        }
        i := i + 1;
      }
      if i < |members| { MembersStep(members[i..], end); }
      var close := Next();
      return true;
    }
  }

  /** rejectDuplicateJSONKeys: a scanned value, and nothing after it. */
  method RejectDuplicateKeys(tokens: seq<Token>, ghost j: Json, ghost trailing: seq<Token>) returns (ok: bool)
    requires tokens == Tokens(j) + trailing
    ensures ok <==> Within(j, MAX_JSON_DEPTH) && trailing == []
  {
    var reader := new Reader(tokens);
    ok := reader.Scan(0, j, trailing);
    if ok { ok := reader.rest == []; }
  }

  // ---------- What a document is written as ----------

  function Opt(key: string, present: bool): seq<Member> {
    if present then [Member(key, Leaf)] else []
  }

  function AddressJson(c: CAddress): Json {
    Obj([Member("type", Leaf)] + Opt("account", c.account.Some?) + Opt("contract", c.contract.Some?)
        + Opt("xdr", c.xdr.Some?))
  }

  function TextJson(c: CText): Json {
    Obj(Opt("utf8", c.utf8.Some?) + Opt("base64", c.base64.Some?))
  }

  function ExecutableJson(c: CExecutable): Json {
    Obj([Member("type", Leaf)] + Opt("wasm_hash", c.wasmHash.Some?)
        + (if c.owner.Some? then [Member("owner", AddressJson(c.owner.value))] else [])
        + (if c.tag.Some? then [Member("tag", TextJson(c.tag.value))] else []))
  }

  function PreimageJson(c: CPreimage): Json {
    Obj([Member("type", Leaf)]
        + (if c.address.Some? then [Member("address", AddressJson(c.address.value))] else [])
        + Opt("salt", c.salt.Some?) + Opt("xdr", c.xdr.Some?))
  }

  function FieldName(f: Field): string {
    match f
    case FBool(_) => "bool"
    case FU32(_) => "u32"
    case FI32(_) => "i32"
    case FU64(_) => "u64"
    case FI64(_) => "i64"
    case FTimepoint(_) => "timepoint"
    case FDuration(_) => "duration"
    case FU128(_) => "u128"
    case FI128(_) => "i128"
    case FU256(_) => "u256"
    case FI256(_) => "i256"
    case FBytes(_) => "bytes"
    case FString(_) => "string"
    case FSymbol(_) => "symbol"
    case FExecutableTag(_) => "executable_tag"
    case FVec(_) => "vec"
    case FMap(_) => "map"
    case FNil => "nil"
    case FAddress(_) => "address"
    case FInstance(_) => "contract_instance"
    case FXdr(_) => "xdr"
  }

  function ValJson(c: CVal): Json
    decreases c
  {
    Obj([Member("type", Leaf)] + FieldsJson(c.fields))
  }

  function FieldsJson(fs: seq<Field>): seq<Member>
    decreases fs
  {
    if fs == [] then [] else [Member(FieldName(fs[0]), FieldJson(fs[0]))] + FieldsJson(fs[1..])
  }

  function FieldJson(f: Field): Json
    decreases f
  {
    match f
    case FU128(_) => Obj([Member("hi", Leaf), Member("lo", Leaf)])
    case FI128(_) => Obj([Member("hi", Leaf), Member("lo", Leaf)])
    case FU256(_) => Obj([Member("hi_hi", Leaf), Member("hi_lo", Leaf), Member("lo_hi", Leaf), Member("lo_lo", Leaf)])
    case FI256(_) => Obj([Member("hi_hi", Leaf), Member("hi_lo", Leaf), Member("lo_hi", Leaf), Member("lo_lo", Leaf)])
    case FString(t) => TextJson(t)
    case FSymbol(t) => TextJson(t)
    case FExecutableTag(t) => TextJson(t)
    case FVec(vals) => Arr(ValsJson(vals))
    case FMap(pairs) => Arr(EntriesJson(pairs))
    case FAddress(a) => AddressJson(a)
    case FInstance(i) => InstanceJson(i)
    case _ => Leaf
  }

  function ValsJson(cs: seq<CVal>): seq<Json>
    decreases cs
  {
    if cs == [] then [] else [ValJson(cs[0])] + ValsJson(cs[1..])
  }

  function EntryJson(c: CMapEntry): Json
    decreases c
  {
    Obj([Member("key", ValJson(c.key)), Member("val", ValJson(c.val))])
  }

  function EntriesJson(cs: seq<CMapEntry>): seq<Json>
    decreases cs
  {
    if cs == [] then [] else [EntryJson(cs[0])] + EntriesJson(cs[1..])
  }

  function InstanceJson(c: CInstance): Json
    decreases c
  {
    Obj([Member("executable", ExecutableJson(c.executable))] + StorageJson(c.storage))
  }

  function StorageJson(m: CMap): seq<Member>
    decreases m
  {
    match m
    case NoMap => []
    case CEntries(pairs) => [Member("storage", Arr(EntriesJson(pairs)))]
  }

  function OptVals(key: string, cs: Option<seq<CVal>>): seq<Member> {
    if cs.Some? then [Member(key, Arr(ValsJson(cs.value)))] else []
  }

  function FunctionJson(c: CFunction): Json {
    Obj([Member("type", Leaf)]
        + (if c.contractAddress.Some? then [Member("contract_address", AddressJson(c.contractAddress.value))] else [])
        + (if c.functionName.Some? then [Member("function_name", TextJson(c.functionName.value))] else [])
        + OptVals("args", c.args)
        + (if c.idPreimage.Some? then [Member("contract_id_preimage", PreimageJson(c.idPreimage.value))] else [])
        + (if c.executable.Some? then [Member("executable", ExecutableJson(c.executable.value))] else [])
        + OptVals("constructor_args", c.constructorArgs))
  }

  function InvocationJson(c: CInvocation): Json
    decreases c
  {
    Obj([Member("function", FunctionJson(c.function_)), Member("sub_invocations", Arr(SubsJson(c.subs)))])
  }

  function SubsJson(cs: seq<CInvocation>): seq<Json>
    decreases cs
  {
    if cs == [] then [] else [InvocationJson(cs[0])] + SubsJson(cs[1..])
  }

  function DelegateJson(c: CDelegate): Json
    decreases c
  {
    Obj([Member("address", AddressJson(c.address)), Member("signature", ValJson(c.signature)),
         Member("nested", Arr(DelegatesJson(c.nested)))])
  }

  function DelegatesJson(cs: seq<CDelegate>): seq<Json>
    decreases cs
  {
    if cs == [] then [] else [DelegateJson(cs[0])] + DelegatesJson(cs[1..])
  }

  function CredentialJson(c: CCredential): Json {
    Obj([Member("type", Leaf)]
        + (if c.address.Some? then [Member("address", AddressJson(c.address.value))] else [])
        + Opt("nonce", c.nonce.Some?) + Opt("signature_expiration_ledger", c.expiration.Some?)
        + (if c.signature.Some? then [Member("signature", ValJson(c.signature.value))] else [])
        + (if c.delegates.Some? then [Member("delegates", Arr(DelegatesJson(c.delegates.value)))] else []))
  }

  function DocumentJson(c: CEntry): Json {
    Obj([Member("schema_version", Leaf), Member("credentials", CredentialJson(c.credentials)),
         Member("root_invocation", InvocationJson(c.root))])
  }

  // ---------- The bound ----------

  lemma {:induction false} AddressWithin(a: ScAddress)
    ensures Within(AddressJson(EncodeAddress(a)), 1)
  {
    var name := if a.Account? then "account" else if a.Contract? then "contract" else "xdr";
    assert AddressJson(EncodeAddress(a)) == Obj([Member("type", Leaf), Member(name, Leaf)]);
    TwoWithin(Member("type", Leaf), Member(name, Leaf), 0);
  }

  lemma {:induction false} TextWithin(s: seq<byte>)
    ensures Within(TextJson(EncodeText(s)), 1)
  {
    var name := if ValidUtf8(s) then "utf8" else "base64";
    assert TextJson(EncodeText(s)) == Obj([Member(name, Leaf)]);
    OneWithin(Member(name, Leaf), 0);
  }

  lemma {:induction false} OneWithin(a: Member, n: nat)
    requires Within(a.value, n)
    ensures Within(Obj([a]), n + 1)
  {
    ObjMeans([a], n + 1);
  }

  lemma {:induction false} TwoWithin(a: Member, b: Member, n: nat)
    requires a.key != b.key && Within(a.value, n) && Within(b.value, n)
    ensures Within(Obj([a, b]), n + 1)
  {
    ObjMeans([a, b], n + 1);
  }

  lemma {:induction false} ThreeWithin(a: Member, b: Member, c: Member, n: nat)
    requires a.key != b.key && b.key != c.key && a.key != c.key
    requires Within(a.value, n) && Within(b.value, n) && Within(c.value, n)
    ensures Within(Obj([a, b, c]), n + 1)
  {
    ObjMeans([a, b, c], n + 1);
  }

  lemma {:induction false} ExternalRefWithin(owner: ScAddress, refTag: seq<byte>)
    ensures Within(ExecutableJson(EncodeExecutable(ExternalRef(owner, refTag))), 2)
  {
    AddressWithin(owner);
    TextWithin(refTag);
    var o, t := Member("owner", AddressJson(EncodeAddress(owner))), Member("tag", TextJson(EncodeText(refTag)));
    ThreeWithin(Member("type", Leaf), o, t, 1);
    assert ExecutableJson(EncodeExecutable(ExternalRef(owner, refTag))) == Obj([Member("type", Leaf), o, t]);
  }

  lemma {:induction false} ExecutableWithin(e: Executable)
    ensures Within(ExecutableJson(EncodeExecutable(e)), 2)
  {
    match e
    case Wasm(hash) =>
      assert ExecutableJson(EncodeExecutable(e)) == Obj([Member("type", Leaf), Member("wasm_hash", Leaf)]);
      TwoWithin(Member("type", Leaf), Member("wasm_hash", Leaf), 0);
    case StellarAsset =>
      assert ExecutableJson(EncodeExecutable(e)) == Obj([Member("type", Leaf)]);
      OneWithin(Member("type", Leaf), 0);
    case ExternalRef(owner, refTag) => ExternalRefWithin(owner, refTag);
  }

  lemma {:induction false} ConsWithin(x: Json, xs: seq<Json>, n: nat)
    requires Within(x, n - 1) && Within(Arr(xs), n)
    ensures Within(Arr([x] + xs), n)
  {
    assert ([x] + xs)[1..] == xs;
    assert NestingOfItems([x] + xs) == Max(Nesting(x), NestingOfItems(xs));
  }

  lemma {:induction false} FieldNameIsNotType(f: Field)
    ensures FieldName(f) != "type"
  {
  }

  /** An object with a type and one field nests one level more than that field. */
  lemma {:induction false} FieldWithin(kind: ValType, f: Field, n: nat)
    requires Within(FieldJson(f), n)
    ensures Within(ValJson(CVal(kind, [f])), n + 1)
  {
    FieldNameIsNotType(f);
    assert [f][1..] == [];
    assert [Member("type", Leaf)] + FieldsJson([f]) == [Member("type", Leaf), Member(FieldName(f), FieldJson(f))];
    TwoWithin(Member("type", Leaf), Member(FieldName(f), FieldJson(f)), n);
  }

  lemma {:induction false} FlatFieldWithin(f: Field)
    requires !f.FVec? && !f.FMap? && !f.FInstance? && !f.FAddress? && !f.FString? && !f.FSymbol? && !f.FExecutableTag?
    ensures Within(FieldJson(f), 1)
  {
    var pair := [Member("hi", Leaf), Member("lo", Leaf)];
    var quad := [Member("hi_hi", Leaf), Member("hi_lo", Leaf), Member("lo_hi", Leaf), Member("lo_lo", Leaf)];
    TwoWithin(pair[0], pair[1], 0);
    FourWithin(quad[0], quad[1], quad[2], quad[3], 0);
    assert FieldJson(f) == Obj(pair) || FieldJson(f) == Obj(quad) || FieldJson(f) == Leaf;
  }

  lemma {:induction false} NumberWithin(v: ScVal)
    requires IsNumber(v)
    ensures Within(ValJson(EncodeNumber(v)), 2)
  {
    var c := EncodeNumber(v);
    FlatFieldWithin(c.fields[0]);
    FieldWithin(c.kind, c.fields[0], 1);
  }

  lemma {:induction false} TextualWithin(v: ScVal)
    requires IsText(v)
    ensures Within(ValJson(EncodeTextual(v)), 2)
  {
    var c := EncodeTextual(v);
    if v.Bytes? {
      FlatFieldWithin(c.fields[0]);
    } else {
      TextWithin(if v.String? then v.str else if v.Symbol? then v.sym else v.tag);
    }
    FieldWithin(c.kind, c.fields[0], 1);
  }

  lemma {:induction false} SimpleWithin(v: ScVal)
    requires !IsContainer(v)
    ensures Within(ValJson(EncodeSimple(v)), 2)
  {
    if IsNumber(v) {
      NumberWithin(v);
    } else if IsText(v) {
      TextualWithin(v);
    } else {
      OtherWithin(v);
    }
  }

  lemma {:induction false} OtherWithin(v: ScVal)
    requires !IsContainer(v) && !IsNumber(v) && !IsText(v)
    ensures Within(ValJson(EncodeSimple(v)), 2)
  {
    var c := EncodeSimple(v);
    if c.fields == [] {
      assert [Member("type", Leaf)] + FieldsJson([]) == [Member("type", Leaf)];
      OneWithin(Member("type", Leaf), 0);
    } else {
      if v.Address? { AddressWithin(v.address); } else { FlatFieldWithin(c.fields[0]); }
      FieldWithin(c.kind, c.fields[0], 1);
    }
  }

  /** Four JSON levels per level of the value, and four for the value itself. */
  lemma {:induction false} ValWithin(v: ScVal, depth: nat)
    requires EncodeVal(v, depth).Ok?
    ensures Within(ValJson(EncodeVal(v, depth).value), 4 * Height(v) + 4)
    decreases v, 1
  {
    if v.Vec? { VecWithin(v, depth); }
    else if v.Map? { MapWithin(v, depth); }
    else if v.ContractInstance? { InstanceWithin(v, depth); }
    else {
      SimpleWithin(v);
    }
  }

  lemma {:induction false} VecWithin(v: ScVal, depth: nat)
    requires v.Vec? && EncodeVal(v, depth).Ok?
    ensures Within(ValJson(EncodeVal(v, depth).value), 4 * Height(v) + 4)
    decreases v, 0
  {
    var f := EncodeVal(v, depth).value.fields[0];
    if v.vec.Items? {
      ValsWithin(v.vec.vals, depth + 1, 4 * Height(v) + 3);
    }
    FieldWithin(TVec, f, 4 * Height(v) + 3);
  }

  lemma {:induction false} MapWithin(v: ScVal, depth: nat)
    requires v.Map? && EncodeVal(v, depth).Ok?
    ensures Within(ValJson(EncodeVal(v, depth).value), 4 * Height(v) + 4)
    decreases v, 0
  {
    var f := EncodeVal(v, depth).value.fields[0];
    if v.entries.Entries? {
      EntriesWithin(v.entries.pairs, depth + 1, 4 * Height(v) + 3);
    }
    FieldWithin(TMap, f, 4 * Height(v) + 3);
  }

  lemma {:induction false} InstanceWithin(v: ScVal, depth: nat)
    requires v.ContractInstance? && EncodeVal(v, depth).Ok?
    ensures Within(ValJson(EncodeVal(v, depth).value), 4 * Height(v) + 4)
    decreases v, 0
  {
    InstanceDocWithin(v.executable, v.storage, depth + 1);
  }

  lemma {:induction false} InstanceDocWithin(executable: Executable, storage: ScMap, depth: nat)
    requires EncodeStorage(storage, depth).Ok?
    ensures var c := CInstance(EncodeExecutable(executable), EncodeStorage(storage, depth).value);
            Within(ValJson(CVal(TInstance, [FInstance(c)])), 4 * HeightOfMap(storage) + 4)
    decreases storage, 1
  {
    var n := 4 * HeightOfMap(storage);
    var c := CInstance(EncodeExecutable(executable), EncodeStorage(storage, depth).value);
    ExecutableWithin(executable);
    StorageWithin(storage, depth);
    InstanceObjectWithin(c, n + 2);
    FieldWithin(TInstance, FInstance(c), n + 3);
  }

  lemma {:induction false} StorageWithin(m: ScMap, depth: nat)
    requires EncodeStorage(m, depth).Ok?
    ensures var c := EncodeStorage(m, depth).value;
            c.CEntries? ==> Within(Arr(EntriesJson(c.pairs)), 4 * HeightOfMap(m) + 2)
    decreases m, 0
  {
    if m.Entries? {
      EntriesWithin(m.pairs, depth, 4 * HeightOfMap(m) + 2);
    }
  }

  lemma {:induction false} InstanceObjectWithin(c: CInstance, n: nat)
    requires Within(ExecutableJson(c.executable), n)
    requires c.storage.CEntries? ==> Within(Arr(EntriesJson(c.storage.pairs)), n)
    ensures Within(InstanceJson(c), n + 1)
  {
    var e := Member("executable", ExecutableJson(c.executable));
    if c.storage.NoMap? {
      assert InstanceJson(c) == Obj([e]);
      OneWithin(e, n);
    } else {
      assert InstanceJson(c) == Obj([e, Member("storage", Arr(EntriesJson(c.storage.pairs)))]);
      TwoWithin(e, Member("storage", Arr(EntriesJson(c.storage.pairs))), n);
    }
  }

  lemma {:induction false} ValsWithin(vs: seq<ScVal>, depth: nat, n: nat)
    requires EncodeVals(vs, depth).Ok? && (vs == [] || 4 * HeightOfVals(vs) + 5 <= n)
    ensures Within(Arr(ValsJson(EncodeVals(vs, depth).value)), n)
    decreases vs
  {
    if vs != [] {
      var first, others := EncodeVal(vs[0], depth).value, EncodeVals(vs[1..], depth).value;
      assert ([first] + others)[1..] == others;
      ValWithin(vs[0], depth);
      ValsWithin(vs[1..], depth, n);
      ConsWithin(ValJson(first), ValsJson(others), n);
    }
  }

  lemma {:induction false} EntryWithin(e: MapEntry, depth: nat, n: nat)
    requires EncodeEntry(e, depth).Ok? && 4 * HeightOfEntry(e) + 5 <= n
    ensures Within(EntryJson(EncodeEntry(e, depth).value), n)
    decreases e
  {
    var c := EncodeEntry(e, depth).value;
    ValWithin(e.key, depth);
    ValWithin(e.val, depth);
    TwoWithin(Member("key", ValJson(c.key)), Member("val", ValJson(c.val)), n - 1);
  }

  lemma {:induction false} EntriesWithin(es: seq<MapEntry>, depth: nat, n: nat)
    requires EncodeEntries(es, depth).Ok? && (es == [] || 4 * HeightOfEntries(es) + 6 <= n)
    ensures Within(Arr(EntriesJson(EncodeEntries(es, depth).value)), n)
    decreases es
  {
    if es != [] {
      var first, others := EncodeEntry(es[0], depth).value, EncodeEntries(es[1..], depth).value;
      assert ([first] + others)[1..] == others;
      EntryWithin(es[0], depth, n - 1);
      EntriesWithin(es[1..], depth, n);
      ConsWithin(EntryJson(first), EntriesJson(others), n);
    }
  }

  lemma {:induction false} PreimageWithin(p: ContractIdPreimage)
    requires p.FromAddress?
    ensures EncodePreimage(p).Ok? && Within(PreimageJson(EncodePreimage(p).value), 2)
  {
    AddressWithin(p.deployer);
    var a := Member("address", AddressJson(EncodeAddress(p.deployer)));
    ThreeWithin(Member("type", Leaf), a, Member("salt", Leaf), 1);
    assert PreimageJson(EncodePreimage(p).value) == Obj([Member("type", Leaf), a, Member("salt", Leaf)]);
  }

  lemma {:induction false} ArgsWithin(args: seq<ScVal>, depth: nat, n: nat)
    requires EncodeVals(args, depth).Ok? && 4 * HeightOfArgs(args) <= n
    ensures Within(Arr(ValsJson(EncodeVals(args, depth).value)), n)
  {
    ValsWithin(args, depth, n);
  }

  lemma {:induction false} FourWithin(a: Member, b: Member, c: Member, d: Member, n: nat)
    requires a.key != b.key && a.key != c.key && a.key != d.key && b.key != c.key && b.key != d.key && c.key != d.key
    requires Within(a.value, n) && Within(b.value, n) && Within(c.value, n) && Within(d.value, n)
    ensures Within(Obj([a, b, c, d]), n + 1)
  {
    ObjMeans([a, b, c, d], n + 1);
  }

  lemma {:induction false} CallJson(a: CAddress, t: CText, args: seq<CVal>)
    ensures FunctionJson(BlankFunction(ContractFnType).(contractAddress := Some(a), functionName := Some(t),
                                                        args := Some(args)))
            == Obj([Member("type", Leaf), Member("contract_address", AddressJson(a)),
                    Member("function_name", TextJson(t)),
                    Member("args", Arr(ValsJson(args)))])
  {
  }

  lemma {:induction false} CreateJson(p: CPreimage, e: CExecutable)
    ensures FunctionJson(BlankFunction(CreateContractType).(idPreimage := Some(p), executable := Some(e)))
            == Obj([Member("type", Leaf), Member("contract_id_preimage", PreimageJson(p)),
                    Member("executable", ExecutableJson(e))])
  {
  }

  lemma {:induction false} CreateV2Json(p: CPreimage, e: CExecutable, args: seq<CVal>)
    ensures FunctionJson(BlankFunction(CreateContractV2Type).(idPreimage := Some(p), executable := Some(e),
                                                              constructorArgs := Some(args)))
            == Obj([Member("type", Leaf), Member("contract_id_preimage", PreimageJson(p)),
                    Member("executable", ExecutableJson(e)),
                    Member("constructor_args", Arr(ValsJson(args)))])
  {
  }

  lemma {:induction false} CallWithin(contract: ScAddress, name: seq<byte>, args: seq<CVal>, n: nat)
    requires n > 0 && Within(Arr(ValsJson(args)), n)
    ensures var c := BlankFunction(ContractFnType).(contractAddress := Some(EncodeAddress(contract)),
                                                    functionName := Some(EncodeText(name)), args := Some(args));
            Within(FunctionJson(c), n + 1)
  {
    var a, t := EncodeAddress(contract), EncodeText(name);
    AddressWithin(contract);
    TextWithin(name);
    CallJson(a, t, args);
    FourWithin(Member("type", Leaf), Member("contract_address", AddressJson(a)), Member("function_name", TextJson(t)),
               Member("args", Arr(ValsJson(args))), n);
  }

  lemma {:induction false} CreateWithin(p: CPreimage, executable: Executable, n: nat)
    requires n >= 2 && Within(PreimageJson(p), 2)
    ensures var c := BlankFunction(CreateContractType).(idPreimage := Some(p),
                                                        executable := Some(EncodeExecutable(executable)));
            Within(FunctionJson(c), n + 1)
  {
    var e := EncodeExecutable(executable);
    ExecutableWithin(executable);
    CreateJson(p, e);
    ThreeWithin(Member("type", Leaf), Member("contract_id_preimage", PreimageJson(p)),
                Member("executable", ExecutableJson(e)), n);
  }

  lemma {:induction false} CreateV2Within(p: CPreimage, executable: Executable, args: seq<CVal>, n: nat)
    requires n >= 2 && Within(PreimageJson(p), 2) && Within(Arr(ValsJson(args)), n)
    ensures var c := BlankFunction(CreateContractV2Type).(idPreimage := Some(p),
                                                          executable := Some(EncodeExecutable(executable)),
                                                          constructorArgs := Some(args));
            Within(FunctionJson(c), n + 1)
  {
    var e := EncodeExecutable(executable);
    ExecutableWithin(executable);
    CreateV2Json(p, e, args);
    FourWithin(Member("type", Leaf), Member("contract_id_preimage", PreimageJson(p)),
               Member("executable", ExecutableJson(e)),
               Member("constructor_args", Arr(ValsJson(args))), n);
  }

  lemma {:induction false} FunctionWithin(f: AuthorizedFunction, depth: nat, n: nat)
    requires EncodeFunction(f, depth).Ok? && n >= 4 * HeightOfFunction(f) + 3
    ensures Within(FunctionJson(EncodeFunction(f, depth).value), n)
  {
    match f
    case ContractFn(contract, name, args) =>
      ArgsWithin(args, depth + 1, n - 1);
      CallWithin(contract, name, EncodeVals(args, depth + 1).value, n - 1);
    case CreateContract(idPreimage, executable) =>
      PreimageWithin(idPreimage);
      CreateWithin(EncodePreimage(idPreimage).value, executable, n - 1);
    case CreateContractV2(idPreimage, executable, args) =>
      PreimageWithin(idPreimage);
      ArgsWithin(args, depth + 1, n - 1);
      CreateV2Within(EncodePreimage(idPreimage).value, executable, EncodeVals(args, depth + 1).value, n - 1);
  }

  lemma {:induction false} InvocationWithin(i: Invocation, depth: nat, n: nat)
    requires EncodeInvocation(i, depth).Ok? && n >= 4 * HeightOfInvocation(i) + 4
    ensures Within(InvocationJson(EncodeInvocation(i, depth).value), n)
    decreases i
  {
    var c := EncodeInvocation(i, depth).value;
    FunctionWithin(i.function_, depth + 1, n - 1);
    SubsWithin(i.subs, depth + 1, n - 1);
    InvocationObjectWithin(c, n - 1);
  }

  lemma {:induction false} InvocationObjectWithin(c: CInvocation, n: nat)
    requires Within(FunctionJson(c.function_), n) && Within(Arr(SubsJson(c.subs)), n)
    ensures Within(InvocationJson(c), n + 1)
  {
    TwoWithin(Member("function", FunctionJson(c.function_)), Member("sub_invocations", Arr(SubsJson(c.subs))), n);
  }

  lemma {:induction false} SubsWithin(subs: seq<Invocation>, depth: nat, n: nat)
    requires EncodeSubs(subs, depth).Ok? && n >= 4 * HeightOfSubs(subs) + 1
    ensures Within(Arr(SubsJson(EncodeSubs(subs, depth).value)), n)
    decreases subs
  {
    if subs != [] {
      var first, others := EncodeInvocation(subs[0], depth).value, EncodeSubs(subs[1..], depth).value;
      assert ([first] + others)[1..] == others;
      InvocationWithin(subs[0], depth, n - 1);
      SubsWithin(subs[1..], depth, n);
      ConsWithin(InvocationJson(first), SubsJson(others), n);
    }
  }

  lemma {:induction false} DelegateWithin(d: DelegateNode, depth: nat, n: nat)
    requires EncodeDelegate(d, depth).Ok? && n >= 4 * HeightOfDelegate(d) + 1
    ensures Within(DelegateJson(EncodeDelegate(d, depth).value), n)
    decreases d
  {
    var c := EncodeDelegate(d, depth).value;
    AddressWithin(d.address);
    ValWithin(d.signature, depth + 1);
    DelegatesWithin(d.nested, depth + 1, n - 1);
    ThreeWithin(Member("address", AddressJson(c.address)), Member("signature", ValJson(c.signature)),
                Member("nested", Arr(DelegatesJson(c.nested))), n - 1);
  }

  lemma {:induction false} DelegatesWithin(ds: seq<DelegateNode>, depth: nat, n: nat)
    requires EncodeDelegates(ds, depth).Ok? && n >= 4 * HeightOfDelegates(ds) + 2
    ensures Within(Arr(DelegatesJson(EncodeDelegates(ds, depth).value)), n)
    decreases ds
  {
    if ds != [] {
      var first, others := EncodeDelegate(ds[0], depth).value, EncodeDelegates(ds[1..], depth).value;
      assert ([first] + others)[1..] == others;
      DelegateWithin(ds[0], depth, n - 1);
      DelegatesWithin(ds[1..], depth, n);
      ConsWithin(DelegateJson(first), DelegatesJson(others), n);
    }
  }

  lemma {:induction false} SixWithin(a: Member, b: Member, c: Member, d: Member, e: Member, last: seq<Member>, n: nat)
    requires |last| <= 1 && DistinctKeys([a, b, c, d, e] + last)
    requires Within(a.value, n) && Within(b.value, n) && Within(c.value, n) && Within(d.value, n) && Within(e.value, n)
    requires forall m :: m in last ==> Within(m.value, n)
    ensures Within(Obj([a, b, c, d, e] + last), n + 1)
  {
    ObjMeans([a, b, c, d, e] + last, n + 1);
  }

  lemma {:induction false} CredentialKeysDistinct(address: Json, signature: Json, delegates: Json)
    ensures DistinctKeys([Member("type", Leaf), Member("address", address), Member("nonce", Leaf),
                          Member("signature_expiration_ledger", Leaf), Member("signature", signature),
                          Member("delegates", delegates)])
  {
  }

  /** The credentials object, with or without a delegates array. */
  lemma {:induction false} CredentialWithin(c: Credentials, n: nat)
    requires EncodeCredentials(c, 0).Ok? && n >= 4 * HeightOfCredentials(c) + 1
    ensures Within(CredentialJson(EncodeCredentials(c, 0).value), n)
  {
    var doc := EncodeCredentials(c, 0).value;
    if c.SourceAccount? {
      assert CredentialJson(doc) == Obj([Member("type", Leaf)]);
      OneWithin(Member("type", Leaf), 0);
    } else {
      var kind := if c.Legacy? then AddressType_ else if c.V2? then AddressV2Type else WithDelegatesType;
      AddressFieldsWithin(kind, c.creds, n - 1);
      if c.WithDelegateTree? { DelegatesWithin(c.delegates, 1, n - 1); }
      CredentialObjectWithin(doc, n - 1);
    }
  }

  lemma {:induction false} AddressFieldsWithin(kind: CredentialType, creds: AddressCredentials, n: nat)
    requires EncodeAddressCredentials(kind, creds, 0).Ok? && n >= 4 * Height(creds.signature) + 4
    ensures var doc := EncodeAddressCredentials(kind, creds, 0).value;
            && doc.address.Some? && doc.nonce.Some? && doc.expiration.Some? && doc.signature.Some?
            && doc.delegates.None?
            && Within(AddressJson(doc.address.value), n) && Within(ValJson(doc.signature.value), n)
  {
    AddressWithin(creds.address);
    ValWithin(creds.signature, 1);
  }

  lemma {:induction false} CredentialObjectWithin(doc: CCredential, n: nat)
    requires doc.address.Some? && doc.nonce.Some? && doc.expiration.Some? && doc.signature.Some?
    requires Within(AddressJson(doc.address.value), n) && Within(ValJson(doc.signature.value), n)
    requires doc.delegates.Some? ==> Within(Arr(DelegatesJson(doc.delegates.value)), n)
    ensures Within(CredentialJson(doc), n + 1)
  {
    var a, s := Member("address", AddressJson(doc.address.value)), Member("signature", ValJson(doc.signature.value));
    var last := if doc.delegates.Some? then [Member("delegates", Arr(DelegatesJson(doc.delegates.value)))] else [];
    var t, nonce := Member("type", Leaf), Member("nonce", Leaf);
    var expiration := Member("signature_expiration_ledger", Leaf);
    CredentialKeysDistinct(a.value, s.value, if last == [] then Leaf else last[0].value);
    SixWithin(t, a, nonce, expiration, s, last, n);
    assert CredentialJson(doc) == Obj([t, a, nonce, expiration, s] + last);
  }

  /** A document's nesting is linear in the traversal limit, and far inside the scanner's limit. */
  lemma {:induction false} DocumentWithin(e: Entry)
    requires Encode(e).Ok?
    ensures Within(DocumentJson(Encode(e).value), 4 * MAX_DEPTH + 5)
    ensures Within(DocumentJson(Encode(e).value), MAX_JSON_DEPTH)
  {
    var c := Encode(e).value;
    EncodesExactly(e);
    var n := 4 * MAX_DEPTH + 4;
    CredentialWithin(e.credentials, n);
    InvocationWithin(e.root, 0, n);
    ThreeWithin(Member("schema_version", Leaf), Member("credentials", CredentialJson(c.credentials)),
                Member("root_invocation", InvocationJson(c.root)), n);
  }
}
