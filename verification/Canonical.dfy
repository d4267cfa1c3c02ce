/**
 canonical.go: the canonical document of an authorization entry, its encoder and its decoder.

 A document is the tree the JSON text spells: one record per JSON object, an absent field being
 None. Type names are enumerated. XDR blobs are the value they spell. Both directions thread the
 traversal depth exactly as the library does.
 */
module Canonical {
  import opened Wrappers
  import opened Bytes
  import opened Xdr
  import Text

  datatype Fault = TooDeep | Malformed | Unsupported | Unencodable

  // ---------- Documents ----------

  /** A base64 XDR field, by what it decodes to. */
  datatype XdrText = AddressXdr(a: ScAddress) | ValueXdr(v: ScVal) | AssetXdr(asset: seq<byte>) | BadXdr

  datatype AddressType = AccountType | ContractType | XdrType | OtherAddressType(name: string)

  datatype CAddress = CAddress(kind: AddressType, account: Option<Strkey>, contract: Option<Strkey>,
                               xdr: Option<XdrText>)

  datatype CText = CText(utf8: Option<seq<byte>>, base64: Option<string>)

  datatype Parts128 = Parts128(hi: string, lo: string)
  datatype Parts256 = Parts256(hiHi: string, hiLo: string, loHi: string, loLo: string)

  datatype ExecutableType = WasmType | StellarAssetType | ExternalRefType | OtherExecutableType(name: string)

  datatype CExecutable = CExecutable(kind: ExecutableType, wasmHash: Option<string>, owner: Option<CAddress>,
                                     tag: Option<CText>)

  datatype ValType =
    | TBool | TVoid | TError | TU32 | TI32 | TU64 | TI64 | TTimepoint | TDuration | TU128 | TI128 | TU256 | TI256
    | TBytes | TString | TSymbol | TVec | TMap | TAddress | TInstance | TLedgerKeyInstance | TLedgerKeyNonce
    | TExecutableTag | OtherValType(name: string)

  /** A value object: its type and its value fields, each of which JSON lets stand at most once. */
  datatype CVal = CVal(kind: ValType, fields: seq<Field>)

  /** A value field, under the name its constructor gives it, and what it holds. */
  datatype Field =
    | FBool(b: bool)
    | FU32(u32: u32)
    | FI32(i32: i32)
    | FU64(text: string)
    | FI64(text: string)
    | FTimepoint(text: string)
    | FDuration(text: string)
    | FU128(parts128: Parts128)
    | FI128(parts128: Parts128)
    | FU256(parts256: Parts256)
    | FI256(parts256: Parts256)
    | FBytes(text: string)
    | FString(str: CText)
    | FSymbol(str: CText)
    | FExecutableTag(str: CText)
    | FVec(vals: seq<CVal>)
    | FMap(pairs: seq<CMapEntry>)
    | FNil
    | FAddress(address: CAddress)
    | FInstance(instance: CInstance)
    | FXdr(xdr: XdrText)

  datatype CMap = NoMap | CEntries(pairs: seq<CMapEntry>)

  datatype CMapEntry = CMapEntry(key: CVal, val: CVal)

  datatype CInstance = CInstance(executable: CExecutable, storage: CMap)

  datatype PreimageType = FromAddressType | FromAssetType | OtherPreimageType(name: string)

  datatype CPreimage = CPreimage(kind: PreimageType, address: Option<CAddress>, salt: Option<string>,
                                 xdr: Option<XdrText>)

  datatype FunctionType = ContractFnType | CreateContractType | CreateContractV2Type | OtherFunctionType(name: string)

  datatype CFunction = CFunction(
    kind: FunctionType, contractAddress: Option<CAddress>, functionName: Option<CText>, args: Option<seq<CVal>>,
    idPreimage: Option<CPreimage>, executable: Option<CExecutable>, constructorArgs: Option<seq<CVal>>)

  datatype CInvocation = CInvocation(function_: CFunction, subs: seq<CInvocation>)

  datatype CDelegate = CDelegate(address: CAddress, signature: CVal, nested: seq<CDelegate>)

  datatype CredentialType =
    | SourceAccountType | AddressType_ | AddressV2Type | WithDelegatesType | OtherCredentialType(name: string)

  datatype CCredential = CCredential(
    kind: CredentialType, address: Option<CAddress>, nonce: Option<string>, expiration: Option<u32>,
    signature: Option<CVal>, delegates: Option<seq<CDelegate>>)

  const SCHEMA_VERSION: int := 1

  datatype CEntry = CEntry(schemaVersion: int, credentials: CCredential, root: CInvocation)

  // ---------- Text ----------

  predicate Continuation(b: byte) {
    0x80 <= b < 0xC0
  }

  /** utf8.Valid: well-formed sequences of one to four bytes, no surrogates, no overlong forms. */
  predicate ValidUtf8(s: seq<byte>) {
    if s == [] then true
    else if s[0] < 0x80 then ValidUtf8(s[1..])
    else if 0xC2 <= s[0] < 0xE0 then |s| >= 2 && Continuation(s[1]) && ValidUtf8(s[2..])
    else if 0xE0 <= s[0] < 0xF0 then
      && |s| >= 3 && Continuation(s[1]) && Continuation(s[2])
      && (s[0] == 0xE0 ==> s[1] >= 0xA0) && (s[0] == 0xED ==> s[1] < 0xA0) && ValidUtf8(s[3..])
    else
      && 0xF0 <= s[0] < 0xF5 && |s| >= 4 && Continuation(s[1]) && Continuation(s[2]) && Continuation(s[3])
      && (s[0] == 0xF0 ==> s[1] >= 0x90) && (s[0] == 0xF4 ==> s[1] < 0x90) && ValidUtf8(s[4..])
  }

  function EncodeText(s: seq<byte>): (t: CText) {
    if ValidUtf8(s) then CText(Some(s), None) else CText(None, Some(Text.Base64(s, false, true)))
  }

  /** A JSON string is always valid UTF-8, so the utf8 field is taken as it is. */
  function DecodeText(t: CText): (s: Result<seq<byte>, Fault>) {
    if t.utf8.Some? == t.base64.Some? then Err(Malformed)
    else if t.utf8.Some? then Ok(t.utf8.value)
    else DecodeBase64(t.base64.value)
  }

  function Need<T>(o: Option<T>): (r: Result<T, Fault>) {
    if o.Some? then Ok(o.value) else Err(Malformed)
  }

  function DecodeBase64(s: string): (r: Result<seq<byte>, Fault>) {
    Need(Text.DecodeBase64(s))
  }

  function DecodeHash(s: string): (r: Result<Bytes32, Fault>) {
    match Text.DecodeHex(s, 32)
    case Some(h) => Ok(h)
    case None => Err(Malformed)
  }

  function DecodeU64(s: string): (r: Result<u64, Fault>) {
    match Text.DecodeUint64(s)
    case Some(n) => Ok(n)
    case None => Err(Malformed)
  }

  function DecodeI64(s: string): (r: Result<i64, Fault>) {
    match Text.DecodeInt64(s)
    case Some(n) => Ok(n)
    case None => Err(Malformed)
  }

  // ---------- Addresses and executables ----------

  function EncodeAddress(a: ScAddress): (c: CAddress) {
    match FormatAddress(a)
    case Ok(s) =>
      if a.Account? then CAddress(AccountType, Some(s), None, None) else CAddress(ContractType, None, Some(s), None)
    case Err(_) => CAddress(XdrType, None, None, Some(AddressXdr(a)))
  }

  function DecodeAddress(c: CAddress): (r: Result<ScAddress, Fault>) {
    match c.kind
    case AccountType =>
      if c.account.None? || c.contract.Some? || c.xdr.Some? then Err(Malformed)
      else
        (match ParseAddress(c.account.value)
         case Ok(a) => if a.Account? then Ok(a) else Err(Malformed)
         case Err(_) => Err(Malformed))
    case ContractType =>
      if c.contract.None? || c.account.Some? || c.xdr.Some? then Err(Malformed)
      else
        (match ParseAddress(c.contract.value)
         case Ok(a) => if a.Contract? then Ok(a) else Err(Malformed)
         case Err(_) => Err(Malformed))
    case XdrType =>
      if c.xdr.None? || c.account.Some? || c.contract.Some? || !c.xdr.value.AddressXdr? then Err(Malformed)
      else Ok(c.xdr.value.a)
    case OtherAddressType(_) => Err(Malformed)
  }

  function EncodeExecutable(e: Executable): (c: CExecutable) {
    match e
    case Wasm(hash) => CExecutable(WasmType, Some(Text.Hex(hash, false)), None, None)
    case StellarAsset => CExecutable(StellarAssetType, None, None, None)
    case ExternalRef(owner, refTag) => CExecutable(ExternalRefType, None, Some(EncodeAddress(owner)),
                                                   Some(EncodeText(refTag)))
  }

  function DecodeExecutable(c: CExecutable): (r: Result<Executable, Fault>) {
    match c.kind
    case WasmType =>
      if c.wasmHash.None? || c.owner.Some? || c.tag.Some? then Err(Malformed)
      else
        var hash :- DecodeHash(c.wasmHash.value);
        Ok(Wasm(hash))
    case StellarAssetType =>
      if c.wasmHash.Some? || c.owner.Some? || c.tag.Some? then Err(Malformed) else Ok(StellarAsset)
    case ExternalRefType =>
      if c.wasmHash.Some? || c.owner.None? || c.tag.None? then Err(Malformed)
      else
        var owner :- DecodeAddress(c.owner.value);
        var tag :- DecodeText(c.tag.value);
        Ok(ExternalRef(owner, tag))
    case OtherExecutableType(_) => Err(Malformed)
  }

  lemma {:induction false} TextRoundTrip(s: seq<byte>)
    ensures DecodeText(EncodeText(s)) == Ok(s)
  {
    if !ValidUtf8(s) {
      Text.Base64RoundTrip(s);
    }
  }

  lemma {:induction false} AddressRoundTrip(a: ScAddress)
    ensures DecodeAddress(EncodeAddress(a)) == Ok(a)
  {
  }

  lemma {:induction false} ExecutableRoundTrip(e: Executable)
    ensures DecodeExecutable(EncodeExecutable(e)) == Ok(e)
  {
    match e
    case Wasm(hash) => Text.HexRoundTrip(hash);
    case StellarAsset =>
    case ExternalRef(owner, refTag) =>
      AddressRoundTrip(owner);
      TextRoundTrip(refTag);
  }

  // ---------- Values ----------

  predicate IsContainer(v: ScVal) {
    v.Vec? || v.Map? || v.ContractInstance?
  }

  predicate IsNumber(v: ScVal) {
    v.U64? || v.I64? || v.Timepoint? || v.Duration? || v.U128? || v.I128? || v.U256? || v.I256?
  }

  predicate IsText(v: ScVal) {
    v.Bytes? || v.String? || v.Symbol? || v.ExecutableTag?
  }

  /** The 64-bit and wider arms, in decimal. */
  function EncodeNumber(v: ScVal): (c: CVal)
    requires IsNumber(v)
  {
    match v
    case U64(n) => CVal(TU64, [FU64(Text.Decimal(n))])
    case I64(n) => CVal(TI64, [FI64(Text.SignedDecimal(n))])
    case Timepoint(n) => CVal(TTimepoint, [FTimepoint(Text.Decimal(n))])
    case Duration(n) => CVal(TDuration, [FDuration(Text.Decimal(n))])
    case U128(hi, lo) => CVal(TU128, [FU128(Parts128(Text.Decimal(hi), Text.Decimal(lo)))])
    case I128(hi, lo) => CVal(TI128, [FI128(Parts128(Text.SignedDecimal(hi), Text.Decimal(lo)))])
    case U256(a, b, c, d) =>
      CVal(TU256, [FU256(Parts256(Text.Decimal(a), Text.Decimal(b), Text.Decimal(c), Text.Decimal(d)))])
    case I256(a, b, c, d) =>
      CVal(TI256, [FI256(Parts256(Text.SignedDecimal(a), Text.Decimal(b), Text.Decimal(c), Text.Decimal(d)))])
  }

  function EncodeTextual(v: ScVal): (c: CVal)
    requires IsText(v)
  {
    match v
    case Bytes(b) => CVal(TBytes, [FBytes(Text.Base64(b, false, true))])
    case String(s) => CVal(TString, [FString(EncodeText(s))])
    case Symbol(s) => CVal(TSymbol, [FSymbol(EncodeText(s))])
    case ExecutableTag(t) => CVal(TExecutableTag, [FExecutableTag(EncodeText(t))])
  }

  function EncodeSimple(v: ScVal): (c: CVal)
    requires !IsContainer(v)
  {
    if IsNumber(v) then EncodeNumber(v)
    else if IsText(v) then EncodeTextual(v)
    else
      match v
      case Bool(b) => CVal(TBool, [FBool(b)])
      case Void => CVal(TVoid, [])
      case U32(n) => CVal(TU32, [FU32(n)])
      case I32(n) => CVal(TI32, [FI32(n)])
      case Address(a) => CVal(TAddress, [FAddress(EncodeAddress(a))])
      case LedgerKeyContractInstance => CVal(TLedgerKeyInstance, [])
      case Error(_, _) => CVal(TError, [FXdr(ValueXdr(v))])
      case LedgerKeyNonce(_) => CVal(TLedgerKeyNonce, [FXdr(ValueXdr(v))])
  }

  function DecodeU128(p: Parts128): (r: Result<ScVal, Fault>) {
    var hi :- DecodeU64(p.hi);
    var lo :- DecodeU64(p.lo);
    Ok(U128(hi, lo))
  }

  function DecodeI128(p: Parts128): (r: Result<ScVal, Fault>) {
    var hi :- DecodeI64(p.hi);
    var lo :- DecodeU64(p.lo);
    Ok(I128(hi, lo))
  }

  function DecodeU256(p: Parts256): (r: Result<ScVal, Fault>) {
    var a :- DecodeU64(p.hiHi);
    var b :- DecodeU64(p.hiLo);
    var c :- DecodeU64(p.loHi);
    var d :- DecodeU64(p.loLo);
    Ok(U256(a, b, c, d))
  }

  function DecodeI256(p: Parts256): (r: Result<ScVal, Fault>) {
    var a :- DecodeI64(p.hiHi);
    var b :- DecodeU64(p.hiLo);
    var c :- DecodeU64(p.loHi);
    var d :- DecodeU64(p.loLo);
    Ok(I256(a, b, c, d))
  }

  /**
   The types other than vec, map and contract_instance. requireScValFields admits a value only
   with exactly the field of its type, or with none for the two types that carry none.
   */
  function DecodeSimple(c: CVal): (r: Result<ScVal, Fault>) {
    if c.fields == [] then
      if c.kind.TVoid? then Ok(Void)
      else if c.kind.TLedgerKeyInstance? then Ok(LedgerKeyContractInstance)
      else Err(Malformed)
    else if |c.fields| != 1 then Err(Malformed)
    else DecodeField(c.kind, c.fields[0])
  }

  function DecodeField(kind: ValType, f: Field): (r: Result<ScVal, Fault>) {
    match f
    case FBool(b) => if kind.TBool? then Ok(Bool(b)) else Err(Malformed)
    case FU32(n) => if kind.TU32? then Ok(U32(n)) else Err(Malformed)
    case FI32(n) => if kind.TI32? then Ok(I32(n)) else Err(Malformed)
    case FAddress(a) =>
      if !kind.TAddress? then Err(Malformed)
      else
        var address :- DecodeAddress(a);
        Ok(Address(address))
    case FXdr(ValueXdr(v)) =>
      if (kind.TError? && v.Error?) || (kind.TLedgerKeyNonce? && v.LedgerKeyNonce?) then Ok(v) else Err(Malformed)
    case FBytes(t) =>
      if !kind.TBytes? then Err(Malformed)
      else
        var b :- DecodeBase64(t);
        Ok(Bytes(b))
    case FString(t) =>
      if !kind.TString? then Err(Malformed)
      else
        var s :- DecodeText(t);
        Ok(String(s))
    case FSymbol(t) =>
      if !kind.TSymbol? then Err(Malformed)
      else
        var s :- DecodeText(t);
        Ok(Symbol(s))
    case FExecutableTag(t) =>
      if !kind.TExecutableTag? then Err(Malformed)
      else
        var s :- DecodeText(t);
        Ok(ExecutableTag(s))
    case _ => DecodeNumber(kind, f)
  }

  function DecodeNumber(kind: ValType, f: Field): (r: Result<ScVal, Fault>) {
    match f
    case FU64(t) =>
      if !kind.TU64? then Err(Malformed)
      else
        var n :- DecodeU64(t);
        Ok(U64(n))
    case FI64(t) =>
      if !kind.TI64? then Err(Malformed)
      else
        var n :- DecodeI64(t);
        Ok(I64(n))
    case FTimepoint(t) =>
      if !kind.TTimepoint? then Err(Malformed)
      else
        var n :- DecodeU64(t);
        Ok(Timepoint(n))
    case FDuration(t) =>
      if !kind.TDuration? then Err(Malformed)
      else
        var n :- DecodeU64(t);
        Ok(Duration(n))
    case FU128(p) => if kind.TU128? then DecodeU128(p) else Err(Malformed)
    case FI128(p) => if kind.TI128? then DecodeI128(p) else Err(Malformed)
    case FU256(p) => if kind.TU256? then DecodeU256(p) else Err(Malformed)
    case FI256(p) => if kind.TI256? then DecodeI256(p) else Err(Malformed)
    case _ => Err(Malformed)
  }

  function EncodeVal(v: ScVal, depth: nat): (r: Result<CVal, Fault>)
    decreases v
  {
    if depth > MAX_DEPTH then Err(TooDeep)
    else
      match v
      case Vec(NilVec) => Ok(CVal(TVec, [FNil]))
      case Vec(Items(vals)) =>
        var encoded :- EncodeVals(vals, depth + 1);
        Ok(CVal(TVec, [FVec(encoded)]))
      case Map(NilMap) => Ok(CVal(TMap, [FNil]))
      case Map(Entries(pairs)) =>
        var encoded :- EncodeEntries(pairs, depth + 1);
        Ok(CVal(TMap, [FMap(encoded)]))
      case ContractInstance(executable, storage) =>
        var encoded :- EncodeStorage(storage, depth + 1);
        Ok(CVal(TInstance, [FInstance(CInstance(EncodeExecutable(executable), encoded))]))
      case _ => Ok(EncodeSimple(v))
  }

  function EncodeVals(vs: seq<ScVal>, depth: nat): (r: Result<seq<CVal>, Fault>)
    decreases vs
  {
    if vs == [] then Ok([])
    else
      var first :- EncodeVal(vs[0], depth);
      var others :- EncodeVals(vs[1..], depth);
      Ok([first] + others)
  }

  function EncodeEntry(e: MapEntry, depth: nat): (r: Result<CMapEntry, Fault>)
    decreases e
  {
    var key :- EncodeVal(e.key, depth);
    var val :- EncodeVal(e.val, depth);
    Ok(CMapEntry(key, val))
  }

  function EncodeEntries(es: seq<MapEntry>, depth: nat): (r: Result<seq<CMapEntry>, Fault>)
    decreases es
  {
    if es == [] then Ok([])
    else
      var first :- EncodeEntry(es[0], depth);
      var others :- EncodeEntries(es[1..], depth);
      Ok([first] + others)
  }

  function EncodeStorage(m: ScMap, depth: nat): (r: Result<CMap, Fault>)
    decreases m
  {
    match m
    case NilMap => Ok(NoMap)
    case Entries(pairs) =>
      var encoded :- EncodeEntries(pairs, depth);
      Ok(CEntries(encoded))
  }

  function DecodeVal(c: CVal, depth: nat): (r: Result<ScVal, Fault>)
    decreases c
  {
    if depth > MAX_DEPTH then Err(TooDeep)
    else if c.kind.TVec? || c.kind.TMap? || c.kind.TInstance? then
      if |c.fields| != 1 then Err(Malformed) else DecodeContainer(c.kind, c.fields[0], depth + 1)
    else DecodeSimple(c)
  }

  function DecodeContainer(kind: ValType, f: Field, depth: nat): (r: Result<ScVal, Fault>)
    decreases f
  {
    match (kind, f)
    case (TVec, FNil) => Ok(Vec(NilVec))
    case (TVec, FVec(vals)) =>
      var items :- DecodeVals(vals, depth);
      Ok(Vec(Items(items)))
    case (TMap, FNil) => Ok(Map(NilMap))
    case (TMap, FMap(pairs)) =>
      var entries :- DecodeEntries(pairs, depth);
      Ok(Map(Entries(entries)))
    case (TInstance, FInstance(instance)) =>
      var executable :- DecodeExecutable(instance.executable);
      var storage :- DecodeStorage(instance.storage, depth);
      Ok(ContractInstance(executable, storage))
    case _ => Err(Malformed)
  }

  function DecodeVals(cs: seq<CVal>, depth: nat): (r: Result<seq<ScVal>, Fault>)
    decreases cs
  {
    if cs == [] then Ok([])
    else
      var first :- DecodeVal(cs[0], depth);
      var others :- DecodeVals(cs[1..], depth);
      Ok([first] + others)
  }

  function DecodeEntry(c: CMapEntry, depth: nat): (r: Result<MapEntry, Fault>)
    decreases c
  {
    var key :- DecodeVal(c.key, depth);
    var val :- DecodeVal(c.val, depth);
    Ok(MapEntry(key, val))
  }

  function DecodeEntries(cs: seq<CMapEntry>, depth: nat): (r: Result<seq<MapEntry>, Fault>)
    decreases cs
  {
    if cs == [] then Ok([])
    else
      var first :- DecodeEntry(cs[0], depth);
      var others :- DecodeEntries(cs[1..], depth);
      Ok([first] + others)
  }

  function DecodeStorage(m: CMap, depth: nat): (r: Result<ScMap, Fault>)
    decreases m
  {
    match m
    case NoMap => Ok(NilMap)
    case CEntries(pairs) =>
      var decoded :- DecodeEntries(pairs, depth);
      Ok(Entries(decoded))
  }

  // ---------- Invocations ----------

  function EncodePreimage(p: ContractIdPreimage): (r: Result<CPreimage, Fault>) {
    match p
    case FromAddress(deployer, salt) =>
      Ok(CPreimage(FromAddressType, Some(EncodeAddress(deployer)), Some(Text.Hex(salt, false)), None))
    // The asset is handed over as a pointer, which the marshalling helper does not know.
    case FromAsset(_) => Err(Unencodable)
  }

  function DecodePreimage(c: CPreimage): (r: Result<ContractIdPreimage, Fault>) {
    match c.kind
    case FromAddressType =>
      if c.address.None? || c.salt.None? || c.xdr.Some? then Err(Malformed)
      else
        var deployer :- DecodeAddress(c.address.value);
        var salt :- DecodeHash(c.salt.value);
        Ok(FromAddress(deployer, salt))
    case FromAssetType =>
      if c.address.Some? || c.salt.Some? || c.xdr.None? || !c.xdr.value.AssetXdr? then Err(Malformed)
      else Ok(FromAsset(c.xdr.value.asset))
    case OtherPreimageType(_) => Err(Malformed)
  }

  function BlankFunction(kind: FunctionType): CFunction {
    CFunction(kind, None, None, None, None, None, None)
  }

  function EncodeFunction(f: AuthorizedFunction, depth: nat): (r: Result<CFunction, Fault>) {
    match f
    case ContractFn(contract, name, args) =>
      var encoded :- EncodeVals(args, depth + 1);
      Ok(BlankFunction(ContractFnType).(contractAddress := Some(EncodeAddress(contract)),
                                        functionName := Some(EncodeText(name)), args := Some(encoded)))
    case CreateContract(idPreimage, executable) =>
      var encoded :- EncodePreimage(idPreimage);
      Ok(BlankFunction(CreateContractType).(idPreimage := Some(encoded),
                                            executable := Some(EncodeExecutable(executable))))
    case CreateContractV2(idPreimage, executable, args) =>
      var encoded :- EncodePreimage(idPreimage);
      var encodedArgs :- EncodeVals(args, depth + 1);
      Ok(BlankFunction(CreateContractV2Type).(idPreimage := Some(encoded),
                                              executable := Some(EncodeExecutable(executable)),
                                              constructorArgs := Some(encodedArgs)))
  }

  function DecodeFunction(c: CFunction, depth: nat): (r: Result<AuthorizedFunction, Fault>) {
    match c.kind
    case ContractFnType =>
      if c.idPreimage.Some? || c.executable.Some? || c.constructorArgs.Some?
         || c.contractAddress.None? || c.functionName.None? || c.args.None? then Err(Malformed)
      else
        var contract :- DecodeAddress(c.contractAddress.value);
        var name :- DecodeText(c.functionName.value);
        var args :- DecodeVals(c.args.value, depth + 1);
        Ok(ContractFn(contract, name, args))
    case CreateContractType =>
      if c.contractAddress.Some? || c.functionName.Some? || c.args.Some? || c.constructorArgs.Some?
         || c.idPreimage.None? || c.executable.None? then Err(Malformed)
      else
        var idPreimage :- DecodePreimage(c.idPreimage.value);
        var executable :- DecodeExecutable(c.executable.value);
        Ok(CreateContract(idPreimage, executable))
    case CreateContractV2Type =>
      if c.contractAddress.Some? || c.functionName.Some? || c.args.Some?
         || c.idPreimage.None? || c.executable.None? || c.constructorArgs.None? then Err(Malformed)
      else
        var idPreimage :- DecodePreimage(c.idPreimage.value);
        var executable :- DecodeExecutable(c.executable.value);
        var args :- DecodeVals(c.constructorArgs.value, depth + 1);
        Ok(CreateContractV2(idPreimage, executable, args))
    case OtherFunctionType(_) => Err(Malformed)
  }

  function EncodeInvocation(i: Invocation, depth: nat): (r: Result<CInvocation, Fault>)
    decreases i
  {
    if depth > MAX_DEPTH then Err(TooDeep)
    else
      var f :- EncodeFunction(i.function_, depth + 1);
      var subs :- EncodeSubs(i.subs, depth + 1);
      Ok(CInvocation(f, subs))
  }

  function EncodeSubs(subs: seq<Invocation>, depth: nat): (r: Result<seq<CInvocation>, Fault>)
    decreases subs
  {
    if subs == [] then Ok([])
    else
      var first :- EncodeInvocation(subs[0], depth);
      var others :- EncodeSubs(subs[1..], depth);
      Ok([first] + others)
  }

  function DecodeInvocation(c: CInvocation, depth: nat): (r: Result<Invocation, Fault>)
    decreases c
  {
    if depth > MAX_DEPTH then Err(TooDeep)
    else
      var f :- DecodeFunction(c.function_, depth + 1);
      var subs :- DecodeSubs(c.subs, depth + 1);
      Ok(Invocation(f, subs))
  }

  function DecodeSubs(cs: seq<CInvocation>, depth: nat): (r: Result<seq<Invocation>, Fault>)
    decreases cs
  {
    if cs == [] then Ok([])
    else
      var first :- DecodeInvocation(cs[0], depth);
      var others :- DecodeSubs(cs[1..], depth);
      Ok([first] + others)
  }

  // ---------- Credentials and entries ----------

  function EncodeDelegate(n: DelegateNode, depth: nat): (r: Result<CDelegate, Fault>)
    decreases n
  {
    var signature :- EncodeVal(n.signature, depth + 1);
    var nested :- EncodeDelegates(n.nested, depth + 1);
    Ok(CDelegate(EncodeAddress(n.address), signature, nested))
  }

  function EncodeDelegates(nodes: seq<DelegateNode>, depth: nat): (r: Result<seq<CDelegate>, Fault>)
    decreases nodes
  {
    if depth > MAX_DEPTH then Err(TooDeep)
    else if nodes == [] then Ok([])
    else
      var first :- EncodeDelegate(nodes[0], depth);
      var others :- EncodeDelegates(nodes[1..], depth);
      Ok([first] + others)
  }

  function DecodeDelegate(c: CDelegate, depth: nat): (r: Result<DelegateNode, Fault>)
    decreases c
  {
    var address :- DecodeAddress(c.address);
    var signature :- DecodeVal(c.signature, depth + 1);
    var nested :- DecodeDelegates(c.nested, depth + 1);
    Ok(DelegateNode(address, signature, nested))
  }

  function DecodeDelegates(cs: seq<CDelegate>, depth: nat): (r: Result<seq<DelegateNode>, Fault>)
    decreases cs
  {
    if depth > MAX_DEPTH then Err(TooDeep)
    else if cs == [] then Ok([])
    else
      var first :- DecodeDelegate(cs[0], depth);
      var others :- DecodeDelegates(cs[1..], depth);
      Ok([first] + others)
  }

  function EncodeAddressCredentials(kind: CredentialType, creds: AddressCredentials,
                                    depth: nat): (r: Result<CCredential, Fault>) {
    var signature :- EncodeVal(creds.signature, depth + 1);
    Ok(CCredential(kind, Some(EncodeAddress(creds.address)), Some(Text.SignedDecimal(creds.nonce)),
                   Some(creds.expiration),
                   Some(signature), None))
  }

  function EncodeCredentials(c: Credentials, depth: nat): (r: Result<CCredential, Fault>) {
    if depth > MAX_DEPTH then Err(TooDeep)
    else
      match c
      case SourceAccount => Ok(CCredential(SourceAccountType, None, None, None, None, None))
      case Legacy(creds) => EncodeAddressCredentials(AddressType_, creds, depth)
      case V2(creds) => EncodeAddressCredentials(AddressV2Type, creds, depth)
      case WithDelegateTree(creds, delegates) =>
        var encoded :- EncodeAddressCredentials(WithDelegatesType, creds, depth);
        var nodes :- EncodeDelegates(delegates, depth + 1);
        Ok(encoded.(delegates := Some(nodes)))
      case EmptyAddressArm => Err(Unencodable)
      case UnknownType => Err(Unsupported)
  }

  function DecodeAddressCredentials(c: CCredential, depth: nat): (r: Result<AddressCredentials, Fault>) {
    if c.address.None? || c.nonce.None? || c.expiration.None? || c.signature.None? then Err(Malformed)
    else
      var address :- DecodeAddress(c.address.value);
      var nonce :- DecodeI64(c.nonce.value);
      var signature :- DecodeVal(c.signature.value, depth + 1);
      Ok(AddressCredentials(address, nonce, c.expiration.value, signature))
  }

  function DecodeCredentials(c: CCredential, depth: nat): (r: Result<Credentials, Fault>) {
    if depth > MAX_DEPTH then Err(TooDeep)
    else
      match c.kind
      case SourceAccountType =>
        if c.address.Some? || c.nonce.Some? || c.expiration.Some? || c.signature.Some? || c.delegates.Some?
        then Err(Malformed)
        else Ok(SourceAccount)
      case AddressType_ =>
        if c.delegates.Some? then Err(Malformed)
        else
          var creds :- DecodeAddressCredentials(c, depth);
          Ok(Legacy(creds))
      case AddressV2Type =>
        if c.delegates.Some? then Err(Malformed)
        else
          var creds :- DecodeAddressCredentials(c, depth);
          Ok(V2(creds))
      case WithDelegatesType =>
        if c.delegates.None? then Err(Malformed)
        else
          var creds :- DecodeAddressCredentials(c, depth);
          var nodes :- DecodeDelegates(c.delegates.value, depth + 1);
          Ok(WithDelegateTree(creds, nodes))
      case OtherCredentialType(_) => Err(Malformed)
  }

  /** MarshalCanonicalJSON, up to the JSON text. */
  function Encode(e: Entry): (r: Result<CEntry, Fault>) {
    var credentials :- EncodeCredentials(e.credentials, 0);
    var root :- EncodeInvocation(e.root, 0);
    Ok(CEntry(SCHEMA_VERSION, credentials, root))
  }

  /** UnmarshalCanonicalJSON, from the parsed document on. */
  function Decode(c: CEntry): (r: Result<Entry, Fault>) {
    if c.schemaVersion != SCHEMA_VERSION then Err(Malformed)
    else
      var credentials :- DecodeCredentials(c.credentials, 0);
      var root :- DecodeInvocation(c.root, 0);
      Ok(Entry(credentials, root))
  }
}
