/**
 The Stellar XDR values the library works on, as Dafny values: addresses, contract
 values, authorization entries and the preimages that are signed.
 */
module Xdr {
  import opened Wrappers
  import opened Bytes

  type u32 = x: int | 0 <= x < 0x1_0000_0000
  type i32 = x: int | -0x8000_0000 <= x < 0x8000_0000
  type u64 = x: int | 0 <= x < 0x1_0000_0000_0000_0000
  type i64 = x: int | -0x8000_0000_0000_0000 <= x < 0x8000_0000_0000_0000
  type Bytes32 = s: seq<byte> | |s| == 32 witness seq(32, _ => 0)

  /** The nesting limit every traversal applies (MaxDecodeDepth). */
  const MAX_DEPTH: nat := 64

  /** The library's sentinel errors, plus the signer's own failure. */
  datatype Error =
    | Cancelled
    | EmptyArm
    | SourceAccountCredentials
    | UnsupportedCredentials
    | EmptyPassphrase
    | InvalidExpiration
    | MissingSigner
    | BadAddress
    | NoMatchingCredentialNode
    | AlreadySigned
    | DuplicateDelegate
    | DelegateOrder
    | DecodeLimit
    | UnmatchedPlan
    | UnsignedNode
    | SignerFailed(code: int)

  // ---------- Addresses ----------

  datatype ScAddress =
    | Account(key: Bytes32)
    | Contract(id: Bytes32)
    | MuxedAccount(muxId: u64, muxKey: Bytes32)
    | ClaimableBalance(balance: Bytes32)
    | LiquidityPool(pool: Bytes32)

  /** XDR of the address union: the discriminant, then the arm. */
  function AddressLayout(a: ScAddress): (s: seq<byte>) {
    match a
    case Account(key) => [0, 0, 0, 0] + ([0, 0, 0, 0] + key)
    case Contract(id) => [0, 0, 0, 1] + id
    case MuxedAccount(muxId, muxKey) => [0, 0, 0, 2] + (ToBigEndian(muxId, 8) + muxKey)
    case ClaimableBalance(balance) => [0, 0, 0, 3] + ([0, 0, 0, 0] + balance)
    case LiquidityPool(pool) => [0, 0, 0, 4] + pool
  }

  lemma {:induction false} AddressLayoutInjective(a: ScAddress, b: ScAddress)
    requires AddressLayout(a) == AddressLayout(b)
    ensures a == b
  {
    assert AddressLayout(a)[3] == AddressLayout(b)[3];
    assert AddressLayout(a)[4..] == AddressLayout(b)[4..];
    match a
    case Account(key) =>
      SplitEqual([0, 0, 0, 0], key, [0, 0, 0, 0], b.key);
    case Contract(id) =>
    case MuxedAccount(muxId, muxKey) =>
      SplitEqual(ToBigEndian(muxId, 8), muxKey, ToBigEndian(b.muxId, 8), b.muxKey);
      Pow256Values();
      FromToBigEndian(muxId, 8);
      FromToBigEndian(b.muxId, 8);
    case ClaimableBalance(balance) =>
      SplitEqual([0, 0, 0, 0], balance, [0, 0, 0, 0], b.balance);
    case LiquidityPool(pool) =>
  }

  ghost predicate Injective(f: ScAddress -> seq<byte>) {
    forall a, b :: f(a) == f(b) ==> a == b
  }

  lemma {:induction false} AddressLayoutIsInjective()
    ensures Injective(AddressLayout)
  {
    forall a, b | AddressLayout(a) == AddressLayout(b) ensures a == b {
      AddressLayoutInjective(a, b);
    }
  }

  type AddressEncoding = f: ScAddress -> seq<byte> | Injective(f)
    witness (AddressLayoutIsInjective(); AddressLayout)

  /**
   The XDR encoding of addresses. Nothing below depends on the layout, only on two
   addresses having one encoding exactly when they are equal, so any such encoding
   is meant; `AddressLayout` shows there is one.
   */
  const Encoding: AddressEncoding

  function AddressBytes(a: ScAddress): seq<byte> {
    Encoding(a)
  }

  /** Comparing encodings is comparing addresses. */
  lemma {:induction false} AddressBytesInjective(a: ScAddress, b: ScAddress)
    ensures AddressBytes(a) == AddressBytes(b) <==> a == b
  {
    assert Injective(Encoding);
  }

  /**
   An address as a caller writes it, by what its strkey text decodes to. `Unusable`
   stands for every text that is not a G... or C... strkey: muxed and other strkey
   kinds, malformed text and the empty string.
   */
  datatype Strkey = GKey(key: Bytes32) | CKey(id: Bytes32) | Unusable(text: string)

  function ParseAddress(s: Strkey): (r: Result<ScAddress, Error>) {
    match s
    case GKey(key) => Ok(Account(key))
    case CKey(id) => Ok(Contract(id))
    case Unusable(_) => Err(BadAddress)
  }

  function FormatAddress(a: ScAddress): (r: Result<Strkey, Error>)
    ensures r.Ok? ==> ParseAddress(r.value) == Ok(a)
    ensures r.Ok? <==> a.Account? || a.Contract?
  {
    match a
    case Account(key) => Ok(GKey(key))
    case Contract(id) => Ok(CKey(id))
    case _ => Err(BadAddress)
  }

  // ---------- Contract values ----------

  datatype ScVal =
    | Bool(b: bool)
    | Void
    | Error(errorType: u32, errorCode: u32)
    | U32(u32: u32)
    | I32(i32: i32)
    | U64(u64: u64)
    | I64(i64: i64)
    | Timepoint(timepoint: u64)
    | Duration(duration: u64)
    | U128(hi: u64, lo: u64)
    | I128(signedHi: i64, lo: u64)
    | U256(hiHi: u64, hiLo: u64, loHi: u64, loLo: u64)
    | I256(signedHiHi: i64, hiLo: u64, loHi: u64, loLo: u64)
    | Bytes(bytes: seq<byte>)
    | String(str: seq<byte>)
    | Symbol(sym: seq<byte>)
    | Vec(vec: ScVec)
    | Map(entries: ScMap)
    | Address(address: ScAddress)
    | ContractInstance(executable: Executable, storage: ScMap)
    | LedgerKeyContractInstance
    | LedgerKeyNonce(nonce: i64)
    | ExecutableTag(tag: seq<byte>)

  /** Vectors and maps are behind pointers: a nil one is not an empty one. */
  datatype ScVec = NilVec | Items(vals: seq<ScVal>)
  datatype ScMap = NilMap | Entries(pairs: seq<MapEntry>)

  datatype MapEntry = MapEntry(key: ScVal, val: ScVal)

  datatype Executable =
    | Wasm(hash: Bytes32)
    | StellarAsset
    | ExternalRef(owner: ScAddress, refTag: seq<byte>)

  // ---------- Authorization entries ----------

  datatype AddressCredentials = AddressCredentials(
    address: ScAddress,
    nonce: i64,
    expiration: u32,
    signature: ScVal)

  datatype DelegateNode = DelegateNode(address: ScAddress, signature: ScVal, nested: seq<DelegateNode>)

  /**
   The credentials union. `EmptyAddressArm` is one of the three address arms with a
   nil body, `UnknownType` a discriminant outside the four defined ones.
   */
  datatype Credentials =
    | SourceAccount
    | Legacy(creds: AddressCredentials)
    | V2(creds: AddressCredentials)
    | WithDelegateTree(creds: AddressCredentials, delegates: seq<DelegateNode>)
    | EmptyAddressArm
    | UnknownType
  {
    /** The three arms that carry address credentials. */
    predicate HasAddress() {
      Legacy? || V2? || WithDelegateTree?
    }
  }

  datatype ContractIdPreimage =
    | FromAddress(deployer: ScAddress, salt: Bytes32)
    | FromAsset(asset: seq<byte>)

  datatype AuthorizedFunction =
    | ContractFn(contract: ScAddress, name: seq<byte>, args: seq<ScVal>)
    | CreateContract(idPreimage: ContractIdPreimage, executable: Executable)
    | CreateContractV2(idPreimage: ContractIdPreimage, executable: Executable, constructorArgs: seq<ScVal>)

  datatype Invocation = Invocation(function_: AuthorizedFunction, subs: seq<Invocation>)

  datatype Entry = Entry(credentials: Credentials, root: Invocation)

  // ---------- Preimages and payloads ----------

  /** The SHA-256 of the passphrase, kept symbolic: digests of distinct inputs are distinct. */
  datatype NetworkId = NetworkId(passphrase: string)

  datatype HashIdPreimage =
    | SorobanAuthorization(network: NetworkId, nonce: i64, expiration: u32, invocation: Invocation)
    | SorobanAuthorizationWithAddress(network: NetworkId, nonce: i64, expiration: u32,
                                      address: ScAddress, invocation: Invocation)

  /** The SHA-256 of the preimage's XDR, kept symbolic as above. */
  datatype Payload = Sha256(preimage: HashIdPreimage)

  /**
   A signer that behaves as a function: what it answers depends only on what it is asked.
   */
  datatype Signer = Signer(address: Strkey, sign: (HashIdPreimage, Payload) -> Result<ScVal, Error>)
}
