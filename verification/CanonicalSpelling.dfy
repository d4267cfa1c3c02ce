/**
 The converse question about the canonical codec of canonical.go: which documents come back
 from the entry they decode to. The decoder accepts more spellings than the encoder writes;
 `CanonicalEntry` says, of the document alone, that none of the others occurs in it.
 */
module CanonicalSpelling {
  import opened Wrappers
  import opened Bytes
  import opened Xdr
  import opened Canonical
  import Text

  // ---------- Documents in the encoder's own spelling ----------

  /** An address with a strkey form is not spelt as XDR. */
  predicate CanonicalAddress(c: CAddress) {
    c.xdr.Some? && c.xdr.value.AddressXdr? ==> FormatAddress(c.xdr.value.a).Err?
  }

  /** Valid UTF-8 is spelt as utf8, anything else as base64. */
  predicate CanonicalText(t: CText) {
    && (t.utf8.Some? ==> ValidUtf8(t.utf8.value))
    && (t.base64.Some? ==>
          var data := Text.Base64Bytes(t.base64.value);
          data.Some? ==> !ValidUtf8(data.value))
  }

  predicate CanonicalExecutable(c: CExecutable) {
    (c.owner.Some? ==> CanonicalAddress(c.owner.value)) && (c.tag.Some? ==> CanonicalText(c.tag.value))
  }

  /** The encoder never writes an asset preimage. */
  predicate CanonicalPreimage(c: CPreimage) {
    !c.kind.FromAssetType? && (c.address.Some? ==> CanonicalAddress(c.address.value))
  }

  predicate CanonicalField(f: Field)
    decreases f
  {
    match f
    case FString(t) => CanonicalText(t)
    case FSymbol(t) => CanonicalText(t)
    case FExecutableTag(t) => CanonicalText(t)
    case FAddress(a) => CanonicalAddress(a)
    case FVec(vals) => CanonicalVals(vals)
    case FMap(pairs) => CanonicalPairs(pairs)
    case FInstance(i) => CanonicalExecutable(i.executable) && CanonicalStorage(i.storage)
    case _ => true
  }

  predicate CanonicalVal(c: CVal)
    decreases c
  {
    c.fields == [] || CanonicalField(c.fields[0])
  }

  predicate CanonicalVals(cs: seq<CVal>)
    decreases cs
  {
    cs == [] || (CanonicalVal(cs[0]) && CanonicalVals(cs[1..]))
  }

  predicate CanonicalPair(c: CMapEntry)
    decreases c
  {
    CanonicalVal(c.key) && CanonicalVal(c.val)
  }

  predicate CanonicalPairs(cs: seq<CMapEntry>)
    decreases cs
  {
    cs == [] || (CanonicalPair(cs[0]) && CanonicalPairs(cs[1..]))
  }

  predicate CanonicalStorage(m: CMap)
    decreases m
  {
    match m
    case NoMap => true
    case CEntries(pairs) => CanonicalPairs(pairs)
  }

  predicate CanonicalFunction(c: CFunction) {
    && (c.contractAddress.Some? ==> CanonicalAddress(c.contractAddress.value))
    && (c.functionName.Some? ==> CanonicalText(c.functionName.value))
    && (c.args.Some? ==> CanonicalVals(c.args.value))
    && (c.idPreimage.Some? ==> CanonicalPreimage(c.idPreimage.value))
    && (c.executable.Some? ==> CanonicalExecutable(c.executable.value))
    && (c.constructorArgs.Some? ==> CanonicalVals(c.constructorArgs.value))
  }

  predicate CanonicalInvocation(c: CInvocation)
    decreases c
  {
    CanonicalFunction(c.function_) && CanonicalSubs(c.subs)
  }

  predicate CanonicalSubs(cs: seq<CInvocation>)
    decreases cs
  {
    cs == [] || (CanonicalInvocation(cs[0]) && CanonicalSubs(cs[1..]))
  }

  predicate CanonicalDelegate(c: CDelegate)
    decreases c
  {
    CanonicalAddress(c.address) && CanonicalVal(c.signature) && CanonicalDelegates(c.nested)
  }

  predicate CanonicalDelegates(cs: seq<CDelegate>)
    decreases cs
  {
    cs == [] || (CanonicalDelegate(cs[0]) && CanonicalDelegates(cs[1..]))
  }

  predicate CanonicalCredential(c: CCredential) {
    && (c.address.Some? ==> CanonicalAddress(c.address.value))
    && (c.signature.Some? ==> CanonicalVal(c.signature.value))
    && (c.delegates.Some? ==> CanonicalDelegates(c.delegates.value))
  }

  predicate CanonicalEntry(c: CEntry) {
    CanonicalCredential(c.credentials) && CanonicalInvocation(c.root)
  }

  // ---------- Addresses, texts, executables, preimages ----------

  lemma {:induction false} AddressSpelling(c: CAddress)
    requires DecodeAddress(c).Ok?
    ensures EncodeAddress(DecodeAddress(c).value) == c <==> CanonicalAddress(c)
  {
  }

  lemma {:induction false} TextSpelling(t: CText)
    requires DecodeText(t).Ok?
    ensures EncodeText(DecodeText(t).value) == t <==> CanonicalText(t)
  {
  }

  lemma {:induction false} HashSpelling(s: string)
    requires DecodeHash(s).Ok?
    ensures Text.Hex(DecodeHash(s).value, false) == s
  {
  }

  lemma {:induction false} ExecutableSpelling(c: CExecutable)
    requires DecodeExecutable(c).Ok?
    ensures EncodeExecutable(DecodeExecutable(c).value) == c <==> CanonicalExecutable(c)
  {
    match c.kind
    case WasmType => HashSpelling(c.wasmHash.value);
    case StellarAssetType =>
    case ExternalRefType =>
      AddressSpelling(c.owner.value);
      TextSpelling(c.tag.value);
  }

  lemma {:induction false} PreimageSpelling(c: CPreimage)
    requires DecodePreimage(c).Ok?
    ensures EncodePreimage(DecodePreimage(c).value) == Ok(c) <==> CanonicalPreimage(c)
    ensures EncodePreimage(DecodePreimage(c).value).Ok? <==> !c.kind.FromAssetType?
  {
    if c.kind.FromAddressType? {
      AddressSpelling(c.address.value);
      HashSpelling(c.salt.value);
    }
  }

  // ---------- Values ----------

  /** Re-encoding what was decoded gives the document back exactly when it is in canonical spelling. */
  ghost predicate Reencodes<T>(r: Result<T, Fault>, c: T, canonical: bool) {
    r == Ok(c) <==> canonical
  }

  lemma {:induction false} ShortNumberSpelling(kind: ValType, f: Field)
    requires f.FU64? || f.FI64? || f.FTimepoint? || f.FDuration?
    requires DecodeNumber(kind, f).Ok?
    ensures IsNumber(DecodeNumber(kind, f).value) && EncodeNumber(DecodeNumber(kind, f).value) == CVal(kind, [f])
  {
  }

  lemma {:induction false} Number128Spelling(kind: ValType, f: Field)
    requires f.FU128? || f.FI128?
    requires DecodeNumber(kind, f).Ok?
    ensures IsNumber(DecodeNumber(kind, f).value) && EncodeNumber(DecodeNumber(kind, f).value) == CVal(kind, [f])
  {
  }

  lemma {:induction false} Number256Spelling(kind: ValType, f: Field)
    requires f.FU256? || f.FI256?
    requires DecodeNumber(kind, f).Ok?
    ensures IsNumber(DecodeNumber(kind, f).value) && EncodeNumber(DecodeNumber(kind, f).value) == CVal(kind, [f])
  {
  }

  lemma {:induction false} NumberSpelling(kind: ValType, f: Field)
    requires DecodeNumber(kind, f).Ok?
    ensures IsNumber(DecodeNumber(kind, f).value) && EncodeNumber(DecodeNumber(kind, f).value) == CVal(kind, [f])
  {
    if f.FU128? || f.FI128? { Number128Spelling(kind, f); }
    else if f.FU256? || f.FI256? { Number256Spelling(kind, f); }
    else { ShortNumberSpelling(kind, f); }
  }

  lemma {:induction false} TextFieldSpelling(kind: ValType, f: Field)
    requires f.FBytes? || f.FString? || f.FSymbol? || f.FExecutableTag?
    requires DecodeField(kind, f).Ok?
    ensures var v := DecodeField(kind, f).value;
            IsText(v) && (EncodeTextual(v) == CVal(kind, [f]) <==> CanonicalField(f))
  {
    if !f.FBytes? { TextSpelling(f.str); }
  }

  lemma {:induction false} WordFieldSpelling(kind: ValType, f: Field)
    requires f.FBool? || f.FU32? || f.FI32? || f.FXdr? || f.FAddress?
    requires DecodeField(kind, f).Ok?
    ensures var v := DecodeField(kind, f).value;
            !IsContainer(v) && !IsNumber(v) && !IsText(v) && (EncodeSimple(v) == CVal(kind, [f]) <==> CanonicalField(f))
  {
    if f.FAddress? { AddressSpelling(f.address); }
  }

  lemma {:induction false} FieldSpelling(kind: ValType, f: Field)
    requires DecodeField(kind, f).Ok?
    ensures var v := DecodeField(kind, f).value;
            !IsContainer(v) && (EncodeSimple(v) == CVal(kind, [f]) <==> CanonicalField(f))
  {
    if f.FBytes? || f.FString? || f.FSymbol? || f.FExecutableTag? {
      TextFieldSpelling(kind, f);
    } else if f.FBool? || f.FU32? || f.FI32? || f.FXdr? || f.FAddress? {
      WordFieldSpelling(kind, f);
    } else {
      NumberFieldSpelling(kind, f);
    }
  }

  lemma {:induction false} NumberFieldSpelling(kind: ValType, f: Field)
    requires DecodeNumber(kind, f).Ok?
    ensures DecodeField(kind, f) == DecodeNumber(kind, f) && CanonicalField(f)
    ensures var v := DecodeNumber(kind, f).value;
            IsNumber(v) && EncodeSimple(v) == CVal(kind, [f])
  {
    NumberSpelling(kind, f);
  }

  lemma {:induction false} SimpleSpelling(c: CVal)
    requires DecodeSimple(c).Ok?
    ensures var v := DecodeSimple(c).value;
            !IsContainer(v) && (EncodeSimple(v) == c <==> CanonicalVal(c))
  {
    if c.fields != [] {
      FieldSpelling(c.kind, c.fields[0]);
      assert c == CVal(c.kind, [c.fields[0]]);
    }
  }

  /**
   Whatever decodes at a depth encodes again at that depth, so the two counters agree, and to
   the same document exactly when that is in canonical spelling.
   */
  lemma {:induction false} ValSpelling(c: CVal, depth: nat)
    requires DecodeVal(c, depth).Ok?
    ensures var r := EncodeVal(DecodeVal(c, depth).value, depth);
            r.Ok? && Reencodes(r, c, CanonicalVal(c))
    decreases c, 1
  {
    if c.kind.TVec? { VecSpelling(c, depth); }
    else if c.kind.TMap? { MapSpelling(c, depth); }
    else if c.kind.TInstance? { InstanceSpelling(c, depth); }
    else { SimpleSpelling(c); }
  }

  lemma {:induction false} VecSpelling(c: CVal, depth: nat)
    requires c.kind.TVec? && DecodeVal(c, depth).Ok?
    ensures var r := EncodeVal(DecodeVal(c, depth).value, depth);
            r.Ok? && Reencodes(r, c, CanonicalVal(c))
    decreases c, 0
  {
    var f := c.fields[0];
    assert c == CVal(TVec, [f]);
    if f.FVec? { ValsSpelling(f.vals, depth + 1); }
  }

  lemma {:induction false} MapSpelling(c: CVal, depth: nat)
    requires c.kind.TMap? && DecodeVal(c, depth).Ok?
    ensures var r := EncodeVal(DecodeVal(c, depth).value, depth);
            r.Ok? && Reencodes(r, c, CanonicalVal(c))
    decreases c, 0
  {
    var f := c.fields[0];
    assert c == CVal(TMap, [f]);
    if f.FMap? { PairsSpelling(f.pairs, depth + 1); }
  }

  lemma {:induction false} InstanceSpelling(c: CVal, depth: nat)
    requires c.kind.TInstance? && DecodeVal(c, depth).Ok?
    ensures var r := EncodeVal(DecodeVal(c, depth).value, depth);
            r.Ok? && Reencodes(r, c, CanonicalVal(c))
    decreases c, 0
  {
    var i := c.fields[0].instance;
    assert c == CVal(TInstance, [FInstance(i)]);
    ExecutableSpelling(i.executable);
    StorageSpelling(i.storage, depth + 1);
  }

  lemma {:induction false} ValsSpelling(cs: seq<CVal>, depth: nat)
    requires DecodeVals(cs, depth).Ok?
    ensures var r := EncodeVals(DecodeVals(cs, depth).value, depth);
            r.Ok? && Reencodes(r, cs, CanonicalVals(cs))
    decreases cs
  {
    if cs != [] {
      var first, others := DecodeVal(cs[0], depth).value, DecodeVals(cs[1..], depth).value;
      assert ([first] + others)[1..] == others && cs == [cs[0]] + cs[1..];
      ValSpelling(cs[0], depth);
      ValsSpelling(cs[1..], depth);
    }
  }

  lemma {:induction false} PairSpelling(c: CMapEntry, depth: nat)
    requires DecodeEntry(c, depth).Ok?
    ensures var r := EncodeEntry(DecodeEntry(c, depth).value, depth);
            r.Ok? && Reencodes(r, c, CanonicalPair(c))
    decreases c
  {
    ValSpelling(c.key, depth);
    ValSpelling(c.val, depth);
  }

  lemma {:induction false} PairsSpelling(cs: seq<CMapEntry>, depth: nat)
    requires DecodeEntries(cs, depth).Ok?
    ensures var r := EncodeEntries(DecodeEntries(cs, depth).value, depth);
            r.Ok? && Reencodes(r, cs, CanonicalPairs(cs))
    decreases cs
  {
    if cs != [] {
      var first, others := DecodeEntry(cs[0], depth).value, DecodeEntries(cs[1..], depth).value;
      assert ([first] + others)[1..] == others && cs == [cs[0]] + cs[1..];
      PairSpelling(cs[0], depth);
      PairsSpelling(cs[1..], depth);
    }
  }

  lemma {:induction false} StorageSpelling(m: CMap, depth: nat)
    requires DecodeStorage(m, depth).Ok?
    ensures var r := EncodeStorage(DecodeStorage(m, depth).value, depth);
            r.Ok? && Reencodes(r, m, CanonicalStorage(m))
    decreases m
  {
    if m.CEntries? {
      PairsSpelling(m.pairs, depth);
    }
  }

  // ---------- Invocations ----------

  lemma {:induction false} FunctionSpelling(c: CFunction, depth: nat)
    requires DecodeFunction(c, depth).Ok?
    ensures Reencodes(EncodeFunction(DecodeFunction(c, depth).value, depth), c, CanonicalFunction(c))
  {
    match c.kind
    case ContractFnType =>
      AddressSpelling(c.contractAddress.value);
      TextSpelling(c.functionName.value);
      ValsSpelling(c.args.value, depth + 1);
    case CreateContractType =>
      PreimageSpelling(c.idPreimage.value);
      ExecutableSpelling(c.executable.value);
    case CreateContractV2Type =>
      PreimageSpelling(c.idPreimage.value);
      ExecutableSpelling(c.executable.value);
      ValsSpelling(c.constructorArgs.value, depth + 1);
  }

  lemma {:induction false} InvocationSpelling(c: CInvocation, depth: nat)
    requires DecodeInvocation(c, depth).Ok?
    ensures Reencodes(EncodeInvocation(DecodeInvocation(c, depth).value, depth), c, CanonicalInvocation(c))
    decreases c
  {
    FunctionSpelling(c.function_, depth + 1);
    SubsSpelling(c.subs, depth + 1);
  }

  lemma {:induction false} SubsSpelling(cs: seq<CInvocation>, depth: nat)
    requires DecodeSubs(cs, depth).Ok?
    ensures Reencodes(EncodeSubs(DecodeSubs(cs, depth).value, depth), cs, CanonicalSubs(cs))
    decreases cs
  {
    if cs != [] {
      var first, others := DecodeInvocation(cs[0], depth).value, DecodeSubs(cs[1..], depth).value;
      assert ([first] + others)[1..] == others && cs == [cs[0]] + cs[1..];
      InvocationSpelling(cs[0], depth);
      SubsSpelling(cs[1..], depth);
    }
  }

  // ---------- Credentials and entries ----------

  lemma {:induction false} DelegateSpelling(c: CDelegate, depth: nat)
    requires DecodeDelegate(c, depth).Ok?
    ensures var r := EncodeDelegate(DecodeDelegate(c, depth).value, depth);
            r.Ok? && Reencodes(r, c, CanonicalDelegate(c))
    decreases c
  {
    AddressSpelling(c.address);
    ValSpelling(c.signature, depth + 1);
    DelegatesSpelling(c.nested, depth + 1);
  }

  lemma {:induction false} DelegatesSpelling(cs: seq<CDelegate>, depth: nat)
    requires DecodeDelegates(cs, depth).Ok?
    ensures var r := EncodeDelegates(DecodeDelegates(cs, depth).value, depth);
            r.Ok? && Reencodes(r, cs, CanonicalDelegates(cs))
    decreases cs
  {
    if cs != [] {
      var first, others := DecodeDelegate(cs[0], depth).value, DecodeDelegates(cs[1..], depth).value;
      assert ([first] + others)[1..] == others && cs == [cs[0]] + cs[1..];
      DelegateSpelling(cs[0], depth);
      DelegatesSpelling(cs[1..], depth);
    }
  }

  lemma {:induction false} AddressFieldsSpelling(kind: CredentialType, c: CCredential, depth: nat)
    requires c.kind == kind && DecodeAddressCredentials(c, depth).Ok?
    ensures var r := EncodeAddressCredentials(kind, DecodeAddressCredentials(c, depth).value, depth);
            r.Ok? && (r.value == c.(delegates := None)
                      <==> CanonicalAddress(c.address.value) && CanonicalVal(c.signature.value))
  {
    AddressFieldsRead(c, depth);
    AddressSpelling(c.address.value);
    ValSpelling(c.signature.value, depth + 1);
    AddressFieldsWritten(kind, c, DecodeAddressCredentials(c, depth).value, depth);
  }

  lemma {:induction false} AddressFieldsRead(c: CCredential, depth: nat)
    requires DecodeAddressCredentials(c, depth).Ok?
    ensures c.address.Some? && c.nonce.Some? && c.expiration.Some? && c.signature.Some?
    ensures var creds := DecodeAddressCredentials(c, depth).value;
            && DecodeAddress(c.address.value) == Ok(creds.address) && Text.SignedDecimal(creds.nonce) == c.nonce.value
            && creds.expiration == c.expiration.value && DecodeVal(c.signature.value, depth + 1) == Ok(creds.signature)
  {
  }

  lemma {:induction false} AddressFieldsWritten(kind: CredentialType, c: CCredential, creds: AddressCredentials,
                                                depth: nat)
    requires c.kind == kind && c.address.Some? && c.nonce.Some? && c.expiration.Some? && c.signature.Some?
    requires Text.SignedDecimal(creds.nonce) == c.nonce.value && creds.expiration == c.expiration.value
    requires EncodeVal(creds.signature, depth + 1).Ok?
    ensures var r := EncodeAddressCredentials(kind, creds, depth);
            r.Ok? && (r.value == c.(delegates := None)
                      <==> EncodeAddress(creds.address) == c.address.value
                           && EncodeVal(creds.signature, depth + 1).value == c.signature.value)
  {
  }

  lemma {:induction false} PlainCredentialSpelling(c: CCredential, depth: nat)
    requires (c.kind.AddressType_? || c.kind.AddressV2Type?) && DecodeCredentials(c, depth).Ok?
    ensures Reencodes(EncodeCredentials(DecodeCredentials(c, depth).value, depth), c, CanonicalCredential(c))
  {
    AddressFieldsSpelling(c.kind, c, depth);
    assert c.(delegates := None) == c;
  }

  lemma {:induction false} TreeCredentialSpelling(c: CCredential, depth: nat)
    requires c.kind.WithDelegatesType? && DecodeCredentials(c, depth).Ok?
    ensures Reencodes(EncodeCredentials(DecodeCredentials(c, depth).value, depth), c, CanonicalCredential(c))
  {
    TreeRead(c, depth);
    AddressFieldsSpelling(c.kind, c, depth);
    DelegatesSpelling(c.delegates.value, depth + 1);
    TreeWritten(c, DecodeCredentials(c, depth).value, depth);
  }

  lemma {:induction false} TreeRead(c: CCredential, depth: nat)
    requires c.kind.WithDelegatesType? && DecodeCredentials(c, depth).Ok?
    ensures depth <= MAX_DEPTH && c.delegates.Some? && c.address.Some? && c.signature.Some?
    ensures var v := DecodeCredentials(c, depth).value;
            && v.WithDelegateTree? && DecodeAddressCredentials(c, depth) == Ok(v.creds)
            && DecodeDelegates(c.delegates.value, depth + 1) == Ok(v.delegates)
  {
  }

  lemma {:induction false} TreeWritten(c: CCredential, v: Credentials, depth: nat)
    requires depth <= MAX_DEPTH && v.WithDelegateTree? && c.delegates.Some?
    requires EncodeAddressCredentials(WithDelegatesType, v.creds, depth).Ok?
    requires EncodeDelegates(v.delegates, depth + 1).Ok?
    ensures EncodeCredentials(v, depth) == Ok(c)
            <==> EncodeAddressCredentials(WithDelegatesType, v.creds, depth).value == c.(delegates := None)
                 && EncodeDelegates(v.delegates, depth + 1).value == c.delegates.value
  {
  }

  lemma {:induction false} CredentialSpelling(c: CCredential, depth: nat)
    requires DecodeCredentials(c, depth).Ok?
    ensures Reencodes(EncodeCredentials(DecodeCredentials(c, depth).value, depth), c, CanonicalCredential(c))
  {
    match c.kind
    case SourceAccountType =>
    case WithDelegatesType => TreeCredentialSpelling(c, depth);
    case _ => PlainCredentialSpelling(c, depth);
  }

  /**
   Decoding and encoding again gives a document back exactly when it is in the encoder's own
   spelling. For the others the entry is right and the document is another one, or, with an
   asset preimage, there is none.
   */
  lemma {:induction false} ReencodesExactly(c: CEntry)
    requires Decode(c).Ok?
    ensures Encode(Decode(c).value) == Ok(c) <==> CanonicalEntry(c)
  {
    CredentialSpelling(c.credentials, 0);
    InvocationSpelling(c.root, 0);
  }

  /** The decoder reads more than the encoder writes: an account address spelt as XDR is accepted too. */
  lemma {:induction false} OtherSpellingsAccepted(key: Bytes32)
    ensures var c := CAddress(XdrType, None, None, Some(AddressXdr(Account(key))));
            DecodeAddress(c) == Ok(Account(key)) && EncodeAddress(Account(key)) != c
  {
  }
}
