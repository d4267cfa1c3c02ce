/**
 attestation.go: the authenticator data of a registration (sections 6.1 and 6.5.1 of
 WebAuthn Level 2), and the COSE key inside it.

 `Parse` is the parser. `Layout` is the reference: the fields the standard lays out, with
 `Layout.Serialize` writing them one after the other.
 */
module AuthData {
  import opened Wrappers
  import opened Bytes
  import Cbor

  const MAX_CREDENTIAL_ID: nat := 1023

  const FLAG_UP: nat := 0x01
  const FLAG_UV: nat := 0x04
  const FLAG_BE: nat := 0x08
  const FLAG_BS: nat := 0x10
  const FLAG_AT: nat := 0x40
  const FLAG_ED: nat := 0x80

  predicate IsSet(flags: byte, flag: nat)
    requires flag > 0
  {
    flags / flag % 2 == 1
  }

  /** What the relying party expects. `onCurve` is the P-256 point check, which is library code. */
  datatype Ceremony = Ceremony(rpIdHash: seq<byte>, requireUserVerification: bool,
                               onCurve: (seq<byte>, seq<byte>) -> bool)

  datatype Registration = Registration(
    userVerified: bool, backupEligible: bool, backedUp: bool, signCount: nat,
    aaguid: seq<byte>, credentialId: seq<byte>, x: seq<byte>, y: seq<byte>)

  datatype Refusal = Malformed | Invalid | UnsupportedKey

  // ---------- The parser ----------

  datatype Point = Point(x: seq<byte>, y: seq<byte>)

  /** parseCOSEKeyES256. */
  function ParseKey(key: Cbor.Value, c: Ceremony): (r: Result<Point, Refusal>) {
    if !key.Map? then Err(Malformed)
    else if Cbor.Get(key.pairs, Cbor.Int(1)) != Some(Cbor.Int(2))
            || Cbor.Get(key.pairs, Cbor.Int(3)) != Some(Cbor.Int(-7))
            || Cbor.Get(key.pairs, Cbor.Int(-1)) != Some(Cbor.Int(1))
    then Err(UnsupportedKey)
    else
      match (Cbor.Get(key.pairs, Cbor.Int(-2)), Cbor.Get(key.pairs, Cbor.Int(-3)))
      case (Some(ByteString(x)), Some(ByteString(y))) =>
        if |x| != 32 || |y| != 32 || !c.onCurve(x, y) then Err(Malformed) else Ok(Point(x, y))
      case _ => Err(Malformed)
  }

  /** The RP ID hash and the flags are what this ceremony asks for. */
  predicate Addressed(data: seq<byte>, c: Ceremony)
    requires |data| >= 37
  {
    && data[..32] == c.rpIdHash
    && IsSet(data[32], FLAG_UP)
    && (c.requireUserVerification ==> IsSet(data[32], FLAG_UV))
    && IsSet(data[32], FLAG_AT)
  }

  /** parseRegistrationAuthData. */
  function Parse(data: seq<byte>, c: Ceremony): (r: Result<Registration, Refusal>) {
    if |data| < 37 then Err(Malformed)
    else if !Addressed(data, c) then Err(Invalid)
    else if |data| < 55 then Err(Malformed)
    else
      var idLength := FromBigEndian(data[53..55]);
      if idLength == 0 || idLength > MAX_CREDENTIAL_ID || |data[55..]| < idLength then Err(Malformed)
      else
        var id, rest := data[55..][..idLength], data[55..][idLength..];
        match Cbor.Decode(rest, 0)
        case None => Err(Malformed)
        case Some(key) =>
          var point :- ParseKey(key.value, c);
          if !ExtensionsExplain(data[32], key.rest) then Err(Malformed)
          else
            Ok(Registration(IsSet(data[32], FLAG_UV), IsSet(data[32], FLAG_BE), IsSet(data[32], FLAG_BS),
                            FromBigEndian(data[33..37]), data[37..53], id, point.x, point.y))
  }

  /** After the key comes nothing, or exactly the map that the ED flag announces. */
  predicate ExtensionsExplain(flags: byte, rest: seq<byte>) {
    if IsSet(flags, FLAG_ED) then
      var ext := Cbor.Decode(rest, 0);
      ext.Some? && ext.value.value.Map? && ext.value.rest == []
    else
      rest == []
  }

  // ---------- The reference layout ----------

  /** The bytes are one allowed CBOR spelling of the value. */
  ghost predicate Spelled(bytes: seq<byte>, value: Cbor.Value) {
    exists item :: Cbor.Allowed(item, 0) && Cbor.ValueOf(item) == value && bytes == Cbor.Encode(item)
  }

  /** A COSE_Key map for an EC2, ES256, P-256 key with these coordinates. */
  predicate IsEs256Key(key: Cbor.Value, x: seq<byte>, y: seq<byte>) {
    && key.Map?
    && Cbor.Pair(Cbor.Int(1), Cbor.Int(2)) in key.pairs
    && Cbor.Pair(Cbor.Int(3), Cbor.Int(-7)) in key.pairs
    && Cbor.Pair(Cbor.Int(-1), Cbor.Int(1)) in key.pairs
    && Cbor.Pair(Cbor.Int(-2), Cbor.ByteString(x)) in key.pairs
    && Cbor.Pair(Cbor.Int(-3), Cbor.ByteString(y)) in key.pairs
    && |x| == 32 && |y| == 32
  }

  datatype Layout = Layout(
    rpIdHash: seq<byte>, flags: byte, counter: seq<byte>, aaguid: seq<byte>, id: seq<byte>,
    key: seq<byte>, extensions: seq<byte>)
  {
    function Header(): seq<byte> {
      rpIdHash + [flags] + counter + aaguid + ToBigEndian(|id|, 2)
    }

    function Serialize(): seq<byte> {
      Header() + (id + (key + extensions))
    }

    predicate Sized() {
      |rpIdHash| == 32 && |counter| == 4 && |aaguid| == 16 && 1 <= |id| <= 1023
    }

    /** The flags byte has the bit of this weight. */
    predicate Has(weight: nat)
      requires weight > 0
    {
      flags / weight % 2 == 1
    }

    /** The registration this layout spells, for a key with coordinates x and y. */
    ghost predicate Describes(c: Ceremony, r: Registration) {
      && Sized()
      && rpIdHash == c.rpIdHash
      && Has(1) && Has(64) && (c.requireUserVerification ==> Has(4))
      && (exists v :: Spelled(key, v) && IsEs256Key(v, r.x, r.y)) && c.onCurve(r.x, r.y)
      && (if Has(128) then exists v :: Spelled(extensions, v) && v.Map? else extensions == [])
      && r.userVerified == Has(4) && r.backupEligible == Has(8) && r.backedUp == Has(16)
      && r.signCount == FromBigEndian(counter)
      && r.aaguid == aaguid
      && r.credentialId == id
    }
  }

  // ---------- Splitting the bytes ----------

  lemma {:induction false} HeaderFields(l: Layout)
    requires l.Sized()
    ensures var h := l.Header();
            && |h| == 55 && h[..32] == l.rpIdHash && h[32] == l.flags && h[33..37] == l.counter
            && h[37..53] == l.aaguid && h[53..55] == ToBigEndian(|l.id|, 2)
  {
  }

  lemma {:induction false} FieldsWithin(h: seq<byte>, rest: seq<byte>)
    requires |h| == 55
    ensures var d := h + rest;
            && d[..32] == h[..32] && d[32] == h[32] && d[33..37] == h[33..37] && d[37..53] == h[37..53]
            && d[53..55] == h[53..55] && d[55..] == rest
  {
  }

  lemma {:induction false} IdLength(l: Layout)
    requires l.Sized()
    ensures FromBigEndian(ToBigEndian(|l.id|, 2)) == |l.id|
  {
    Pow256Values();
    FromToBigEndian(|l.id|, 2);
  }

  /** Reading a serialized layout finds its fields where the parser looks for them. */
  lemma {:induction false} SerializedFields(l: Layout)
    requires l.Sized()
    ensures var d := l.Serialize();
            && |d| >= 55 && d[..32] == l.rpIdHash && d[32] == l.flags && d[33..37] == l.counter
            && d[37..53] == l.aaguid && FromBigEndian(d[53..55]) == |l.id|
            && |d[55..]| >= |l.id| && d[55..][..|l.id|] == l.id && d[55..][|l.id|..] == l.key + l.extensions
  {
    HeaderFields(l);
    FieldsWithin(l.Header(), l.id + (l.key + l.extensions));
    IdLength(l);
  }

  lemma {:induction false} HeaderOf(data: seq<byte>, l: Layout)
    requires |data| >= 55
    requires l.rpIdHash == data[..32] && l.flags == data[32] && l.counter == data[33..37] && l.aaguid == data[37..53]
    requires |l.id| == FromBigEndian(data[53..55])
    ensures l.Header() == data[..55]
  {
    ToFromBigEndian(data[53..55]);
    assert data[..33] == data[..32] + [data[32]];
    assert data[..37] == data[..33] + data[33..37];
    assert data[..53] == data[..37] + data[37..53];
    assert data[..55] == data[..53] + data[53..55];
  }

  lemma {:induction false} SerializeOf(data: seq<byte>, l: Layout)
    requires |data| >= 55 && l.Header() == data[..55]
    requires |data[55..]| >= |l.id| && l.id == data[55..][..|l.id|] && l.key + l.extensions == data[55..][|l.id|..]
    ensures l.Serialize() == data
  {
    assert data == data[..55] + data[55..];
    assert data[55..] == data[55..][..|l.id|] + data[55..][|l.id|..];
  }

  // ---------- The key ----------

  lemma {:induction false} GetOnlyPair(pairs: seq<Cbor.Pair>, p: Cbor.Pair)
    requires p in pairs && forall i, j :: 0 <= i < j < |pairs| ==> pairs[i].key != pairs[j].key
    ensures Cbor.Get(pairs, p.key) == Some(p.value)
  {
    Cbor.GetFinds(pairs, p.key);
    var q := Cbor.Pair(p.key, Cbor.Get(pairs, p.key).value);
    var i :| 0 <= i < |pairs| && pairs[i] == p;
    var j :| 0 <= j < |pairs| && pairs[j] == q;
    assert i == j;
  }

  lemma {:induction false} PairsOfAt(pairs: seq<Cbor.ItemPair>, i: nat)
    requires i < |pairs|
    ensures |Cbor.PairsOf(pairs)| == |pairs| && Cbor.PairsOf(pairs)[i] == Cbor.PairOf(pairs[i])
  {
    if |pairs| > 1 {
      PairsOfAt(pairs[1..], if i == 0 then 0 else i - 1);
    } else {
      assert Cbor.PairsOf(pairs[1..]) == [];
    }
  }

  /** A decoded map has distinct keys. */
  lemma {:induction false} SpelledKeysDistinct(bytes: seq<byte>, v: Cbor.Value)
    requires Spelled(bytes, v) && v.Map?
    ensures forall i, j :: 0 <= i < j < |v.pairs| ==> v.pairs[i].key != v.pairs[j].key
  {
    var item :| Cbor.Allowed(item, 0) && Cbor.ValueOf(item) == v && bytes == Cbor.Encode(item);
    var pairs := item.pairs;
    assert v.pairs == Cbor.PairsOf(pairs);
    if pairs != [] {
      PairsOfAt(pairs, 0);
      forall i, j | 0 <= i < j < |v.pairs| ensures v.pairs[i].key != v.pairs[j].key {
        PairsOfAt(pairs, i);
        PairsOfAt(pairs, j);
        assert Cbor.ValueOf(pairs[i].key) != Cbor.ValueOf(pairs[j].key);
      }
    }
  }

  /** Looking the parameters up one by one decides whether the map is such a key. */
  lemma {:induction false} ParseKeyMeaning(bytes: seq<byte>, key: Cbor.Value, c: Ceremony, x: seq<byte>, y: seq<byte>)
    requires Spelled(bytes, key)
    ensures ParseKey(key, c) == Ok(Point(x, y)) <==> IsEs256Key(key, x, y) && c.onCurve(x, y)
  {
    if IsEs256Key(key, x, y) {
      SpelledKeysDistinct(bytes, key);
      GetOnlyPair(key.pairs, Cbor.Pair(Cbor.Int(1), Cbor.Int(2)));
      GetOnlyPair(key.pairs, Cbor.Pair(Cbor.Int(3), Cbor.Int(-7)));
      GetOnlyPair(key.pairs, Cbor.Pair(Cbor.Int(-1), Cbor.Int(1)));
      GetOnlyPair(key.pairs, Cbor.Pair(Cbor.Int(-2), Cbor.ByteString(x)));
      GetOnlyPair(key.pairs, Cbor.Pair(Cbor.Int(-3), Cbor.ByteString(y)));
    }
    if ParseKey(key, c) == Ok(Point(x, y)) {
      Cbor.GetFinds(key.pairs, Cbor.Int(1));
      Cbor.GetFinds(key.pairs, Cbor.Int(3));
      Cbor.GetFinds(key.pairs, Cbor.Int(-1));
      Cbor.GetFinds(key.pairs, Cbor.Int(-2));
      Cbor.GetFinds(key.pairs, Cbor.Int(-3));
    }
  }

  // ---------- Exactly the layouts parse ----------

  lemma {:induction false} DecodeSpelled(bytes: seq<byte>, value: Cbor.Value, rest: seq<byte>)
    requires Spelled(bytes, value)
    ensures Cbor.Decode(bytes + rest, 0) == Some(Cbor.Decoded(value, rest))
  {
    var item :| Cbor.Allowed(item, 0) && Cbor.ValueOf(item) == value && bytes == Cbor.Encode(item);
    Cbor.DecodeOfEncode(item, 0, rest);
  }

  lemma {:induction false} SpelledPrefix(data: seq<byte>) returns (bytes: seq<byte>)
    requires Cbor.Decode(data, 0).Some?
    ensures var d := Cbor.Decode(data, 0).value;
            Spelled(bytes, d.value) && data == bytes + d.rest
  {
    var item := Cbor.SpellingOf(data, 0);
    bytes := Cbor.Encode(item);
  }

  lemma {:induction false} ExtensionsMeaning(flags: byte, rest: seq<byte>)
    ensures ExtensionsExplain(flags, rest)
            <==> if IsSet(flags, FLAG_ED) then exists v :: Spelled(rest, v) && v.Map? else rest == []
  {
    if IsSet(flags, FLAG_ED) {
      if ExtensionsExplain(flags, rest) {
        var bytes := SpelledPrefix(rest);
        assert bytes + [] == bytes;
      }
      if v :| Spelled(rest, v) && v.Map? {
        DecodeSpelled(rest, v, []);
        assert rest + [] == rest;
      }
    }
  }

  lemma {:induction false} DescribedIsAddressed(l: Layout, c: Ceremony, r: Registration)
    requires l.Describes(c, r)
    ensures |l.Serialize()| >= 55 && Addressed(l.Serialize(), c)
  {
    SerializedFields(l);
  }

  lemma {:induction false} DescribedParses(l: Layout, c: Ceremony, r: Registration)
    requires l.Describes(c, r)
    ensures Parse(l.Serialize(), c) == Ok(r)
  {
    SerializedFields(l);
    DescribedIsAddressed(l, c, r);
    var v :| Spelled(l.key, v) && IsEs256Key(v, r.x, r.y);
    assert Cbor.Decode(l.key + l.extensions, 0) == Some(Cbor.Decoded(v, l.extensions)) by {
      DecodeSpelled(l.key, v, l.extensions);
    }
    assert ParseKey(v, c) == Ok(Point(r.x, r.y)) by { ParseKeyMeaning(l.key, v, c, r.x, r.y); }
    assert ExtensionsExplain(l.flags, l.extensions) by { ExtensionsMeaning(l.flags, l.extensions); }
  }

  lemma {:induction false} ParsedIsDescribed(data: seq<byte>, c: Ceremony) returns (l: Layout)
    requires Parse(data, c).Ok?
    ensures l.Describes(c, Parse(data, c).value) && l.Serialize() == data
  {
    var r := Parse(data, c).value;
    var n := FromBigEndian(data[53..55]);
    var rest := data[55..][n..];
    var key := SpelledPrefix(rest);
    var d := Cbor.Decode(rest, 0).value;
    l := Layout(data[..32], data[32], data[33..37], data[37..53], r.credentialId, key, d.rest);
    HeaderOf(data, l);
    SerializeOf(data, l);
    ParseKeyMeaning(key, d.value, c, r.x, r.y);
    ExtensionsMeaning(l.flags, l.extensions);
  }

  /** Accepted data is exactly what some layout serializes, and the result is what that layout says. */
  lemma {:induction false} ParsesExactlyLayouts(data: seq<byte>, c: Ceremony, r: Registration)
    ensures Parse(data, c) == Ok(r) <==> exists l: Layout :: l.Describes(c, r) && l.Serialize() == data
  {
    if Parse(data, c) == Ok(r) {
      var l := ParsedIsDescribed(data, c);
      assert l.Describes(c, r) && l.Serialize() == data;
    }
    if l: Layout :| l.Describes(c, r) && l.Serialize() == data {
      DescribedParses(l, c, r);
    }
  }

  /** The split is unique: no two layouts, for any ceremonies, serialize to the same bytes. */
  lemma {:induction false} LayoutIsUnique(a: Layout, b: Layout, c: Ceremony, d: Ceremony, r: Registration,
                                          s: Registration)
    requires a.Describes(c, r) && b.Describes(d, s) && a.Serialize() == b.Serialize()
    ensures a == b
  {
    SerializedFields(a);
    SerializedFields(b);
    var v :| Spelled(a.key, v);
    var w :| Spelled(b.key, w);
    DecodeSpelled(a.key, v, a.extensions);
    DecodeSpelled(b.key, w, b.extensions);
    assert |a.key| == |a.key + a.extensions| - |a.extensions|;
    SplitEqual(a.key, a.extensions, b.key, b.extensions);
  }
}
