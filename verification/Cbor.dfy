/**
 attestation_cbor.go: the strict CBOR subset (section 3 of RFC 8949) that attestation
 objects use.

 `Decode` is the decoder as a function and `DecodeItem` the loop that runs it. The
 reference is independent of both: an `Item` is a value together with the way it is
 spelt, and `Encode` writes it.
 */
module Cbor {
  import opened Wrappers
  import opened Bytes

  const MAX_NESTING: nat := 8
  const INT64_LIMIT: nat := 0x8000_0000_0000_0000

  datatype Value =
    | Int(i: int)
    | ByteString(bytes: seq<byte>)
    | TextString(text: seq<byte>)
    | Array(items: seq<Value>)
    | Map(pairs: seq<Pair>)
    | Bool(b: bool)
    | Null

  datatype Pair = Pair(key: Value, value: Value)

  /** cborMap.get: the first pair with the key. */
  function Get(pairs: seq<Pair>, key: Value): (v: Option<Value>) {
    if pairs == [] then None
    else if pairs[0].key == key then Some(pairs[0].value)
    else Get(pairs[1..], key)
  }

  predicate HasKey(pairs: seq<Pair>, key: Value) {
    exists p | p in pairs :: p.key == key
  }

  lemma {:induction false} GetFinds(pairs: seq<Pair>, key: Value)
    ensures Get(pairs, key).Some? <==> HasKey(pairs, key)
    ensures Get(pairs, key).Some? ==> Pair(key, Get(pairs, key).value) in pairs
  {
    if pairs != [] {
      GetFinds(pairs[1..], key);
      assert pairs == [pairs[0]] + pairs[1..];
    }
  }

  predicate IsKey(v: Value) {
    v.Int? || v.TextString?
  }

  // ---------- Heads ----------

  /** An initial byte with its argument, and what follows. */
  datatype Head = Head(major: nat, info: nat, arg: nat, rest: seq<byte>)

  function ArgumentSize(info: nat): nat {
    if info == 24 then 1 else if info == 25 then 2 else if info == 26 then 4 else 8
  }

  function ReadHead(data: seq<byte>): (h: Option<Head>)
    ensures h.Some? ==> h.value.major < 8 && |h.value.rest| < |data|
  {
    if data == [] then None
    else
      var major, info, rest := data[0] / 32, data[0] % 32, data[1..];
      if info < 24 then Some(Head(major, info, info, rest))
      else if info <= 27 then
        var size := ArgumentSize(info);
        if |rest| < size then None else Some(Head(major, info, FromBigEndian(rest[..size]), rest[size..]))
      else None
  }

  // ---------- The decoder ----------

  datatype Decoded<T> = Decoded(value: T, rest: seq<byte>)

  function Decode(data: seq<byte>, depth: nat): (r: Option<Decoded<Value>>)
    ensures r.Some? ==> |r.value.rest| < |data|
    decreases |data|, 0
  {
    if depth > MAX_NESTING then None
    else
      match ReadHead(data)
      case None => None
      case Some(h) => DecodeBody(h, depth)
  }

  function DecodeBody(h: Head, depth: nat): (r: Option<Decoded<Value>>)
    ensures r.Some? ==> |r.value.rest| <= |h.rest|
    decreases |h.rest|, 2
  {
    if h.major == 0 then
      if h.arg >= INT64_LIMIT then None else Some(Decoded(Int(h.arg), h.rest))
    else if h.major == 1 then
      if h.arg >= INT64_LIMIT then None else Some(Decoded(Int(-1 - h.arg), h.rest))
    else if h.major == 2 || h.major == 3 then
      if h.arg > |h.rest| then None
      else
        var body := h.rest[..h.arg];
        Some(Decoded(if h.major == 2 then ByteString(body) else TextString(body), h.rest[h.arg..]))
    else if h.major == 4 then
      if h.arg > |h.rest| then None
      else
        match DecodeItems(h.rest, h.arg, depth + 1)
        case None => None
        case Some(d) => Some(Decoded(Array(d.value), d.rest))
    else if h.major == 5 then
      if h.arg > |h.rest| then None
      else
        match DecodePairs(h.rest, h.arg, depth + 1, [])
        case None => None
        case Some(d) => Some(Decoded(Map(d.value), d.rest))
    else if h.major == 7 then
      if h.info == 20 then Some(Decoded(Bool(false), h.rest))
      else if h.info == 21 then Some(Decoded(Bool(true), h.rest))
      else if h.info == 22 then Some(Decoded(Null, h.rest))
      else None
    else None
  }

  function DecodeItems(data: seq<byte>, n: nat, depth: nat): (r: Option<Decoded<seq<Value>>>)
    ensures r.Some? ==> |r.value.rest| <= |data|
    decreases |data|, 1
  {
    if n == 0 then Some(Decoded([], data))
    else
      match Decode(data, depth)
      case None => None
      case Some(first) =>
        match DecodeItems(first.rest, n - 1, depth)
        case None => None
        case Some(others) => Some(Decoded([first.value] + others.value, others.rest))
  }

  /** `read` holds the pairs already read, which a new key must differ from. */
  function DecodePairs(data: seq<byte>, n: nat, depth: nat, read: seq<Pair>): (r: Option<Decoded<seq<Pair>>>)
    ensures r.Some? ==> |r.value.rest| <= |data|
    decreases |data|, 1
  {
    if n == 0 then Some(Decoded([], data))
    else
      match Decode(data, depth)
      case None => None
      case Some(k) =>
        if !IsKey(k.value) || HasKey(read, k.value) then None
        else
          match Decode(k.rest, depth)
          case None => None
          case Some(v) =>
            var p := Pair(k.value, v.value);
            match DecodePairs(v.rest, n - 1, depth, read + [p])
            case None => None
            case Some(others) => Some(Decoded([p] + others.value, others.rest))
  }

  // ---------- The reference: spelt items ----------

  /** Where an argument is written: in the initial byte, or in 1, 2, 4 or 8 bytes after it. */
  datatype Width = Inline | One | Two | Four | Eight {
    function Size(): nat {
      match this
      case Inline => 0
      case One => 1
      case Two => 2
      case Four => 4
      case Eight => 8
    }

    predicate Fits(arg: nat) {
      if Inline? then arg < 24 else arg < Pow256(Size())
    }

    function Info(arg: nat): nat {
      match this
      case Inline => arg
      case One => 24
      case Two => 25
      case Four => 26
      case Eight => 27
    }
  }

  function HeadBytes(major: nat, width: Width, arg: nat): (s: seq<byte>)
    requires major < 8
    ensures |s| == 1 + width.Size()
  {
    [32 * major + width.Info(arg) % 32] + ToBigEndian(arg, width.Size())
  }

  /** A value and its spelling: definite lengths throughout, arguments of any width. */
  datatype Item =
    | IntItem(width: Width, negative: bool, arg: nat)
    | StringItem(width: Width, isText: bool, body: seq<byte>)
    | ArrayItem(width: Width, items: seq<Item>)
    | MapItem(width: Width, pairs: seq<ItemPair>)
    | FalseItem
    | TrueItem
    | NullItem

  datatype ItemPair = ItemPair(key: Item, value: Item)

  function ValueOf(item: Item): (v: Value)
    decreases item
  {
    match item
    case IntItem(_, negative, arg) => Int(if negative then -1 - arg else arg)
    case StringItem(_, isText, body) => if isText then TextString(body) else ByteString(body)
    case ArrayItem(_, items) => Array(ValuesOf(items))
    case MapItem(_, pairs) => Map(PairsOf(pairs))
    case FalseItem => Bool(false)
    case TrueItem => Bool(true)
    case NullItem => Null
  }

  function ValuesOf(items: seq<Item>): (v: seq<Value>)
    decreases items
  {
    if items == [] then [] else [ValueOf(items[0])] + ValuesOf(items[1..])
  }

  function PairOf(p: ItemPair): (v: Pair)
    decreases p
  {
    Pair(ValueOf(p.key), ValueOf(p.value))
  }

  function PairsOf(pairs: seq<ItemPair>): (v: seq<Pair>)
    decreases pairs
  {
    if pairs == [] then [] else [PairOf(pairs[0])] + PairsOf(pairs[1..])
  }

  /** What the decoder admits: arguments that fit, int64 integers, nesting up to 8, distinct int or text keys. */
  predicate Allowed(item: Item, depth: nat)
    decreases item
  {
    depth <= MAX_NESTING
    && match item
       case IntItem(width, _, arg) => width.Fits(arg) && arg < INT64_LIMIT
       case StringItem(width, _, body) => width.Fits(|body|)
       case ArrayItem(width, items) => width.Fits(|items|) && forall x | x in items :: Allowed(x, depth + 1)
       case MapItem(width, pairs) =>
         && width.Fits(|pairs|)
         && (forall p | p in pairs :: Allowed(p.key, depth + 1) && Allowed(p.value, depth + 1) && IsKey(ValueOf(p.key)))
         && (forall i, j | 0 <= i < j < |pairs| :: ValueOf(pairs[i].key) != ValueOf(pairs[j].key))
       case _ => true
  }

  function Encode(item: Item): (s: seq<byte>)
    ensures |s| > 0
    decreases item
  {
    match item
    case IntItem(width, negative, arg) => HeadBytes(if negative then 1 else 0, width, arg)
    case StringItem(width, isText, body) => HeadBytes(if isText then 3 else 2, width, |body|) + body
    case ArrayItem(width, items) => HeadBytes(4, width, |items|) + EncodeItems(items)
    case MapItem(width, pairs) => HeadBytes(5, width, |pairs|) + EncodePairs(pairs)
    case FalseItem => HeadBytes(7, Inline, 20)
    case TrueItem => HeadBytes(7, Inline, 21)
    case NullItem => HeadBytes(7, Inline, 22)
  }

  function EncodeItems(items: seq<Item>): (s: seq<byte>)
    ensures |s| >= |items|
    decreases items
  {
    if items == [] then [] else Encode(items[0]) + EncodeItems(items[1..])
  }

  function EncodePair(p: ItemPair): (s: seq<byte>)
    ensures |s| > 0
    decreases p
  {
    Encode(p.key) + Encode(p.value)
  }

  function EncodePairs(pairs: seq<ItemPair>): (s: seq<byte>)
    ensures |s| >= |pairs|
    decreases pairs
  {
    if pairs == [] then [] else EncodePair(pairs[0]) + EncodePairs(pairs[1..])
  }

  /** Examples from appendix A of RFC 8949. */
  lemma {:induction false} StandardExamples()
    ensures Encode(IntItem(Inline, false, 10)) == [0x0A] && Encode(IntItem(Inline, true, 9)) == [0x29]
    ensures Encode(IntItem(One, false, 100)) == [0x18, 0x64] && Encode(IntItem(One, true, 99)) == [0x38, 0x63]
    ensures Encode(FalseItem) == [0xF4] && Encode(TrueItem) == [0xF5] && Encode(NullItem) == [0xF6]
    ensures Encode(StringItem(Inline, true, [0x61])) == [0x61, 0x61]
    ensures Encode(StringItem(Inline, false, [1, 2, 3, 4])) == [0x44, 1, 2, 3, 4]
    ensures Encode(ArrayItem(Inline, [])) == [0x80] && Encode(MapItem(Inline, [])) == [0xA0]
  {
    assert ToBigEndian(100, 1) == [100] && ToBigEndian(99, 1) == [99];
  }

  // ---------- Every allowed spelling decodes ----------

  lemma {:induction false} ReadWide(first: byte, argument: seq<byte>, rest: seq<byte>)
    requires 24 <= first % 32 <= 27 && |argument| == ArgumentSize(first % 32)
    ensures ReadHead([first] + argument + rest) == Some(Head(first / 32, first % 32, FromBigEndian(argument), rest))
  {
    var data := [first] + argument + rest;
    assert data[0] == first && data[1..] == argument + rest;
    assert (argument + rest)[..|argument|] == argument && (argument + rest)[|argument|..] == rest;
  }

  lemma {:induction false} ReadHeadOf(major: nat, width: Width, arg: nat, rest: seq<byte>)
    requires major < 8 && width.Fits(arg)
    ensures ReadHead(HeadBytes(major, width, arg) + rest) == Some(Head(major, width.Info(arg), arg, rest))
  {
    var first := 32 * major + width.Info(arg);
    assert first / 32 == major && first % 32 == width.Info(arg);
    if width.Inline? {
      var data := HeadBytes(major, width, arg) + rest;
      assert data[0] == first && data[1..] == rest;
    } else {
      FromToBigEndian(arg, width.Size());
      ReadWide(first, ToBigEndian(arg, width.Size()), rest);
    }
  }

  lemma {:induction false} DecodeWithHead(major: nat, width: Width, arg: nat, rest: seq<byte>, depth: nat)
    requires major < 8 && width.Fits(arg) && depth <= MAX_NESTING
    ensures Decode(HeadBytes(major, width, arg) + rest, depth)
            == DecodeBody(Head(major, width.Info(arg), arg, rest), depth)
  {
    ReadHeadOf(major, width, arg, rest);
  }

  lemma {:induction false} DecodeStringOfEncode(width: Width, isText: bool, body: seq<byte>, depth: nat,
                                                rest: seq<byte>)
    requires width.Fits(|body|) && depth <= MAX_NESTING
    ensures Decode(HeadBytes(if isText then 3 else 2, width, |body|) + body + rest, depth)
            == Some(Decoded(if isText then TextString(body) else ByteString(body), rest))
  {
    var head := HeadBytes(if isText then 3 else 2, width, |body|);
    DecodeWithHead(if isText then 3 else 2, width, |body|, body + rest, depth);
    assert head + body + rest == head + (body + rest);
    assert (body + rest)[..|body|] == body && (body + rest)[|body|..] == rest;
  }

  lemma {:induction false} DecodeArrayAt(width: Width, n: nat, tail: seq<byte>, depth: nat, d: Decoded<seq<Value>>)
    requires width.Fits(n) && n <= |tail| && depth <= MAX_NESTING
    requires DecodeItems(tail, n, depth + 1) == Some(d)
    ensures Decode(HeadBytes(4, width, n) + tail, depth) == Some(Decoded(Array(d.value), d.rest))
  {
    DecodeWithHead(4, width, n, tail, depth);
  }

  lemma {:induction false} DecodeMapAt(width: Width, n: nat, tail: seq<byte>, depth: nat, d: Decoded<seq<Pair>>)
    requires width.Fits(n) && n <= |tail| && depth <= MAX_NESTING
    requires DecodePairs(tail, n, depth + 1, []) == Some(d)
    ensures Decode(HeadBytes(5, width, n) + tail, depth) == Some(Decoded(Map(d.value), d.rest))
  {
    DecodeWithHead(5, width, n, tail, depth);
  }

  lemma {:induction false} Regroup(a: seq<byte>, b: seq<byte>, c: seq<byte>)
    ensures a + b + c == a + (b + c)
  {
  }

  /** The decoder reads back every allowed spelling, whatever bytes follow it. */
  lemma {:induction false} DecodeOfEncode(item: Item, depth: nat, rest: seq<byte>)
    requires Allowed(item, depth)
    ensures Decode(Encode(item) + rest, depth) == Some(Decoded(ValueOf(item), rest))
    decreases item, 1
  {
    match item
    case IntItem(width, negative, arg) => DecodeWithHead(if negative then 1 else 0, width, arg, rest, depth);
    case StringItem(width, isText, body) => DecodeStringOfEncode(width, isText, body, depth, rest);
    case ArrayItem(width, items) =>
      DecodeItemsOfEncode(items, depth + 1, rest);
      DecodeArrayAt(width, |items|, EncodeItems(items) + rest, depth, Decoded(ValuesOf(items), rest));
      Regroup(HeadBytes(4, width, |items|), EncodeItems(items), rest);
    case MapItem(width, pairs) =>
      NewPairsMeaning(pairs, depth + 1, []);
      DecodePairsOfEncode(pairs, depth + 1, [], rest);
      DecodeMapAt(width, |pairs|, EncodePairs(pairs) + rest, depth, Decoded(PairsOf(pairs), rest));
      Regroup(HeadBytes(5, width, |pairs|), EncodePairs(pairs), rest);
    case FalseItem => DecodeWithHead(7, Inline, 20, rest, depth);
    case TrueItem => DecodeWithHead(7, Inline, 21, rest, depth);
    case NullItem => DecodeWithHead(7, Inline, 22, rest, depth);
  }

  lemma {:induction false} DecodeItemsOfEncode(items: seq<Item>, depth: nat, rest: seq<byte>)
    requires forall x :: x in items ==> Allowed(x, depth)
    ensures DecodeItems(EncodeItems(items) + rest, |items|, depth) == Some(Decoded(ValuesOf(items), rest))
    decreases items, 0
  {
    if items == [] {
      assert EncodeItems(items) + rest == rest;
    } else {
      var others := EncodeItems(items[1..]) + rest;
      assert EncodeItems(items) + rest == Encode(items[0]) + others;
      DecodeOfEncode(items[0], depth, others);
      DecodeItemsOfEncode(items[1..], depth, rest);
    }
  }

  lemma {:induction false} PairsSplit(pairs: seq<ItemPair>, rest: seq<byte>)
    requires pairs != []
    ensures EncodePairs(pairs) + rest
            == Encode(pairs[0].key) + (Encode(pairs[0].value) + (EncodePairs(pairs[1..]) + rest))
  {
    var k, v, others := Encode(pairs[0].key), Encode(pairs[0].value), EncodePairs(pairs[1..]);
    assert k + v + others + rest == k + (v + (others + rest));
  }

  lemma {:induction false} HasKeyAppend(read: seq<Pair>, p: Pair, key: Value)
    ensures HasKey(read + [p], key) <==> HasKey(read, key) || p.key == key
  {
    var next := read + [p];
    assert p in next && forall q :: q in next <==> q in read || q == p;
  }

  /** Allowed pairs, each with a key new to the pairs already read. */
  ghost predicate NewPairs(pairs: seq<ItemPair>, depth: nat, read: seq<Pair>)
    decreases |pairs|
  {
    pairs == []
    || (&& Allowed(pairs[0].key, depth) && Allowed(pairs[0].value, depth) && IsKey(ValueOf(pairs[0].key))
        && !HasKey(read, ValueOf(pairs[0].key))
        && NewPairs(pairs[1..], depth, read + [PairOf(pairs[0])]))
  }

  ghost predicate PairsAllowed(pairs: seq<ItemPair>, depth: nat) {
    forall p :: p in pairs ==> Allowed(p.key, depth) && Allowed(p.value, depth) && IsKey(ValueOf(p.key))
  }

  ghost predicate KeysDistinct(pairs: seq<ItemPair>) {
    forall i, j :: 0 <= i < j < |pairs| ==> ValueOf(pairs[i].key) != ValueOf(pairs[j].key)
  }

  /** Checking each key against those before it is requiring all keys to be distinct. */
  lemma {:induction false} NewPairsMeaning(pairs: seq<ItemPair>, depth: nat, read: seq<Pair>)
    ensures NewPairs(pairs, depth, read)
            <==> PairsAllowed(pairs, depth) && KeysDistinct(pairs)
                 && forall p :: p in pairs ==> !HasKey(read, ValueOf(p.key))
    decreases |pairs|
  {
    if pairs != [] {
      var first, others := pairs[0], pairs[1..];
      assert pairs == [first] + others;
      NewPairsMeaning(others, depth, read + [PairOf(first)]);
      forall p: ItemPair
        ensures HasKey(read + [PairOf(first)], ValueOf(p.key)) <==>
                HasKey(read, ValueOf(p.key)) || ValueOf(p.key) == ValueOf(first.key)
      {
        HasKeyAppend(read, PairOf(first), ValueOf(p.key));
      }
      KeysDistinctCons(first, others);
    }
  }

  lemma {:induction false} KeysDistinctCons(first: ItemPair, others: seq<ItemPair>)
    ensures KeysDistinct([first] + others)
            <==> KeysDistinct(others) && forall p :: p in others ==> ValueOf(p.key) != ValueOf(first.key)
  {
    var pairs := [first] + others;
    assert forall i :: 0 <= i < |others| ==> pairs[i + 1] == others[i];
    if KeysDistinct(pairs) {
      forall i, j | 0 <= i < j < |others| ensures ValueOf(others[i].key) != ValueOf(others[j].key) {
        assert ValueOf(pairs[i + 1].key) != ValueOf(pairs[j + 1].key);
      }
      forall p | p in others ensures ValueOf(p.key) != ValueOf(first.key) {
        var i :| 0 <= i < |others| && others[i] == p;
        assert ValueOf(pairs[0].key) != ValueOf(pairs[i + 1].key);
      }
    }
    if KeysDistinct(others) && forall p :: p in others ==> ValueOf(p.key) != ValueOf(first.key) {
      forall i, j | 0 <= i < j < |pairs| ensures ValueOf(pairs[i].key) != ValueOf(pairs[j].key) {
        assert pairs[j] == others[j - 1] && others[j - 1] in others;
        assert i > 0 ==> pairs[i] == others[i - 1];
      }
    }
  }

  lemma {:induction false} DecodePairsStep(data: seq<byte>, n: nat, depth: nat, read: seq<Pair>, k: Decoded<Value>,
                                           v: Decoded<Value>)
    requires n > 0 && Decode(data, depth) == Some(k) && Decode(k.rest, depth) == Some(v)
    requires IsKey(k.value) && !HasKey(read, k.value)
    ensures var p := Pair(k.value, v.value);
            var others := DecodePairs(v.rest, n - 1, depth, read + [p]);
            DecodePairs(data, n, depth, read)
            == if others.None? then None else Some(Decoded([p] + others.value.value, others.value.rest))
  {
  }

  lemma {:induction false} DecodePairsOfEncode(pairs: seq<ItemPair>, depth: nat, read: seq<Pair>, rest: seq<byte>)
    requires NewPairs(pairs, depth, read)
    ensures DecodePairs(EncodePairs(pairs) + rest, |pairs|, depth, read) == Some(Decoded(PairsOf(pairs), rest))
    decreases pairs, 0
  {
    if pairs == [] {
      assert EncodePairs(pairs) + rest == rest;
    } else {
      var p, data := pairs[0], EncodePairs(pairs) + rest;
      var others := EncodePairs(pairs[1..]) + rest;
      PairsSplit(pairs, rest);
      assert p in pairs;
      DecodePairOfEncode(p, depth, others);
      DecodePairsStep(data, |pairs|, depth, read, Decoded(ValueOf(p.key), Encode(p.value) + others),
                      Decoded(ValueOf(p.value), others));
      DecodePairsOfEncode(pairs[1..], depth, read + [PairOf(p)], rest);
    }
  }

  lemma {:induction false} DecodePairOfEncode(p: ItemPair, depth: nat, rest: seq<byte>)
    requires Allowed(p.key, depth) && Allowed(p.value, depth)
    ensures Decode(Encode(p.key) + (Encode(p.value) + rest), depth)
            == Some(Decoded(ValueOf(p.key), Encode(p.value) + rest))
    ensures Decode(Encode(p.value) + rest, depth) == Some(Decoded(ValueOf(p.value), rest))
    decreases p
  {
    DecodeOfEncode(p.key, depth, Encode(p.value) + rest);
    DecodeOfEncode(p.value, depth, rest);
  }

  // ---------- Nothing else decodes ----------

  lemma {:induction false} HeadSpelling(data: seq<byte>) returns (width: Width)
    requires ReadHead(data).Some?
    ensures var h := ReadHead(data).value;
            width.Fits(h.arg) && width.Info(h.arg) == h.info && data == HeadBytes(h.major, width, h.arg) + h.rest
  {
    if data[0] % 32 < 24 {
      width := Inline;
      assert data == [data[0]] + data[1..];
    } else {
      width := WideSpelling(data[0], data[1..]);
      assert data == [data[0]] + data[1..];
    }
  }

  lemma {:induction false} WideSpelling(first: byte, tail: seq<byte>) returns (width: Width)
    requires 24 <= first % 32 <= 27 && |tail| >= ArgumentSize(first % 32)
    ensures var size := ArgumentSize(first % 32);
            var arg := FromBigEndian(tail[..size]);
            && width.Size() == size && width.Fits(arg) && width.Info(arg) == first % 32
            && [first] + tail == HeadBytes(first / 32, width, arg) + tail[size..]
  {
    var info := first % 32;
    width := if info == 24 then One else if info == 25 then Two else if info == 26 then Four else Eight;
    ToFromBigEndian(tail[..width.Size()]);
    assert tail == tail[..width.Size()] + tail[width.Size()..];
  }

  /** The item is an allowed spelling of what was decoded, followed by the bytes that were left. */
  ghost predicate Spells(item: Item, data: seq<byte>, depth: nat, d: Decoded<Value>) {
    Allowed(item, depth) && ValueOf(item) == d.value && data == Encode(item) + d.rest
  }

  /** Whatever decodes is an allowed spelling of the value returned, followed by the bytes returned. */
  lemma {:induction false} SpellingOf(data: seq<byte>, depth: nat) returns (item: Item)
    requires Decode(data, depth).Some?
    ensures Spells(item, data, depth, Decode(data, depth).value)
    decreases |data|, 0, 1
  {
    var h := ReadHead(data).value;
    var width := HeadSpelling(data);
    if h.major == 0 || h.major == 1 {
      item := IntItem(width, h.major == 1, h.arg);
    } else if h.major == 2 || h.major == 3 {
      item := StringSpelling(data, h, width, depth);
    } else if h.major == 4 {
      item := ArraySpelling(data, h, width, depth);
    } else if h.major == 5 {
      item := MapSpelling(data, h, width, depth);
    } else {
      item := if h.info == 20 then FalseItem else if h.info == 21 then TrueItem else NullItem;
    }
  }

  lemma {:induction false} DecodeString(data: seq<byte>, h: Head, depth: nat)
    requires Decode(data, depth).Some? && ReadHead(data) == Some(h) && (h.major == 2 || h.major == 3)
    ensures depth <= MAX_NESTING && h.arg <= |h.rest|
    ensures var body := h.rest[..h.arg];
            Decode(data, depth)
            == Some(Decoded(if h.major == 3 then TextString(body) else ByteString(body), h.rest[h.arg..]))
  {
  }

  lemma {:induction false} StringItemSpells(width: Width, isText: bool, body: seq<byte>, depth: nat, rest: seq<byte>)
    requires depth <= MAX_NESTING && width.Fits(|body|)
    ensures Spells(StringItem(width, isText, body), HeadBytes(if isText then 3 else 2, width, |body|) + (body + rest),
                   depth,
                   Decoded(if isText then TextString(body) else ByteString(body), rest))
  {
    var head := HeadBytes(if isText then 3 else 2, width, |body|);
    assert head + (body + rest) == head + body + rest;
  }

  lemma {:induction false} StringSpelling(data: seq<byte>, h: Head, width: Width, depth: nat) returns (item: Item)
    requires Decode(data, depth).Some? && ReadHead(data) == Some(h) && (h.major == 2 || h.major == 3)
    requires width.Fits(h.arg) && data == HeadBytes(h.major, width, h.arg) + h.rest
    ensures Spells(item, data, depth, Decode(data, depth).value)
  {
    DecodeString(data, h, depth);
    var body := h.rest[..h.arg];
    item := StringItem(width, h.major == 3, body);
    assert h.rest == body + h.rest[h.arg..];
    StringItemSpells(width, h.major == 3, body, depth, h.rest[h.arg..]);
  }

  lemma {:induction false} DecodeArray(data: seq<byte>, h: Head, depth: nat) returns (d: Decoded<seq<Value>>)
    requires Decode(data, depth).Some? && ReadHead(data) == Some(h) && h.major == 4
    ensures depth <= MAX_NESTING && DecodeItems(h.rest, h.arg, depth + 1) == Some(d)
    ensures Decode(data, depth) == Some(Decoded(Array(d.value), d.rest))
  {
    d := DecodeItems(h.rest, h.arg, depth + 1).value;
  }

  lemma {:induction false} ArrayItemSpells(width: Width, items: seq<Item>, depth: nat, rest: seq<byte>)
    requires depth <= MAX_NESTING && width.Fits(|items|) && forall x :: x in items ==> Allowed(x, depth + 1)
    ensures Spells(ArrayItem(width, items), HeadBytes(4, width, |items|) + (EncodeItems(items) + rest), depth,
                   Decoded(Array(ValuesOf(items)), rest))
  {
    var head := HeadBytes(4, width, |items|);
    assert head + (EncodeItems(items) + rest) == head + EncodeItems(items) + rest;
  }

  lemma {:induction false} ArraySpelling(data: seq<byte>, h: Head, width: Width, depth: nat) returns (item: Item)
    requires Decode(data, depth).Some? && ReadHead(data) == Some(h) && h.major == 4
    requires width.Fits(h.arg) && data == HeadBytes(4, width, h.arg) + h.rest
    ensures Spells(item, data, depth, Decode(data, depth).value)
    decreases |data|, 0, 0
  {
    var d := DecodeArray(data, h, depth);
    var items := ItemsSpelling(h.rest, h.arg, depth + 1);
    item := ArrayItem(width, items);
    ArrayItemSpells(width, items, depth, d.rest);
  }

  lemma {:induction false} DecodeMap(data: seq<byte>, h: Head, depth: nat) returns (d: Decoded<seq<Pair>>)
    requires Decode(data, depth).Some? && ReadHead(data) == Some(h) && h.major == 5
    ensures depth <= MAX_NESTING && DecodePairs(h.rest, h.arg, depth + 1, []) == Some(d)
    ensures Decode(data, depth) == Some(Decoded(Map(d.value), d.rest))
  {
    d := DecodePairs(h.rest, h.arg, depth + 1, []).value;
  }

  lemma {:induction false} MapItemSpells(width: Width, pairs: seq<ItemPair>, depth: nat, rest: seq<byte>)
    requires depth <= MAX_NESTING && width.Fits(|pairs|) && PairsAllowed(pairs, depth + 1) && KeysDistinct(pairs)
    ensures Spells(MapItem(width, pairs), HeadBytes(5, width, |pairs|) + (EncodePairs(pairs) + rest), depth,
                   Decoded(Map(PairsOf(pairs)), rest))
  {
    var head := HeadBytes(5, width, |pairs|);
    assert head + (EncodePairs(pairs) + rest) == head + EncodePairs(pairs) + rest;
  }

  lemma {:induction false} MapSpelling(data: seq<byte>, h: Head, width: Width, depth: nat) returns (item: Item)
    requires Decode(data, depth).Some? && ReadHead(data) == Some(h) && h.major == 5
    requires width.Fits(h.arg) && data == HeadBytes(5, width, h.arg) + h.rest
    ensures Spells(item, data, depth, Decode(data, depth).value)
    decreases |data|, 0, 0
  {
    var d := DecodeMap(data, h, depth);
    var pairs := PairsSpelling(h.rest, h.arg, depth + 1, [], d);
    NewPairsMeaning(pairs, depth + 1, []);
    item := MapItem(width, pairs);
    MapItemSpells(width, pairs, depth, d.rest);
  }

  lemma {:induction false} ItemsSpelling(data: seq<byte>, n: nat, depth: nat) returns (items: seq<Item>)
    requires DecodeItems(data, n, depth).Some?
    ensures |items| == n && forall x :: x in items ==> Allowed(x, depth)
    ensures DecodeItems(data, n, depth).value.value == ValuesOf(items)
    ensures data == EncodeItems(items) + DecodeItems(data, n, depth).value.rest
    decreases |data|, 1
  {
    if n == 0 {
      items := [];
    } else {
      var first := SpellingOf(data, depth);
      var d := Decode(data, depth).value;
      var others := ItemsSpelling(d.rest, n - 1, depth);
      items := [first] + others;
      assert items[1..] == others;
      assert data == Encode(first) + EncodeItems(others) + DecodeItems(data, n, depth).value.rest;
    }
  }

  /** The pairs are allowed spellings, with new keys, of what was decoded, followed by the bytes that were left. */
  ghost predicate SpellPairs(pairs: seq<ItemPair>, data: seq<byte>, n: nat, depth: nat, read: seq<Pair>,
                             d: Decoded<seq<Pair>>) {
    |pairs| == n && NewPairs(pairs, depth, read) && d.value == PairsOf(pairs) && data == EncodePairs(pairs) + d.rest
  }

  lemma {:induction false} PairsSpelling(data: seq<byte>, n: nat, depth: nat, read: seq<Pair>, d: Decoded<seq<Pair>>)
    returns (pairs: seq<ItemPair>)
    requires DecodePairs(data, n, depth, read) == Some(d)
    ensures SpellPairs(pairs, data, n, depth, read, d)
    decreases |data|, 2
  {
    if n == 0 {
      pairs := [];
      SpellNoPairs(data, depth, read);
    } else {
      var first, rest, e := FirstPairSpelling(data, n, depth, read, d);
      pairs := OtherPairsSpelling(data, n, depth, read, d, first, rest, e);
    }
  }

  lemma {:induction false} SpellNoPairs(data: seq<byte>, depth: nat, read: seq<Pair>)
    ensures SpellPairs([], data, 0, depth, read, Decoded([], data))
  {
    assert EncodePairs([]) + data == data;
  }

  lemma {:induction false} OtherPairsSpelling(data: seq<byte>, n: nat, depth: nat, read: seq<Pair>,
                                              d: Decoded<seq<Pair>>,
                                              first: ItemPair, rest: seq<byte>, e: Decoded<seq<Pair>>)
    returns (pairs: seq<ItemPair>)
    requires n > 0 && FirstPairOf(data, n, depth, read, d, first, rest, e)
    ensures SpellPairs(pairs, data, n, depth, read, d)
    decreases |data|, 1
  {
    var others := PairsSpelling(rest, n - 1, depth, read + [PairOf(first)], e);
    SpellPairsCons(first, others, rest, n - 1, depth, read, e);
    pairs := [first] + others;
  }

  lemma {:induction false} SpellPairsCons(first: ItemPair, others: seq<ItemPair>, rest: seq<byte>, n: nat, depth: nat,
                                          read: seq<Pair>, d: Decoded<seq<Pair>>)
    requires SpellPairs(others, rest, n, depth, read + [PairOf(first)], d)
    requires Allowed(first.key, depth) && Allowed(first.value, depth) && IsKey(ValueOf(first.key))
    requires !HasKey(read, ValueOf(first.key))
    ensures SpellPairs([first] + others, Encode(first.key) + (Encode(first.value) + rest), n + 1, depth, read,
                       Decoded([PairOf(first)] + d.value, d.rest))
  {
    NewPairsCons(first, others, depth, read);
    PairsConsed(first, others, d.rest);
  }

  lemma {:induction false} NewPairsCons(first: ItemPair, others: seq<ItemPair>, depth: nat, read: seq<Pair>)
    requires Allowed(first.key, depth) && Allowed(first.value, depth) && IsKey(ValueOf(first.key))
    requires !HasKey(read, ValueOf(first.key)) && NewPairs(others, depth, read + [PairOf(first)])
    ensures NewPairs([first] + others, depth, read)
  {
    assert ([first] + others)[1..] == others;
  }

  /** The first pair is an allowed spelling with a new key, and decoding goes on after it. */
  ghost predicate FirstPairOf(data: seq<byte>, n: nat, depth: nat, read: seq<Pair>, d: Decoded<seq<Pair>>,
                              first: ItemPair, rest: seq<byte>, e: Decoded<seq<Pair>>)
    requires n > 0
  {
    && Allowed(first.key, depth) && Allowed(first.value, depth) && IsKey(ValueOf(first.key))
    && !HasKey(read, ValueOf(first.key))
    && data == Encode(first.key) + (Encode(first.value) + rest) && |rest| < |data|
    && DecodePairs(rest, n - 1, depth, read + [PairOf(first)]) == Some(e)
    && d == Decoded([PairOf(first)] + e.value, e.rest)
  }

  lemma {:induction false} FirstPairSpelling(data: seq<byte>, n: nat, depth: nat, read: seq<Pair>,
                                             d: Decoded<seq<Pair>>)
    returns (first: ItemPair, rest: seq<byte>, e: Decoded<seq<Pair>>)
    requires n > 0 && DecodePairs(data, n, depth, read) == Some(d)
    ensures FirstPairOf(data, n, depth, read, d, first, rest, e)
    decreases |data|, 1
  {
    var k, v := PairRead(data, n, depth, read);
    var key := SpellingOf(data, depth);
    var value := SpellingOf(k.rest, depth);
    first, rest := ItemPair(key, value), v.rest;
    DecodePairsStep(data, n, depth, read, k, v);
    e := DecodePairs(rest, n - 1, depth, read + [PairOf(first)]).value;
  }

  lemma {:induction false} PairsConsed(first: ItemPair, others: seq<ItemPair>, rest: seq<byte>)
    ensures EncodePairs([first] + others) + rest
            == Encode(first.key) + (Encode(first.value) + (EncodePairs(others) + rest))
    ensures PairsOf([first] + others) == [PairOf(first)] + PairsOf(others)
  {
    var pairs := [first] + others;
    assert pairs[0] == first && pairs[1..] == others;
    PairsSplit(pairs, rest);
  }

  lemma {:induction false} PairRead(data: seq<byte>, n: nat, depth: nat, read: seq<Pair>)
    returns (k: Decoded<Value>, v: Decoded<Value>)
    requires n > 0 && DecodePairs(data, n, depth, read).Some?
    ensures Decode(data, depth) == Some(k) && Decode(k.rest, depth) == Some(v)
    ensures IsKey(k.value) && !HasKey(read, k.value) && |k.rest| < |data| && |v.rest| < |data|
    ensures DecodePairs(v.rest, n - 1, depth, read + [Pair(k.value, v.value)]).Some?
  {
    k := Decode(data, depth).value;
    v := Decode(k.rest, depth).value;
  }

  /**
   The decoder succeeds exactly on inputs that begin with an allowed spelling, and returns
   that spelling's value and everything after it.
   */
  lemma {:induction false} DecodesExactlySpellings(data: seq<byte>, value: Value, rest: seq<byte>)
    ensures Decode(data, 0) == Some(Decoded(value, rest))
            <==> exists item :: Allowed(item, 0) && ValueOf(item) == value && data == Encode(item) + rest
  {
    if Decode(data, 0) == Some(Decoded(value, rest)) {
      var item := SpellingOf(data, 0);
      assert Allowed(item, 0) && ValueOf(item) == value && data == Encode(item) + rest;
    }
    forall item | Allowed(item, 0) && ValueOf(item) == value && data == Encode(item) + rest
      ensures Decode(data, 0) == Some(Decoded(value, rest))
    {
      DecodeOfEncode(item, 0, rest);
    }
  }

  /** No allowed spelling is a proper prefix of another, so no input can be split in two ways. */
  lemma {:induction false} SpellingsArePrefixFree(a: Item, b: Item, x: seq<byte>, y: seq<byte>)
    requires Allowed(a, 0) && Allowed(b, 0) && Encode(a) + x == Encode(b) + y
    ensures x == y && Encode(a) == Encode(b) && ValueOf(a) == ValueOf(b)
  {
    DecodeOfEncode(a, 0, x);
    DecodeOfEncode(b, 0, y);
    assert |Encode(a)| == |Encode(a) + x| - |x|;
    SplitEqual(Encode(a), x, Encode(b), y);
  }

  // ---------- The decoding loop ----------

  /** What is left to read after the items or pairs already collected. */
  function Prepend<T>(done: seq<T>, r: Option<Decoded<seq<T>>>): (p: Option<Decoded<seq<T>>>) {
    match r
    case None => None
    case Some(d) => Some(Decoded(done + d.value, d.rest))
  }

  lemma {:induction false} PrependNothing<T>(r: Option<Decoded<seq<T>>>)
    ensures Prepend([], r) == r
  {
    if r.Some? { assert [] + r.value.value == r.value.value; }
  }

  lemma {:induction false} ItemsStep(done: seq<Value>, data: seq<byte>, n: nat, depth: nat)
    requires n > 0
    ensures var first := Decode(data, depth);
            Prepend(done, DecodeItems(data, n, depth))
            == if first.None? then None
               else Prepend(done + [first.value.value], DecodeItems(first.value.rest, n - 1, depth))
  {
    if Decode(data, depth).Some? {
      var d := Decode(data, depth).value;
      var others := DecodeItems(d.rest, n - 1, depth);
      if others.Some? {
        assert done + ([d.value] + others.value.value) == done + [d.value] + others.value.value;
      }
    }
  }

  lemma {:induction false} PairsStep(done: seq<Pair>, data: seq<byte>, n: nat, depth: nat, k: Decoded<Value>,
                                     v: Decoded<Value>)
    requires n > 0 && Decode(data, depth) == Some(k) && Decode(k.rest, depth) == Some(v)
    requires IsKey(k.value) && !HasKey(done, k.value)
    ensures var next := done + [Pair(k.value, v.value)];
            Prepend(done, DecodePairs(data, n, depth, done)) == Prepend(next, DecodePairs(v.rest, n - 1, depth, next))
  {
    var p := Pair(k.value, v.value);
    DecodePairsStep(data, n, depth, done, k, v);
    PrependOne(done, p, DecodePairs(v.rest, n - 1, depth, done + [p]));
  }

  lemma {:induction false} PrependOne(done: seq<Pair>, p: Pair, others: Option<Decoded<seq<Pair>>>)
    ensures Prepend(done + [p], others)
            == if others.None? then None
               else Prepend(done, Some(Decoded([p] + others.value.value, others.value.rest)))
  {
    if others.Some? {
      assert done + ([p] + others.value.value) == done + [p] + others.value.value;
    }
  }

  /** decodeCBORItem: recursive descent over a shrinking slice, with a loop per array and per map. */
  method DecodeItem(data: seq<byte>, depth: nat) returns (r: Option<Decoded<Value>>)
    ensures r == Decode(data, depth)
    decreases |data|, 1
  {
    if depth > MAX_NESTING { return None; }
    var head := ReadHead(data);
    if head.None? { return None; }
    var h := head.value;
    if h.major == 4 {
      if h.arg > |h.rest| { return None; }
      r := DecodeArrayItems(h.rest, h.arg, depth + 1);
    } else if h.major == 5 {
      if h.arg > |h.rest| { return None; }
      r := DecodeMapPairs(h.rest, h.arg, depth + 1);
    } else {
      r := DecodeBody(h, depth);
    }
  }

  method DecodeArrayItems(start: seq<byte>, n: nat, depth: nat) returns (r: Option<Decoded<Value>>)
    ensures var all := DecodeItems(start, n, depth);
            r == if all.None? then None else Some(Decoded(Array(all.value.value), all.value.rest))
    decreases |start|, 2
  {
    var data, items := start, [];
    PrependNothing(DecodeItems(start, n, depth));
    for i := 0 to n
      invariant |data| <= |start|
      invariant DecodeItems(start, n, depth) == Prepend(items, DecodeItems(data, n - i, depth))
    {
      ItemsStep(items, data, n - i, depth);
      var item := DecodeItem(data, depth);
      if item.None? { return None; }
      items, data := items + [item.value.value], item.value.rest;
    }
    assert items + [] == items;
    return Some(Decoded(Array(items), data));
  }

  method DecodeMapPairs(start: seq<byte>, n: nat, depth: nat) returns (r: Option<Decoded<Value>>)
    ensures var all := DecodePairs(start, n, depth, []);
            r == if all.None? then None else Some(Decoded(Map(all.value.value), all.value.rest))
    decreases |start|, 2
  {
    var data, pairs := start, [];
    PrependNothing(DecodePairs(start, n, depth, []));
    for i := 0 to n
      invariant |data| <= |start|
      invariant DecodePairs(start, n, depth, []) == Prepend(pairs, DecodePairs(data, n - i, depth, pairs))
    {
      var k := DecodeItem(data, depth);
      if k.None? { return None; }
      GetFinds(pairs, k.value.value);
      if !IsKey(k.value.value) || Get(pairs, k.value.value).Some? { return None; }
      var v := DecodeItem(k.value.rest, depth);
      if v.None? { return None; }
      PairsStep(pairs, data, n - i, depth, k.value, v.value);
      pairs, data := pairs + [Pair(k.value.value, v.value.value)], v.value.rest;
    }
    assert pairs + [] == pairs;
    return Some(Decoded(Map(pairs), data));
  }
}
