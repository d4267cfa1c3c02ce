/** The text forms the library writes and reads back strictly: decimal integers, hexadecimal, base64. */
module Text {
  import opened Wrappers
  import opened Bytes

  // ---------- Decimal ----------

  function Digit(d: nat): char
    requires d < 10
  {
    '0' + d as char
  }

  function DigitValue(c: char): (d: Option<nat>)
    ensures d.Some? ==> d.value < 10
  {
    if '0' <= c <= '9' then Some(c as int - '0' as int) else None
  }

  /** strconv.FormatUint(n, 10). */
  function Decimal(n: nat): (s: string)
    ensures s != ""
  {
    if n < 10 then [Digit(n)] else Decimal(n / 10) + [Digit(n % 10)]
  }

  /** strconv.FormatInt(n, 10). */
  function SignedDecimal(n: int): (s: string)
    ensures s != ""
  {
    if n < 0 then "-" + Decimal(-n) else Decimal(n)
  }

  /** The value of a run of digits, leading zeros allowed. */
  function DigitsValue(s: string): (n: Option<nat>) {
    if s == "" then Some(0)
    else
      var init, last := DigitsValue(s[..|s| - 1]), DigitValue(s[|s| - 1]);
      if init.Some? && last.Some? then Some(10 * init.value + last.value) else None
  }

  /** strconv.ParseUint(s, 10, 64). */
  function ParseUint(s: string): (n: Option<nat>) {
    if s == "" then None
    else
      var n := DigitsValue(s);
      if n.Some? && n.value < 0x1_0000_0000_0000_0000 then n else None
  }

  /** strconv.ParseInt(s, 10, 64): an optional sign, then digits. */
  function ParseInt(s: string): (n: Option<int>) {
    if s == "" then None
    else
      var negative := s[0] == '-';
      var digits := if negative || s[0] == '+' then s[1..] else s;
      if digits == "" then None
      else
        var n := DigitsValue(digits);
        if n.None? then None
        else if negative then (if n.value <= 0x8000_0000_0000_0000 then Some(0 - n.value as int) else None)
        else if n.value < 0x8000_0000_0000_0000 then Some(n.value)
        else None
  }

  /** decodeCanonicalUint64: only the spelling FormatUint writes is accepted. */
  function DecodeUint64(s: string): (n: Option<nat>)
    ensures n.Some? ==> n.value < 0x1_0000_0000_0000_0000 && s == Decimal(n.value)
  {
    var n := ParseUint(s);
    if n.Some? && Decimal(n.value) == s then n else None
  }

  /** decodeCanonicalInt64. */
  function DecodeInt64(s: string): (n: Option<int>)
    ensures n.Some? ==> -0x8000_0000_0000_0000 <= n.value < 0x8000_0000_0000_0000 && s == SignedDecimal(n.value)
  {
    var n := ParseInt(s);
    if n.Some? && SignedDecimal(n.value) == s then n else None
  }

  lemma {:induction false} DecimalRoundTrip(n: nat)
    ensures DigitsValue(Decimal(n)) == Some(n)
  {
    var s := Decimal(n);
    if n < 10 {
      assert s[..0] == "" && DigitValue(s[0]) == Some(n);
    } else {
      DecimalRoundTrip(n / 10);
      assert s[..|s| - 1] == Decimal(n / 10) && DigitValue(s[|s| - 1]) == Some(n % 10);
    }
  }

  lemma {:induction false} DecimalDigits(n: nat)
    ensures forall c :: c in Decimal(n) ==> '0' <= c <= '9'
  {
    if n >= 10 {
      DecimalDigits(n / 10);
    }
  }

  lemma {:induction false} Uint64RoundTrip(n: nat)
    requires n < 0x1_0000_0000_0000_0000
    ensures DecodeUint64(Decimal(n)) == Some(n)
  {
    DecimalRoundTrip(n);
  }

  lemma {:induction false} Int64RoundTrip(n: int)
    requires -0x8000_0000_0000_0000 <= n < 0x8000_0000_0000_0000
    ensures DecodeInt64(SignedDecimal(n)) == Some(n)
  {
    if n < 0 { NegativeRoundTrip(-n); } else { PositiveRoundTrip(n); }
  }

  lemma {:induction false} NegativeRoundTrip(m: nat)
    requires 0 < m <= 0x8000_0000_0000_0000
    ensures ParseInt("-" + Decimal(m)) == Some(0 - m)
  {
    DecimalRoundTrip(m);
    assert ("-" + Decimal(m))[1..] == Decimal(m);
  }

  lemma {:induction false} PositiveRoundTrip(n: nat)
    requires n < 0x8000_0000_0000_0000
    ensures ParseInt(Decimal(n)) == Some(n)
  {
    DecimalRoundTrip(n);
    DecimalDigits(n);
    assert Decimal(n)[0] in Decimal(n);
  }

  lemma {:induction false} DecimalInjective(m: nat, n: nat)
    ensures Decimal(m) == Decimal(n) <==> m == n
  {
    DecimalRoundTrip(m);
    DecimalRoundTrip(n);
  }

  // ---------- Hexadecimal ----------

  function HexDigit(d: nat, upper: bool): char
    requires d < 16
  {
    if d < 10 then '0' + d as char else if upper then 'A' + (d - 10) as char else 'a' + (d - 10) as char
  }

  function HexValue(c: char): (d: Option<nat>)
    ensures d.Some? ==> d.value < 16
  {
    if '0' <= c <= '9' then Some(c as int - '0' as int)
    else if 'a' <= c <= 'f' then Some(c as int - 'a' as int + 10)
    else if 'A' <= c <= 'F' then Some(c as int - 'A' as int + 10)
    else None
  }

  /** hex.EncodeToString, and its upper-case spelling. */
  function Hex(data: seq<byte>, upper: bool): (s: string)
    ensures |s| == 2 * |data|
  {
    if data == [] then ""
    else [HexDigit(data[0] / 16, upper), HexDigit(data[0] % 16, upper)] + Hex(data[1..], upper)
  }

  /** hex.DecodeString: either case, an even number of digits. */
  function HexBytes(s: string): (data: Option<seq<byte>>) {
    if s == "" then Some([])
    else if |s| < 2 then None
    else
      var hi, lo, rest := HexValue(s[0]), HexValue(s[1]), HexBytes(s[2..]);
      if hi.Some? && lo.Some? && rest.Some? then Some([16 * hi.value + lo.value] + rest.value) else None
  }

  /** decodeCanonicalHex: the expected length, and only the lower-case spelling. */
  function DecodeHex(s: string, length: nat): (data: Option<seq<byte>>)
    ensures data.Some? ==> |data.value| == length && s == Hex(data.value, false)
  {
    if |s| != 2 * length then None
    else
      var data := HexBytes(s);
      if data.Some? && Hex(data.value, false) == s then data else None
  }

  lemma {:induction false} HexDigitRoundTrip(d: nat, upper: bool)
    requires d < 16
    ensures HexValue(HexDigit(d, upper)) == Some(d)
  {
  }

  lemma {:induction false} HexBytesOfHex(data: seq<byte>, upper: bool)
    ensures HexBytes(Hex(data, upper)) == Some(data)
  {
    if data != [] {
      var s, hi, lo := Hex(data, upper), data[0] / 16, data[0] % 16;
      HexBytesOfHex(data[1..], upper);
      HexDigitRoundTrip(hi, upper);
      HexDigitRoundTrip(lo, upper);
      assert s[0] == HexDigit(hi, upper) && s[1] == HexDigit(lo, upper) && s[2..] == Hex(data[1..], upper);
      assert data == [data[0]] + data[1..];
    }
  }

  lemma {:induction false} HexRoundTrip(data: seq<byte>)
    ensures DecodeHex(Hex(data, false), |data|) == Some(data)
  {
    HexBytesOfHex(data, false);
  }

  // ---------- Base64 ----------

  /** The two alphabets differ in their last two characters. */
  function Sextet(v: nat, url: bool): char
    requires v < 64
  {
    if v < 26 then 'A' + v as char
    else if v < 52 then 'a' + (v - 26) as char
    else if v < 62 then '0' + (v - 52) as char
    else if v == 62 then (if url then '-' else '+')
    else if url then '_' else '/'
  }

  /** The value of a character of either alphabet. */
  function SextetValue(c: char): (v: Option<nat>)
    ensures v.Some? ==> v.value < 64
  {
    if 'A' <= c <= 'Z' then Some(c as int - 'A' as int)
    else if 'a' <= c <= 'z' then Some(c as int - 'a' as int + 26)
    else if '0' <= c <= '9' then Some(c as int - '0' as int + 52)
    else if c == '+' || c == '-' then Some(62)
    else if c == '/' || c == '_' then Some(63)
    else None
  }

  lemma {:induction false} SextetRoundTrip(v: nat, url: bool)
    requires v < 64
    ensures SextetValue(Sextet(v, url)) == Some(v)
    ensures Sextet(v, url) != '='
  {
  }

  /** Base64 of a byte string: standard or URL alphabet, with or without padding. */
  function Base64(data: seq<byte>, url: bool, padded: bool): (s: string)
  {
    if data == [] then ""
    else if |data| == 1 then
      [Sextet(data[0] / 4, url), Sextet(data[0] % 4 * 16, url)] + if padded then "==" else ""
    else if |data| == 2 then
      [Sextet(data[0] / 4, url), Sextet(data[0] % 4 * 16 + data[1] / 16, url), Sextet(data[1] % 16 * 4, url)]
      + if padded then "=" else ""
    else
      [Sextet(data[0] / 4, url), Sextet(data[0] % 4 * 16 + data[1] / 16, url),
       Sextet(data[1] % 16 * 4 + data[2] / 64, url), Sextet(data[2] % 64, url)]
      + Base64(data[3..], url, padded)
  }

  /** The inverse, for either alphabet and either padding; bits beyond the last byte must be zero. */
  function Base64Bytes(s: string): (data: Option<seq<byte>>) {
    if s == "" then Some([])
    else if |s| < 2 then None
    else
      var a, b := SextetValue(s[0]), SextetValue(s[1]);
      if a.None? || b.None? then None
      else if s[2..] == "" || s[2..] == "==" then
        if b.value % 16 == 0 then Some([a.value * 4 + b.value / 16]) else None
      else
        var c := SextetValue(s[2]);
        if c.None? then None
        else if s[3..] == "" || s[3..] == "=" then
          if c.value % 4 == 0 then Some([a.value * 4 + b.value / 16, b.value % 16 * 16 + c.value / 4]) else None
        else
          var d, rest := SextetValue(s[3]), Base64Bytes(s[4..]);
          if d.None? || rest.None? then None
          else
            Some([a.value * 4 + b.value / 16, b.value % 16 * 16 + c.value / 4, c.value % 4 * 64 + d.value] + rest.value)
  }

  /** From section 10 of RFC 4648, and the two characters in which the alphabets of its sections 4 and 5 differ. */
  lemma {:induction false} StandardExamples()
    ensures Base64([102], false, true) == "Zg=="
    ensures Base64([102, 111], true, true) == "Zm8="
    ensures Base64([0xFB, 0xFF], false, true) == "+/8=" && Base64([0xFB, 0xFF], true, false) == "-_8"
  {
  }

  /** decodeCanonicalBase64: not empty, and only the padded standard spelling. */
  function DecodeBase64(s: string): (data: Option<seq<byte>>)
    ensures data.Some? ==> s != "" && s == Base64(data.value, false, true)
  {
    if s == "" then None
    else
      var data := Base64Bytes(s);
      if data.Some? && Base64(data.value, false, true) == s then data else None
  }

  lemma {:induction false} SextetsOfBytes(x: byte, y: byte, z: byte)
    ensures x / 4 * 4 + (x % 4 * 16 + y / 16) / 16 == x
    ensures (x % 4 * 16 + y / 16) % 16 * 16 + (y % 16 * 4 + z / 64) / 4 == y
    ensures (y % 16 * 4 + z / 64) % 4 * 64 + z % 64 == z
  {
    assert (x % 4 * 16 + y / 16) / 16 == x % 4 && (x % 4 * 16 + y / 16) % 16 == y / 16;
    assert (y % 16 * 4 + z / 64) / 4 == y % 16 && (y % 16 * 4 + z / 64) % 4 == z / 64;
  }

  lemma {:induction false} OneByte(x: byte, url: bool, padded: bool)
    ensures Base64Bytes(Base64([x], url, padded)) == Some([x])
  {
    var s := Base64([x], url, padded);
    SextetRoundTrip(x / 4, url);
    SextetRoundTrip(x % 4 * 16, url);
    assert s[2..] == if padded then "==" else "";
  }

  lemma {:induction false} TwoBytes(x: byte, y: byte, url: bool, padded: bool)
    ensures Base64Bytes(Base64([x, y], url, padded)) == Some([x, y])
  {
    var a, b, c := x / 4, x % 4 * 16 + y / 16, y % 16 * 4;
    var end := if padded then "=" else "";
    SextetRoundTrip(a, url);
    SextetRoundTrip(b, url);
    SextetRoundTrip(c, url);
    ThreeSextets(Sextet(a, url), Sextet(b, url), Sextet(c, url), end);
    SextetsOfBytes(x, y, 0);
    assert Base64([x, y], url, padded) == [Sextet(a, url), Sextet(b, url), Sextet(c, url)] + end;
  }

  /** Three characters and an optional pad carry two bytes. */
  lemma {:induction false} ThreeSextets(a: char, b: char, c: char, end: string)
    requires SextetValue(a).Some? && SextetValue(b).Some? && SextetValue(c).Some? && c != '='
    requires SextetValue(c).value % 4 == 0 && (end == "" || end == "=")
    ensures var x, y, z := SextetValue(a).value, SextetValue(b).value, SextetValue(c).value;
            Base64Bytes([a, b, c] + end) == Some([x * 4 + y / 16, y % 16 * 16 + z / 4])
  {
    var s := [a, b, c] + end;
    assert s[2..] == [c] + end && s[3..] == end;
  }

  /** Four characters carry three bytes. */
  lemma {:induction false} Group(x: byte, y: byte, z: byte, url: bool, rest: string)
    requires Base64Bytes(rest).Some?
    ensures Base64Bytes([Sextet(x / 4, url), Sextet(x % 4 * 16 + y / 16, url),
                         Sextet(y % 16 * 4 + z / 64, url), Sextet(z % 64, url)] + rest)
            == Some([x, y, z] + Base64Bytes(rest).value)
  {
    var s := [Sextet(x / 4, url), Sextet(x % 4 * 16 + y / 16, url),
              Sextet(y % 16 * 4 + z / 64, url), Sextet(z % 64, url)] + rest;
    SextetsOfBytes(x, y, z);
    SextetRoundTrip(x / 4, url);
    SextetRoundTrip(x % 4 * 16 + y / 16, url);
    SextetRoundTrip(y % 16 * 4 + z / 64, url);
    SextetRoundTrip(z % 64, url);
    assert s[2..][0] == s[2] && s[3..][0] == s[3] && s[4..] == rest;
  }

  lemma {:induction false} Base64Group(data: seq<byte>, url: bool, padded: bool)
    requires |data| > 2
    ensures Base64(data, url, padded)
            == [Sextet(data[0] / 4, url), Sextet(data[0] % 4 * 16 + data[1] / 16, url),
                Sextet(data[1] % 16 * 4 + data[2] / 64, url), Sextet(data[2] % 64, url)]
               + Base64(data[3..], url, padded)
  {
  }

  lemma {:induction false} Base64BytesOfBase64(data: seq<byte>, url: bool, padded: bool)
    ensures Base64Bytes(Base64(data, url, padded)) == Some(data)
  {
    if data == [] {
    } else if |data| == 1 {
      OneByte(data[0], url, padded);
      assert data == [data[0]];
    } else if |data| == 2 {
      TwoBytes(data[0], data[1], url, padded);
      assert data == [data[0], data[1]];
    } else {
      Base64BytesOfBase64(data[3..], url, padded);
      Group(data[0], data[1], data[2], url, Base64(data[3..], url, padded));
      Base64Group(data, url, padded);
      assert data == [data[0], data[1], data[2]] + data[3..];
    }
  }

  lemma {:induction false} Base64RoundTrip(data: seq<byte>)
    requires data != []
    ensures DecodeBase64(Base64(data, false, true)) == Some(data)
  {
    Base64BytesOfBase64(data, false, true);
  }

  lemma {:induction false} Base64Length(data: seq<byte>, url: bool, padded: bool)
    ensures |Base64(data, url, padded)| == if padded then 4 * ((|data| + 2) / 3) else (4 * |data| + 2) / 3
  {
    if |data| > 2 {
      Base64Length(data[3..], url, padded);
      Base64Group(data, url, padded);
      assert (|data| + 2) / 3 == (|data[3..]| + 2) / 3 + 1 && (4 * |data| + 2) / 3 == (4 * |data[3..]| + 2) / 3 + 4;
    } else {
      ShortBase64Length(data, url, padded);
    }
  }

  lemma {:induction false} ShortBase64Length(data: seq<byte>, url: bool, padded: bool)
    requires |data| <= 2
    ensures |Base64(data, url, padded)| == if padded then 4 * ((|data| + 2) / 3) else (4 * |data| + 2) / 3
  {
  }
}
