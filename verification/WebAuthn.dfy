/** webauthn.go: comparing the challenge an authenticator signed with the one that was issued. */
module WebAuthn {
  import opened Wrappers
  import opened Bytes
  import opened Text

  /** The spellings of a challenge that are accepted, in the order they are tried. */
  function Candidates(expected: seq<byte>): (c: seq<string>) {
    [Base64(expected, true, false), Base64(expected, true, true),
     Base64(expected, false, false), Base64(expected, false, true),
     Hex(expected, false), Hex(expected, true)]
  }

  ghost predicate Accepts(challenge: string, expected: seq<byte>) {
    expected != [] && challenge in Candidates(expected)
  }

  method VerifyChallenge(challenge: string, expected: seq<byte>) returns (ok: bool)
    ensures ok <==> Accepts(challenge, expected)
  {
    if |expected| == 0 {
      return false;
    }
    var candidates := Candidates(expected);
    for i := 0 to |candidates|
      invariant challenge !in candidates[..i]
    {
      if candidates[i] == challenge {
        return true;
      }
    }
    return false;
  }

  /** Which of the spellings a challenge is written in. */
  datatype Spelling = InBase64(url: bool, padded: bool) | InHex(upper: bool)

  function Spell(spelling: Spelling, data: seq<byte>): string {
    match spelling
    case InBase64(url, padded) => Base64(data, url, padded)
    case InHex(upper) => Hex(data, upper)
  }

  lemma {:induction false} AcceptedSpelling(challenge: string, expected: seq<byte>) returns (spelling: Spelling)
    requires Accepts(challenge, expected)
    ensures challenge == Spell(spelling, expected)
  {
    var i :| 0 <= i < 6 && Candidates(expected)[i] == challenge;
    spelling := [InBase64(true, false), InBase64(true, true), InBase64(false, false), InBase64(false, true),
                 InHex(false), InHex(true)][i];
  }

  /** Exactly the six spellings of a non-empty payload are accepted. */
  lemma {:induction false} AcceptsExactlySpellings(challenge: string, expected: seq<byte>)
    ensures Accepts(challenge, expected)
            <==> expected != [] && exists spelling: Spelling :: challenge == Spell(spelling, expected)
  {
    if Accepts(challenge, expected) {
      var spelling := AcceptedSpelling(challenge, expected);
    }
    if expected != [] {
      forall spelling: Spelling | challenge == Spell(spelling, expected) ensures Accepts(challenge, expected) {
        var i := match spelling
                 case InBase64(true, padded) => if padded then 1 else 0
                 case InBase64(false, padded) => if padded then 3 else 2
                 case InHex(upper) => if upper then 5 else 4;
        assert Candidates(expected)[i] == challenge;
      }
    }
  }

  lemma {:induction false} HexHasNoPadding(data: seq<byte>, upper: bool)
    ensures '=' !in Hex(data, upper)
  {
    if data != [] {
      HexHasNoPadding(data[1..], upper);
    }
  }

  lemma {:induction false} PaddingEnds(data: seq<byte>, url: bool)
    requires |data| % 3 != 0
    ensures '=' in Base64(data, url, true)
  {
    if |data| > 2 {
      PaddingEnds(data[3..], url);
    }
  }

  /** Hexadecimal of m bytes is as long as unpadded base64 of n bytes. */
  predicate SameLength(m: nat, n: nat) {
    2 * m == (4 * n + 2) / 3
  }

  /** A text is hexadecimal of one byte string and base64 of another only at such lengths. */
  lemma {:induction false} HexMeetsBase64(p: seq<byte>, upper: bool, q: seq<byte>, url: bool, padded: bool)
    requires Hex(p, upper) == Base64(q, url, padded)
    ensures SameLength(|p|, |q|)
  {
    Base64Length(q, url, padded);
    HexHasNoPadding(p, upper);
    if padded && |q| % 3 != 0 {
      PaddingEnds(q, url);
    }
  }

  /** Two payloads one challenge is accepted for are equal, or of lengths at which the two encodings meet. */
  lemma {:induction false} SharedChallenge(challenge: string, p: seq<byte>, q: seq<byte>)
    requires Accepts(challenge, p) && Accepts(challenge, q)
    ensures p == q || SameLength(|p|, |q|) || SameLength(|q|, |p|)
  {
    var x := AcceptedSpelling(challenge, p);
    var y := AcceptedSpelling(challenge, q);
    match (x, y)
    case (InBase64(_, _), InBase64(_, _)) =>
      Base64BytesOfBase64(p, x.url, x.padded);
      Base64BytesOfBase64(q, y.url, y.padded);
    case (InHex(_), InHex(_)) =>
      HexBytesOfHex(p, x.upper);
      HexBytesOfHex(q, y.upper);
    case (InHex(_), InBase64(_, _)) => HexMeetsBase64(p, x.upper, q, y.url, y.padded);
    case (InBase64(_, _), InHex(_)) => HexMeetsBase64(q, y.upper, p, x.url, x.padded);
  }

  /** A 32-byte payload, or one of any other length but one, shares no challenge with another of its length. */
  lemma {:induction false} ChallengeNamesOnePayload(challenge: string, p: seq<byte>, q: seq<byte>)
    requires |p| == |q| != 1 && Accepts(challenge, p) && Accepts(challenge, q)
    ensures p == q
  {
    SharedChallenge(challenge, p, q);
  }

  function Run<T>(x: T, n: nat): (s: seq<T>)
    ensures |s| == n
  {
    if n == 0 then [] else [x] + Run(x, n - 1)
  }

  lemma {:induction false} RunTail<T>(x: T, n: nat, k: nat)
    requires k <= n
    ensures Run(x, n)[k..] == Run(x, n - k)
    ensures forall i :: 0 <= i < k ==> Run(x, n)[i] == x
  {
    if k > 0 {
      RunTail(x, n - 1, k - 1);
      assert Run(x, n)[k..] == Run(x, n - 1)[k - 1..];
    }
  }

  /** A run of A's is upper-case hexadecimal of 0xAA over and over. */
  lemma {:induction false} HexRun(m: nat)
    ensures Hex(Run<byte>(0xAA, m), true) == Run('A', 2 * m)
  {
    if m > 0 {
      var data := Run<byte>(0xAA, m);
      assert data[1..] == Run<byte>(0xAA, m - 1);
      HexRun(m - 1);
      assert Run('A', 2 * m) == ['A'] + (['A'] + Run('A', 2 * m - 2));
    }
  }

  /** It is also unpadded base64 of zero bytes. */
  lemma {:induction false} Base64Run(n: nat)
    ensures Base64(Run<byte>(0, n), false, false) == Run('A', (4 * n + 2) / 3)
  {
    var data := Run<byte>(0, n);
    if n >= 3 {
      Base64Run(n - 3);
      RunTail<byte>(0, n, 3);
      Base64ZeroGroup(data, (4 * (n - 3) + 2) / 3);
      assert (4 * n + 2) / 3 == (4 * (n - 3) + 2) / 3 + 4;
    } else {
      Base64ShortRun(n);
    }
  }

  lemma {:induction false} Base64ZeroGroup(data: seq<byte>, k: nat)
    requires |data| > 2 && data[0] == data[1] == data[2] == 0
    requires Base64(data[3..], false, false) == Run('A', k)
    ensures Base64(data, false, false) == Run('A', k + 4)
  {
    Base64Group(data, false, false);
    assert Sextet(0, false) == 'A';
    FourMore(k);
  }

  lemma {:induction false} FourMore(k: nat)
    ensures Run('A', k + 4) == ['A', 'A', 'A', 'A'] + Run('A', k)
  {
    assert Run('A', k + 4) == ['A'] + Run('A', k + 3);
    assert Run('A', k + 3) == ['A'] + Run('A', k + 2);
    assert Run('A', k + 2) == ['A'] + Run('A', k + 1);
  }

  lemma {:induction false} Base64ShortRun(n: nat)
    requires n < 3
    ensures Base64(Run<byte>(0, n), false, false) == Run('A', (4 * n + 2) / 3)
  {
    RunTail<byte>(0, n, n);
    if n == 1 {
      assert Run('A', 2) == ['A'] + Run('A', 1);
    } else if n == 2 {
      assert Run('A', 3) == ['A'] + Run('A', 2) && Run('A', 2) == ['A'] + Run('A', 1);
    }
  }

  /** Some challenge is accepted for two different payloads, one of m bytes and one of n. */
  ghost predicate Collide(m: nat, n: nat) {
    exists challenge, p, q :: |p| == m && |q| == n && p != q && Accepts(challenge, p) && Accepts(challenge, q)
  }

  lemma {:induction false} RunsCollide(m: nat, n: nat)
    requires m > 0 && n > 0 && SameLength(m, n)
    ensures Collide(m, n) && Collide(n, m)
  {
    var p, q, challenge := Run<byte>(0xAA, m), Run<byte>(0, n), Run('A', 2 * m);
    HexRun(m);
    Base64Run(n);
    assert Candidates(p)[5] == challenge && Candidates(q)[2] == challenge;
    assert p[0] == 0xAA && q[0] == 0;
    assert Accepts(challenge, p) && Accepts(challenge, q);
  }

  /**
   Exactly which pairs of lengths share a challenge: those at which hexadecimal and unpadded base64
   are equally long.
   */
  lemma {:induction false} CollidingLengths(m: nat, n: nat)
    ensures Collide(m, n) <==> m > 0 && n > 0 && (SameLength(m, n) || SameLength(n, m))
  {
    if Collide(m, n) {
      var challenge, p, q :| |p| == m && |q| == n && p != q && Accepts(challenge, p) && Accepts(challenge, q);
      SharedChallenge(challenge, p, q);
    }
    if m > 0 && n > 0 && SameLength(m, n) { RunsCollide(m, n); }
    if m > 0 && n > 0 && SameLength(n, m) { RunsCollide(n, m); }
  }

  /**
   So payloads of one length never share a challenge, the 32-byte payloads among them, unless they
   are a single byte.
   */
  lemma {:induction false} UnambiguousUnlessOneByte(n: nat)
    ensures !Collide(n, n) <==> n != 1
  {
    CollidingLengths(n, n);
  }
}
