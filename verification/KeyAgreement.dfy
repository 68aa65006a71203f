/**
  The key agreement of a secret service session: a group, a shared secret, and the bytes both sides derive a key from.
*/
module KeyAgreement {
  import opened Wrappers

  type Byte = b: int | 0 <= b < 256

  datatype Group = Group(g: nat, p: nat)

  /** The second Oakley group, section 6.2 of RFC 2409. */
  const OAKLEY: Group := Group(2,
    0xFFFFFFFFFFFFFFFFC90FDAA22168C234C4C6628B80DC1CD129024E088A67CC74020BBEA63B139B22514A08798E3404DDEF9519B3CD3A431B302B0A6DF25F14374FE1356D6D51C245E485B576625E7EC6F44C42E9A637ED6B0BFF5CB6F406B7EDEE386BFB5A899FA5AE9F24117C4B1FE649286651ECE65381FFFFFFFFFFFFFFFF)

  // ----- powers -----

  function Pow(b: nat, e: nat): nat {
    if e == 0 then 1 else b * Pow(b, e - 1)
  }

  function Exp(b: nat, e: nat, m: nat): (r: nat)
    requires m > 0
    ensures r < m
  {
    Pow(b, e) % m
  }

  lemma {:induction false} PowAdd(b: nat, d: nat, e: nat)
    ensures Pow(b, d + e) == Pow(b, d) * Pow(b, e)
  {
    if d > 0 {
      PowAdd(b, d - 1, e);
      assert b * (Pow(b, d - 1) * Pow(b, e)) == b * Pow(b, d - 1) * Pow(b, e);
    }
  }

  /** Exponentiation is repeated multiplication, reduced at each step. */
  lemma ExpSteps(b: nat, e: nat, m: nat)
    requires m > 0
    ensures Exp(b, 0, m) == 1 % m && Exp(b, e + 1, m) == Exp(b, e, m) * b % m
  {
    ModMul(Pow(b, e), b, m);
    assert Pow(b, e + 1) == b * Pow(b, e) == Pow(b, e) * b;
  }

  lemma {:induction false} PowMul(b: nat, d: nat, e: nat)
    ensures Pow(Pow(b, d), e) == Pow(b, d * e)
  {
    if e == 0 {
      assert d * 0 == 0;
    } else {
      PowMul(b, d, e - 1);
      PowAdd(b, d, d * (e - 1));
      assert d * e == d + d * (e - 1);
    }
  }

  lemma {:induction false} PowPositive(b: nat, e: nat)
    requires b > 0
    ensures Pow(b, e) > 0
  {
    if e > 0 { PowPositive(b, e - 1); }
  }

  lemma ModUnique(a: nat, m: nat, q: int, r: nat)
    requires m > 0 && r < m && a == q * m + r
    ensures a % m == r
  {
    var d := a / m - q;
    assert d * m == r - a % m by { assert (a / m) * m - q * m == d * m; }
    assert d >= 1 ==> d * m >= m;
    assert d <= -1 ==> d * m + m <= 0;
  }

  lemma Regroup(q: int, r: int, b: int, s: int, t: int, m: int)
    requires r * b == s * m + t
    ensures (q * m + r) * b == (q * b + s) * m + t
  {
    assert (q * m + r) * b == q * m * b + r * b;
    assert q * m * b == q * b * m;
  }

  lemma ModMul(a: nat, b: nat, m: nat)
    requires m > 0
    ensures (a % m) * b % m == a * b % m && b * (a % m) % m == b * a % m
  {
    var q, r := a / m, a % m;
    var s, t := r * b / m, r * b % m;
    Regroup(q, r, b, s, t, m);
    ModUnique(a * b, m, q * b + s, t);
  }

  lemma {:induction false} PowMod(b: nat, e: nat, m: nat)
    requires m > 0
    ensures Pow(b % m, e) % m == Pow(b, e) % m
  {
    if e > 0 {
      PowMod(b, e - 1, m);
      ModMul(b, Pow(b % m, e - 1), m);
      ModMul(Pow(b % m, e - 1), b, m);
      ModMul(Pow(b, e - 1), b, m);
    }
  }

  /** Raising each other's public values gives both sides the same secret, in any group. */
  lemma SharedSecret(g: nat, x: nat, y: nat, m: nat)
    requires m > 0
    ensures Exp(Exp(g, x, m), y, m) == Exp(Exp(g, y, m), x, m)
  {
    PowMod(Pow(g, x), y, m);
    PowMod(Pow(g, y), x, m);
    PowMul(g, x, y);
    PowMul(g, y, x);
    assert x * y == y * x;
  }

  // ----- numbers as bytes, most significant first -----

  /** The minimal encoding, without leading zeros. */
  function Bytes(n: nat): seq<Byte> {
    if n == 0 then [] else Bytes(n / 256) + [n % 256]
  }

  /** The encoding in a buffer of fixed width, which the number must fit. */
  function FillBytes(n: nat, width: nat): (s: seq<Byte>)
    requires n < Pow(256, width)
    ensures |s| == width
  {
    if width == 0 then [] else FillBytes(n / 256, width - 1) + [n % 256]
  }

  function SetBytes(s: seq<Byte>): nat {
    if s == [] then 0 else SetBytes(s[..|s| - 1]) * 256 + s[|s| - 1]
  }

  function BitLen(n: nat): nat {
    if n == 0 then 0 else 1 + BitLen(n / 2)
  }

  /** The wire form is undone. */
  lemma {:induction false} BytesRoundTrip(n: nat)
    ensures SetBytes(Bytes(n)) == n
  {
    if n > 0 {
      BytesRoundTrip(n / 256);
      assert Bytes(n)[..|Bytes(n)| - 1] == Bytes(n / 256);
    }
  }

  /** So is the fixed-width form. */
  lemma {:induction false} FillBytesRoundTrip(n: nat, width: nat)
    requires n < Pow(256, width)
    ensures SetBytes(FillBytes(n, width)) == n
  {
    if width > 0 {
      FillBytesRoundTrip(n / 256, width - 1);
      assert FillBytes(n, width)[..width - 1] == FillBytes(n / 256, width - 1);
    }
  }

  /** The minimal form is the fixed-width form exactly for numbers whose leading byte is not zero. */
  lemma {:induction false} MinimalIsFixed(n: nat, width: nat)
    requires width > 0 && n < Pow(256, width)
    ensures Bytes(n) == FillBytes(n, width) <==> n >= Pow(256, width - 1)
  {
    if width == 1 {
      assert Pow(256, 1) == 256 && FillBytes(n / 256, 0) == [];
      assert n > 0 ==> Bytes(n) == Bytes(0) + [n] == [n];
    } else if n > 0 {
      MinimalIsFixed(n / 256, width - 1);
      assert Bytes(n)[..|Bytes(n)| - 1] == Bytes(n / 256);
      assert FillBytes(n, width)[..width - 1] == FillBytes(n / 256, width - 1);
    } else {
      PowPositive(256, width - 1);
    }
  }

  lemma {:induction false} BitLenBounds(n: nat)
    ensures n < Pow(2, BitLen(n))
    ensures n > 0 ==> Pow(2, BitLen(n) - 1) <= n
  {
    if n > 0 { BitLenBounds(n / 2); }
  }

  lemma TimesAtLeast(b: nat, k: nat)
    requires b > 0
    ensures b * k >= k
  {
    assert b * k == k + (b - 1) * k;
  }

  lemma {:induction false} PowMonotone(b: nat, d: nat, e: nat)
    requires b > 0 && d <= e
    ensures Pow(b, d) <= Pow(b, e)
  {
    if d < e {
      PowMonotone(b, d, e - 1);
      PowStep(b, e);
    }
  }

  lemma PowStep(b: nat, e: nat)
    requires b > 0 && e > 0
    ensures Pow(b, e - 1) <= Pow(b, e)
  {
    var k := Pow(b, e - 1);
    assert Pow(b, e) == b * k;
    hide Pow;
    TimesAtLeast(b, k);
  }

  function Width(group: Group): nat { (BitLen(group.p) + 7) / 8 }

  /** Everything below the prime fits the buffer sized by its bit length, so filling it never fails. */
  lemma SecretFits(group: Group, n: nat)
    requires n < group.p
    ensures n < Pow(256, Width(group))
  {
    BitLenBounds(group.p);
    PowMonotone(2, BitLen(group.p), 8 * Width(group));
    PowMul(2, 8, Width(group));
    assert Pow(2, 8) == 256;
  }

  /** The group's prime has 1024 bits, so its secrets take 128 bytes. */
  lemma OakleyWidth()
    ensures BitLen(OAKLEY.p) == 1024 && Width(OAKLEY) == 128
  {
    assert Pow(2, 8) == 0x100 && Pow(2, 1) == 2;
    hide Pow, BitLen;
    PowAdd(2, 8, 8);
    PowAdd(2, 16, 16);
    PowAdd(2, 32, 32);
    PowAdd(2, 64, 64);
    PowAdd(2, 128, 128);
    PowAdd(2, 256, 256);
    PowAdd(2, 512, 512);
    PowAdd(2, 1, 1023);
    BitLenBounds(OAKLEY.p);
    var k := BitLen(OAKLEY.p);
    if k < 1024 { PowMonotone(2, k, 1023); }
    if k > 1024 { PowMonotone(2, 1024, k - 1); }
  }

  // ----- the session's steps -----

  /** A draw of the random source: a number below the bound, or a failure. */
  type Draws = seq<Option<nat>>

  /** Draws until a positive exponent comes up; the source may fail, as it does where the draws end. */
  method NewKeypair(group: Group, draws: Draws) returns (r: Option<(nat, nat)>)
    requires group.p > 2 && forall i | 0 <= i < |draws| && draws[i].Some? :: draws[i].value < group.p - 1
    ensures r.Some? ==> 0 < r.value.0 < group.p - 1 && r.value.1 == Exp(group.g, r.value.0, group.p)
    ensures r.Some? <==> exists i ::
              0 <= i < |draws| && draws[i].Some? && draws[i].value > 0 && forall k | 0 <= k < i :: draws[k] == Some(0)
  {
    var i := 0;
    while true
      invariant 0 <= i <= |draws| && forall k | 0 <= k < i :: draws[k] == Some(0)
      decreases |draws| - i
    {
      if i == |draws| || draws[i].None? { return None; }
      var private := draws[i].value;
      if private > 0 {
        return Some((private, Exp(group.g, private, group.p)));
      }
      i := i + 1;
    }
  }

  predicate Accepts(group: Group, theirs: nat) { 1 < theirs < group.p - 1 }

  function DiffieHellman(group: Group, theirs: nat, mine: nat): (r: Option<nat>)
    requires group.p > 0
    ensures r.Some? ==> r.value < group.p
  {
    if theirs <= 1 || theirs >= group.p - 1 then None else Some(Exp(theirs, mine, group.p))
  }

  /** The bytes that key derivation gets: the shared secret in the width of the prime. */
  function KeyInput(group: Group, theirs: nat, mine: nat): Option<seq<Byte>>
    requires group.p > 0
  {
    var secret := DiffieHellman(group, theirs, mine);
    if secret.None? then None
    else
      SecretFits(group, secret.value);
      Some(FillBytes(secret.value, Width(group)))
  }

  function Public(group: Group, private: nat): nat
    requires group.p > 0
  {
    Exp(group.g, private, group.p)
  }

  /** A public value as the other side reads it off the wire, where it has its minimal form. */
  function Received(group: Group, private: nat): nat
    requires group.p > 0
  {
    SetBytes(Bytes(Public(group, private)))
  }

  /**
    Two sides that draw their exponents, send their public values in the minimal wire form and accept what they
    get, feed identical bytes, as many as the prime has, to key derivation.
  */
  lemma SameKeyInput(group: Group, x: nat, y: nat)
    requires group.p > 0
    ensures var (mine, theirs) := (KeyInput(group, Received(group, y), x), KeyInput(group, Received(group, x), y));
            && (mine.Some? <==> Accepts(group, Public(group, y)))
            && (theirs.Some? <==> Accepts(group, Public(group, x)))
            && (mine.Some? && theirs.Some? ==> mine == theirs && |mine.value| == Width(group))
  {
    BytesRoundTrip(Public(group, x));
    BytesRoundTrip(Public(group, y));
    SharedSecret(group.g, x, y, group.p);
  }

  /** Had one side used the minimal form of the secret, the two would agree exactly when it has no leading zero byte. */
  lemma MinimalKeyInputDiffers(group: Group, theirs: nat, mine: nat)
    requires group.p > 0 && Accepts(group, theirs)
    ensures KeyInput(group, theirs, mine) == Some(Bytes(Exp(theirs, mine, group.p)))
            <==> Exp(theirs, mine, group.p) >= Pow(256, Width(group) - 1)
  {
    SecretFits(group, Exp(theirs, mine, group.p));
    assert BitLen(group.p) > 0;
    MinimalIsFixed(Exp(theirs, mine, group.p), Width(group));
  }
}
