/**
 * ECDSA-style signing with a reusable nonce and private-key recovery from two
 * signatures sharing it (test_nonce_reuse.py).
 *
 * The message digests (SHA-256 read as an integer) are inputs. `r` is the
 * source's simplified `(k * G_X) mod N`, not a curve point multiplication.
 * The theorems are stated over a generic modulus m; the source's fixed
 * parameters are the instance m = N, gx = G_X.
 */
module NonceReuse {
  import opened Wrappers
  import opened ModularArithmetic

  /** The secp256k1 group order, the source's `N`. */
  const N: int := 0xFFFFFFFFFFFFFFFFFFFFFFFFFFFFFFFEBAAEDCE6AF48A03BBFD25E8CD0364141
  /** The x-coordinate of the secp256k1 generator, the source's `G_X`. */
  const G_X: int := 0x79BE667EF9DCBBAC55A06295CE870B07029BFCDB2DCE28D959F2815B16F81798
  /** The nonce `sign_message` falls back to when none is given. */
  const DefaultNonce: int := 42

  datatype Signature = Signature(r: int, s: int)

  /** The source raises ValueError for both: no modular inverse, or differing r values. */
  datatype Error = NoModularInverse(gcd: nat) | DifferentNonce

  /** s = k^-1 (z + r d) mod m with z = digest mod m and r = (k gx) mod m. */
  function Sign(m: int, gx: int, d: int, digest: int, k: int): (res: Result<Signature, Error>)
    requires m > 0
    ensures res.Ok? <==> Gcd(k % m, m) == 1
    ensures res.Err? ==> res.error == NoModularInverse(Gcd(k % m, m))
    ensures res.Ok? ==> res.value.r == (k * gx) % m
    ensures res.Ok? ==> 0 <= res.value.s < m
    ensures res.Ok? ==> (res.value.s * k) % m == (digest % m + res.value.r * d) % m
  {
    var z := digest % m;
    var r := (k * gx) % m;
    match Inverse(k, m)
    case Err(NoInverse(g)) => Err(NoModularInverse(g))
    case Ok(kInv) =>
      var s := (kInv * (z + r * d)) % m;
      SignEquation(m, k, kInv, z + r * d);
      Ok(Signature(r, s))
  }

  /** Multiplying (u * w) mod m by k, where u k == 1 mod m, gives back w mod m. */
  lemma SignEquation(m: int, k: int, u: int, w: int)
    requires m > 0 && (k * u) % m == 1 % m
    ensures (((u * w) % m) * k) % m == w % m
  {
    ModMod(u * w, m);
    CongMul((u * w) % m, u * w, k, k, m);
    assert (u * w) * k == (k * u) * w;
    CongMul(k * u, 1, w, w, m);
  }

  /** `sign_message(private_key, message, k)`: Sign with the source's fixed
      parameters N and G_X and, when k is omitted, the fixed nonce 42. */
  function SignMessage(privateKey: int, digest: nat, k: Option<int>): (res: Result<Signature, Error>)
    ensures res.Ok? ==> res.value.r == ((if k.Some? then k.value else DefaultNonce) * G_X) % N
    ensures res.Ok? ==> 0 <= res.value.s < N
    ensures res.Err? ==> res.error.NoModularInverse?
  {
    Sign(N, G_X, privateKey, digest, if k.Some? then k.value else DefaultNonce)
  }

  /** With a nonce given, `sign_message` satisfies the signing equation modulo N. */
  lemma SignMessageWithNonce(privateKey: int, digest: nat, k: int)
    ensures SignMessage(privateKey, digest, Some(k)).Ok? <==> Gcd(k % N, N) == 1
    ensures var res := SignMessage(privateKey, digest, Some(k));
            res.Ok? ==>
              && res.value.r == (k * G_X) % N && 0 <= res.value.s < N
              && (res.value.s * k) % N == (digest % N + res.value.r * privateKey) % N
  {
    SignFacts(N, G_X, privateKey, digest, k, SignMessage(privateKey, digest, Some(k)));
  }

  /**
   * Sign's own postconditions, restated for a result passed in by name. It is
   * not a second specification of signing: it only lets the solver apply
   * Sign's contract to SignMessage's result without unfolding either body.
   */
  lemma SignFacts(m: int, gx: int, d: int, digest: int, k: int, res: Result<Signature, Error>)
    requires m > 0 && res == Sign(m, gx, d, digest, k)
    ensures res.Ok? <==> Gcd(k % m, m) == 1
    ensures res.Ok? ==>
              && res.value.r == (k * gx) % m && 0 <= res.value.s < m
              && (res.value.s * k) % m == (digest % m + res.value.r * d) % m
  {
  }

  /** Two signatures made with the same nonce carry the same r, whatever the keys and messages. */
  lemma SameNonceSameR(m: int, gx: int, d1: int, d2: int, digest1: int, digest2: int, k: int)
    requires m > 0
    requires Sign(m, gx, d1, digest1, k).Ok? && Sign(m, gx, d2, digest2, k).Ok?
    ensures Sign(m, gx, d1, digest1, k).value.r == Sign(m, gx, d2, digest2, k).value.r
  {
  }

  /**
   * The nonce step of recovery: k = (s1 - s2)^-1 (z1 - z2) mod m. The result
   * solves (s1 - s2) k == z1 - z2 modulo m.
   */
  function RecoverNonce(m: int, z1: int, z2: int, s1: int, s2: int): (res: Result<nat, Error>)
    requires m > 0
    ensures res.Ok? <==> Gcd((s1 - s2) % m, m) == 1
    ensures res.Err? ==> res.error == NoModularInverse(Gcd((s1 - s2) % m, m))
    ensures res.Ok? ==> res.value < m && ((s1 - s2) * res.value) % m == (z1 - z2) % m
  {
    var sDiff := (s1 - s2) % m;
    var zDiff := (z1 - z2) % m;
    ModMod(s1 - s2, m);
    match Inverse(sDiff, m)
    case Err(NoInverse(g)) => Err(NoModularInverse(g))
    case Ok(u) =>
      var k := (u * zDiff) % m;
      MulModLeft(s1 - s2, k, m);
      assert sDiff * u == u * sDiff;
      SignEquation(m, sDiff, u, zDiff);
      assert (k * sDiff) % m == (sDiff * k) % m by { assert k * sDiff == sDiff * k; }
      ModMod(z1 - z2, m);
      Ok(k)
  }

  /**
   * `recover_private_key_from_nonce_reuse`: refuses signatures with different r,
   * then recovers the nonce and d = (s1 k - z1) r^-1 mod m. The recovered nonce
   * and key explain both signatures: s_i k == z_i + r d modulo m.
   */
  function RecoverPrivateKey(m: int, digest1: int, sig1: Signature, digest2: int, sig2: Signature): (res: Result<nat, Error>)
    requires m > 0
    ensures res == Err(DifferentNonce) <==> sig1.r != sig2.r
    ensures sig1.r == sig2.r && Gcd((sig1.s - sig2.s) % m, m) != 1 ==>
              res == Err(NoModularInverse(Gcd((sig1.s - sig2.s) % m, m)))
    ensures sig1.r == sig2.r && Gcd((sig1.s - sig2.s) % m, m) == 1 && Gcd(sig1.r % m, m) != 1 ==>
              res == Err(NoModularInverse(Gcd(sig1.r % m, m)))
    ensures res.Ok? <==> sig1.r == sig2.r && Gcd((sig1.s - sig2.s) % m, m) == 1 && Gcd(sig1.r % m, m) == 1
    ensures res.Ok? ==>
              var k := RecoverNonce(m, digest1 % m, digest2 % m, sig1.s, sig2.s).value;
              && res.value < m
              && (sig1.s * k) % m == (digest1 % m + sig1.r * res.value) % m
              && (sig2.s * k) % m == (digest2 % m + sig2.r * res.value) % m
  {
    if sig1.r != sig2.r then Err(DifferentNonce)
    else
      var z1 := digest1 % m;
      var z2 := digest2 % m;
      match RecoverNonce(m, z1, z2, sig1.s, sig2.s)
      case Err(e) => Err(e)
      case Ok(k) =>
        match Inverse(sig1.r, m)
        case Err(NoInverse(g)) => Err(NoModularInverse(g))
        case Ok(rInv) =>
          var d := ((sig1.s * k - z1) * rInv) % m;
          RecoveredKeyExplains(m, z1, z2, sig1.r, sig1.s, sig2.s, k, rInv, d);
          Ok(d)
  }

  /** The algebra behind RecoverPrivateKey's guarantee. */
  lemma RecoveredKeyExplains(m: int, z1: int, z2: int, r: int, s1: int, s2: int, k: int, rInv: int, d: int)
    requires m > 0
    requires ((s1 - s2) * k) % m == (z1 - z2) % m
    requires (r * rInv) % m == 1 % m
    requires d == ((s1 * k - z1) * rInv) % m
    ensures (s1 * k) % m == (z1 + r * d) % m
    ensures (s2 * k) % m == (z2 + r * d) % m
  {
    var a, c, e := s1 * k, (s1 - s2) * k, r * d;
    SubtractProducts(s1, s2, k);
    // r d == s1 k - z1 modulo m
    CancelInverse(m, r, rInv, a - z1, d);
    CongAdd(z1, z1, e, a - z1, m);
    assert z1 + (a - z1) == a;
    // s2 k == s1 k - (s1 - s2) k == s1 k - (z1 - z2) == z2 + r d modulo m
    CongSub(a, z1 + e, c, z1 - z2, m);
    assert (z1 + e) - (z1 - z2) == z2 + e;
  }

  lemma SubtractProducts(s1: int, s2: int, k: int)
    ensures s2 * k == s1 * k - (s1 - s2) * k
  {
  }

  /** d == w rInv mod m with r rInv == 1 mod m gives r d == w modulo m. */
  lemma CancelInverse(m: int, r: int, rInv: int, w: int, d: int)
    requires m > 0 && (r * rInv) % m == 1 % m && d == (w * rInv) % m
    ensures (r * d) % m == w % m
  {
    SignEquation(m, r, rInv, w);
    assert w * rInv == rInv * w;
    assert r * d == d * r;
  }

  /** Subtracting the two signing equations eliminates the key: (s1 - s2) k == z1 - z2. */
  lemma SignaturesDiffer(m: int, r: int, d: int, z1: int, z2: int, s1: int, s2: int, k: int)
    requires m > 0
    requires (s1 * k) % m == (z1 + r * d) % m && (s2 * k) % m == (z2 + r * d) % m
    ensures ((s1 - s2) * k) % m == (z1 - z2) % m
  {
    CongSub(s1 * k, z1 + r * d, s2 * k, z2 + r * d, m);
    assert s1 * k - s2 * k == (s1 - s2) * k;
    assert (z1 + r * d) - (z2 + r * d) == z1 - z2;
  }

  /** If a k == b modulo m and b is invertible, then a is invertible too. */
  lemma InvertibleFactor(m: int, a: int, k: int, b: int)
    requires m > 0 && (a * k) % m == b % m && Gcd(b % m, m) == 1
    ensures Gcd(a % m, m) == 1
  {
    var w := Inverse(b, m).value;
    CongMul(a * k, b, w, w, m);
    Assoc(a, k, w);
    InverseFailsIffNoneExists(a, m);
  }

  lemma Rearrange(u: int, a: int, x: int)
    ensures u * (a * x) == (a * u) * x
  {
  }

  /**
   * Round trip: two signatures made with the same key d and the same nonce k
   * on digests whose difference is invertible give back k mod m and d mod m,
   * hence d itself when 0 <= d < m.
   */
  lemma RecoverAfterNonceReuse(m: int, gx: int, d: int, digest1: int, digest2: int, k: int)
    requires m > 0
    requires Gcd(k % m, m) == 1
    requires Gcd((k * gx) % m, m) == 1
    requires Gcd((digest1 % m - digest2 % m) % m, m) == 1
    ensures Sign(m, gx, d, digest1, k).Ok? && Sign(m, gx, d, digest2, k).Ok?
    ensures
      var sig1, sig2 := Sign(m, gx, d, digest1, k).value, Sign(m, gx, d, digest2, k).value;
      && RecoverNonce(m, digest1 % m, digest2 % m, sig1.s, sig2.s) == Ok(k % m)
      && RecoverPrivateKey(m, digest1, sig1, digest2, sig2) == Ok(d % m)
    ensures 0 <= d < m ==>
      RecoverPrivateKey(m, digest1, Sign(m, gx, d, digest1, k).value, digest2, Sign(m, gx, d, digest2, k).value) == Ok(d)
  {
    var sig1, sig2 := Sign(m, gx, d, digest1, k).value, Sign(m, gx, d, digest2, k).value;
    var z1, z2 := digest1 % m, digest2 % m;
    var r := sig1.r;
    ModMod(digest1, m);
    ModMod(digest2, m);
    ModMod(k * gx, m);
    // the nonce step succeeds and returns k mod m
    SignaturesDiffer(m, r, d, z1, z2, sig1.s, sig2.s, k);
    InvertibleFactor(m, sig1.s - sig2.s, k, z1 - z2);
    var kRec := RecoverNonce(m, z1, z2, sig1.s, sig2.s).value;
    NonceDetermined(m, sig1.s - sig2.s, z1 - z2, k, kRec);
    ModUnique(kRec, m, 0, kRec);
    // the key step: r dRec == s1 kRec - z1 == r d modulo m, and r is invertible
    var dRec := RecoverPrivateKey(m, digest1, sig1, digest2, sig2).value;
    KeyDetermined(m, r, z1, sig1.s, k, kRec, d, dRec);
    ModUnique(dRec, m, 0, dRec);
    if 0 <= d < m {
      ModUnique(d, m, 0, d);
    }
  }

  /** Both d and dRec satisfy the first signing equation, with nonces equal modulo m. */
  lemma KeyDetermined(m: int, r: int, z1: int, s1: int, k: int, kRec: int, d: int, dRec: int)
    requires m > 0 && Gcd(r % m, m) == 1 && kRec == k % m
    requires (s1 * k) % m == (z1 + r * d) % m
    requires (s1 * kRec) % m == (z1 + r * dRec) % m
    ensures dRec % m == d % m
  {
    ModMod(k, m);
    CongMul(s1, s1, kRec, k, m);
    CongSub(z1 + r * dRec, z1 + r * d, z1, z1, m);
    assert z1 + r * dRec - z1 == r * dRec && z1 + r * d - z1 == r * d;
    FactorCancels(m, r, dRec, d);
  }

  /** An invertible factor determines the solution of a x == b modulo m. */
  lemma NonceDetermined(m: int, a: int, b: int, x: int, y: int)
    requires m > 0 && Gcd(a % m, m) == 1
    requires (a * x) % m == b % m && (a * y) % m == b % m
    ensures x % m == y % m
  {
    var u := Inverse(a, m).value;
    CongMul(u, u, a * x, a * y, m);
    Rearrange(u, a, x);
    Rearrange(u, a, y);
    CongMul(a * u, 1, x, x, m);
    CongMul(a * u, 1, y, y, m);
  }

  /** Cancelling an invertible factor: r x == r y modulo m forces x == y modulo m. */
  lemma FactorCancels(m: int, r: int, x: int, y: int)
    requires m > 0 && Gcd(r % m, m) == 1
    requires (r * x) % m == (r * y) % m
    ensures x % m == y % m
  {
    NonceDetermined(m, r, r * y, x, y);
  }

  /**
   * The same round trip for a prime modulus: it suffices that k and r are
   * non-zero and the two digests differ modulo m.
   */
  lemma RecoverAfterNonceReusePrime(m: int, gx: int, d: int, digest1: int, digest2: int, k: int)
    requires IsPrime(m)
    requires k % m != 0 && (k * gx) % m != 0 && digest1 % m != digest2 % m
    ensures Sign(m, gx, d, digest1, k).Ok? && Sign(m, gx, d, digest2, k).Ok?
    ensures RecoverPrivateKey(m, digest1, Sign(m, gx, d, digest1, k).value,
                              digest2, Sign(m, gx, d, digest2, k).value) == Ok(d % m)
  {
    PrimeResidueCoprime(k, m);
    ModMod(k * gx, m);
    PrimeResidueCoprime((k * gx) % m, m);
    var diff := digest1 % m - digest2 % m;
    if diff >= 0 {
      ModUnique(diff, m, 0, diff);
    } else {
      ModUnique(diff, m, -1, diff + m);
    }
    PrimeResidueCoprime(diff, m);
    RecoverAfterNonceReuse(m, gx, d, digest1, digest2, k);
  }

  /** Signatures whose r values differ are refused. */
  lemma DifferentRRefused(m: int, digest1: int, sig1: Signature, digest2: int, sig2: Signature)
    requires m > 0 && sig1.r != sig2.r
    ensures RecoverPrivateKey(m, digest1, sig1, digest2, sig2) == Err(DifferentNonce)
  {
  }
}
