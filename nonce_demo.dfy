/**
 * The concrete run of test_nonce_reuse.py's `main`: key 12345 and nonce 42
 * under the secp256k1 order N and generator coordinate G_X.
 */
module NonceReuseDemo {
  import opened Wrappers
  import opened ModularArithmetic
  import opened NonceReuse

  const DemoKey: int := 12345
  const DemoNonce: int := 42

  /** The demonstration nonce 42 is invertible modulo N. */
  lemma DemoNonceInvertible()
    ensures Gcd(DemoNonce % N, N) == 1
  {
    var x := 63409953629958868922431729885710044776553904248064828590474256006069469389756;
    assert (DemoNonce * x) % N == 1;
    CoprimeByWitness(DemoNonce, N, x);
  }

  /** The demonstration r = (42 * G_X) mod N is invertible modulo N. */
  lemma DemoRInvertible()
    ensures (DemoNonce * G_X) % N == 112733351426640721074457478432008192498611623756235772101509769447497834235677
    ensures Gcd((DemoNonce * G_X) % N, N) == 1
  {
    var r := 112733351426640721074457478432008192498611623756235772101509769447497834235677;
    var x := 321420194315154236637150032379614088596726295845969989191554829017533128515;
    assert (DemoNonce * G_X) % N == r;
    assert (r * x) % N == 1;
    CoprimeByWitness(r, N, x);
    assert r % N == r;
  }

  /**
   * `main`: signing two messages with key 12345 and nonce 42 and running the
   * recovery returns 12345, for any two digests whose difference is invertible
   * modulo N (the digests are SHA-256 values this model does not compute).
   */
  lemma DemoRecoversKey(digest1: nat, digest2: nat)
    requires Gcd((digest1 % N - digest2 % N) % N, N) == 1
    ensures SignMessage(DemoKey, digest1, Some(DemoNonce)).Ok?
    ensures SignMessage(DemoKey, digest2, Some(DemoNonce)).Ok?
    ensures RecoverPrivateKey(N, digest1, SignMessage(DemoKey, digest1, Some(DemoNonce)).value,
                              digest2, SignMessage(DemoKey, digest2, Some(DemoNonce)).value) == Ok(DemoKey)
  {
    DemoNonceInvertible();
    DemoRInvertible();
    RecoverAfterNonceReuse(N, G_X, DemoKey, digest1, digest2, DemoNonce);
  }

  /** Leaving the nonce out of `sign_message` signs with the same fixed nonce 42. */
  lemma DefaultNonceIsReused(d1: int, d2: int, digest1: nat, digest2: nat)
    ensures SignMessage(d1, digest1, None).Ok? && SignMessage(d2, digest2, None).Ok?
    ensures SignMessage(d1, digest1, None).value.r == SignMessage(d2, digest2, None).value.r
  {
    DemoNonceInvertible();
  }
}
