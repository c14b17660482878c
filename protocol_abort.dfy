/**
 * The staged protocol of test_protocol_abort.py (class `MPCProtocol`): guarded
 * transitions INITIALIZED -> STARTED -> PHASE1_COMPLETED -> PHASE2_COMPLETED
 * -> FINALIZED, and an unguarded `abort` that hands back the accumulated
 * intermediate results without clearing them.
 *
 * The private key, the nonce (both drawn by `random.randint(1, 0xFFFFFFFF)`)
 * and the SHA-256 digest of the message are parameters.
 */
module ProtocolAbort {
  import opened Wrappers
  import opened ModularArithmetic

  newtype byte = b: int | 0 <= b < 256

  /** The upper bound of the source's `random.randint(1, 0xFFFFFFFF)` draws. */
  const MaxRandom: int := 0xFFFF_FFFF
  /** The modulus `finalize` reduces by (0xFFFF, not 65536). */
  const FinalModulus: int := 0xFFFF
  /** The length of a SHA-256 digest in bytes. */
  const DigestLength: nat := 32

  const NonceKey: string := "nonce"
  const Phase1Key: string := "phase1_result"
  const Phase2Key: string := "phase2_result"

  datatype State = Initialized | Started | Phase1Completed | Phase2Completed | Finalized | Aborted

  /** The source raises ValueError with one of these messages on a guard failure. */
  datatype ProtocolError = InvalidState(message: string)

  // ---------------------------------------------------------------------
  // Integers from bytes, and bitwise exclusive or
  // ---------------------------------------------------------------------

  /** `int.from_bytes(bytes, byteorder='big')`. */
  function BigEndian(bytes: seq<byte>): (n: nat)
    ensures n < Pow(256, |bytes|)
  {
    if bytes == [] then 0
    else
      var init := bytes[..|bytes| - 1];
      var n := BigEndian(init) * 256 + bytes[|bytes| - 1] as nat;
      assert n < Pow(256, |bytes|) by {
        assert BigEndian(init) <= Pow(256, |init|) - 1;
        assert BigEndian(init) * 256 <= (Pow(256, |init|) - 1) * 256;
      }
      n
  }

  /** The first four digest bytes read big-endian, as `phase2` uses them. */
  function HashWord(digest: seq<byte>): (w: nat)
    requires |digest| >= 4
    ensures w < 0x1_0000_0000
  {
    assert Pow(256, 4) == 0x1_0000_0000;
    BigEndian(digest[..4])
  }

  /** The word is the four leading bytes in big-endian place value, below 2^32. */
  lemma HashWordValue(digest: seq<byte>)
    requires |digest| >= 4
    ensures HashWord(digest) == digest[0] as nat * 0x100_0000 + digest[1] as nat * 0x1_0000
                                + digest[2] as nat * 0x100 + digest[3] as nat
    ensures HashWord(digest) < 0x1_0000_0000
  {
    var b0, b1, b2, b3 := digest[0] as nat, digest[1] as nat, digest[2] as nat, digest[3] as nat;
    assert [digest[0]][..0] == [];
    assert BigEndian([digest[0]]) == b0;
    assert [digest[0], digest[1]][..1] == [digest[0]];
    assert BigEndian([digest[0], digest[1]]) == b0 * 0x100 + b1;
    assert [digest[0], digest[1], digest[2]][..2] == [digest[0], digest[1]];
    assert BigEndian([digest[0], digest[1], digest[2]]) == b0 * 0x1_0000 + b1 * 0x100 + b2;
    assert digest[..4][..3] == [digest[0], digest[1], digest[2]];
    assert Pow(256, 4) == 0x1_0000_0000;
  }

  /** Python's `^` on non-negative integers. */
  function Xor(a: nat, b: nat): (x: nat)
    ensures x % 2 == (a + b) % 2
    decreases a + b
  {
    if a == 0 then b
    else if b == 0 then a
    else 2 * Xor(a / 2, b / 2) + (if a % 2 == b % 2 then 0 else 1)
  }

  /** The lowest bit of a ^ b is the sum of the lowest bits mod 2, and the rest is the ^ of the rest. */
  lemma XorDigits(a: nat, b: nat)
    ensures Xor(a, b) % 2 == (a + b) % 2
    ensures Xor(a, b) / 2 == Xor(a / 2, b / 2)
  {
    if a == 0 || b == 0 {
    } else {
      var half := Xor(a / 2, b / 2);
      var bit := if a % 2 == b % 2 then 0 else 1;
      assert Xor(a, b) == 2 * half + bit;
      ModUnique(2 * half + bit, 2, half, bit);
    }
  }

  /** Exclusive or with the same word twice gives back the original value. */
  lemma {:induction false} XorSelfInverse(a: nat, b: nat)
    ensures Xor(Xor(a, b), b) == a
    decreases a + b
  {
    if a != 0 || b != 0 {
      var c := Xor(a, b);
      var e := Xor(c, b);
      XorDigits(a, b);
      XorDigits(c, b);
      XorSelfInverse(a / 2, b / 2);
      assert e / 2 == a / 2;
      assert e % 2 == (a + b + b) % 2;
      assert e % 2 == a % 2;
    }
  }

  // ---------------------------------------------------------------------
  // The protocol object
  // ---------------------------------------------------------------------

  /** The keys `partial_results` holds in each state reached without an abort. */
  function RecordedKeys(s: State): set<string>
  {
    match s
    case Initialized => {}
    case Started => {NonceKey}
    case Phase1Completed => {NonceKey, Phase1Key}
    case Phase2Completed | Finalized | Aborted => {NonceKey, Phase1Key, Phase2Key}
  }

  /** No entry of `before` is missing from `after` or changed in it. */
  ghost predicate Extends(before: map<string, int>, after: map<string, int>)
  {
    forall k :: k in before ==> k in after && after[k] == before[k]
  }

  class MPCProtocol {
    const privateKey: int
    var state: State
    var nonce: Option<int>
    var messageHash: Option<seq<byte>>
    var partialResults: map<string, int>

    /**
     * The recorded values are the ones the phases compute from the nonce, the
     * key and the digest; outside ABORTED the keys are exactly those of the state.
     */
    ghost predicate Valid()
      reads this
    {
      && 1 <= privateKey <= MaxRandom
      && (nonce.Some? ==> 1 <= nonce.value <= MaxRandom)
      && (messageHash.Some? ==> |messageHash.value| == DigestLength)
      && partialResults.Keys <= {NonceKey, Phase1Key, Phase2Key}
      && (state != Aborted ==> partialResults.Keys == RecordedKeys(state))
      && (state != Initialized && state != Aborted ==> nonce.Some? && messageHash.Some?)
      && (NonceKey in partialResults ==> nonce.Some? && partialResults[NonceKey] == nonce.value)
      && (Phase1Key in partialResults ==>
            nonce.Some? && partialResults[Phase1Key] == nonce.value * privateKey)
      && (Phase2Key in partialResults ==>
            Phase1Key in partialResults && nonce.Some? && messageHash.Some? &&
            partialResults[Phase2Key] == Xor(nonce.value * privateKey, HashWord(messageHash.value)))
    }

    /** `__init__`, with the drawn private key as a parameter. */
    constructor (key: int)
      requires 1 <= key <= MaxRandom
      ensures Valid()
      ensures privateKey == key && state == Initialized
      ensures nonce == None && messageHash == None && partialResults == map[]
    {
      privateKey := key;
      state := Initialized;
      nonce := None;
      messageHash := None;
      partialResults := map[];
    }

    /** `start_protocol`: only from INITIALIZED; records the drawn nonce. */
    method StartProtocol(digest: seq<byte>, drawnNonce: int) returns (res: Result<bool, ProtocolError>)
      requires Valid()
      requires |digest| == DigestLength && 1 <= drawnNonce <= MaxRandom
      modifies this
      ensures Valid() && Extends(old(partialResults), partialResults)
      ensures old(state) == Initialized ==>
                && res == Ok(true) && state == Started
                && nonce == Some(drawnNonce) && messageHash == Some(digest)
                && partialResults == map[NonceKey := drawnNonce]
      ensures old(state) != Initialized ==>
                && res == Err(InvalidState("Protocol already started"))
                && state == old(state) && nonce == old(nonce) && messageHash == old(messageHash)
                && partialResults == old(partialResults)
    {
      if state != Initialized {
        return Err(InvalidState("Protocol already started"));
      }
      messageHash := Some(digest);
      nonce := Some(drawnNonce);
      state := Started;
      partialResults := partialResults[NonceKey := drawnNonce];
      return Ok(true);
    }

    /** `phase1`: only from STARTED; records nonce * private_key, unreduced. */
    method Phase1() returns (res: Result<bool, ProtocolError>)
      requires Valid()
      modifies this
      ensures Valid() && Extends(old(partialResults), partialResults)
      ensures nonce == old(nonce) && messageHash == old(messageHash)
      ensures old(state) == Started ==>
                && res == Ok(true) && state == Phase1Completed
                && partialResults == old(partialResults)[Phase1Key := old(nonce).value * privateKey]
      ensures old(state) != Started ==>
                && res == Err(InvalidState("Protocol not started"))
                && state == old(state) && partialResults == old(partialResults)
    {
      if state != Started {
        return Err(InvalidState("Protocol not started"));
      }
      partialResults := partialResults[Phase1Key := nonce.value * privateKey];
      state := Phase1Completed;
      return Ok(true);
    }

    /** `phase2`: only from PHASE1_COMPLETED; records phase1_result ^ the first digest word. */
    method Phase2() returns (res: Result<bool, ProtocolError>)
      requires Valid()
      modifies this
      ensures Valid() && Extends(old(partialResults), partialResults)
      ensures nonce == old(nonce) && messageHash == old(messageHash)
      ensures old(state) == Phase1Completed ==>
                && res == Ok(true) && state == Phase2Completed
                && old(partialResults)[Phase1Key] >= 0
                && partialResults == old(partialResults)[Phase2Key :=
                     Xor(old(partialResults)[Phase1Key], HashWord(messageHash.value))]
      ensures old(state) != Phase1Completed ==>
                && res == Err(InvalidState("Phase 1 not completed"))
                && state == old(state) && partialResults == old(partialResults)
    {
      if state != Phase1Completed {
        return Err(InvalidState("Phase 1 not completed"));
      }
      var phase1Result := partialResults[Phase1Key];
      assert phase1Result >= 0 by {
        assert phase1Result == nonce.value * privateKey;
      }
      partialResults := partialResults[Phase2Key := Xor(phase1Result, HashWord(messageHash.value))];
      state := Phase2Completed;
      return Ok(true);
    }

    /** `finalize`: only from PHASE2_COMPLETED; returns phase2_result mod 0xFFFF. */
    method Finalize() returns (res: Result<int, ProtocolError>)
      requires Valid()
      modifies this
      ensures Valid()
      ensures nonce == old(nonce) && messageHash == old(messageHash)
      ensures partialResults == old(partialResults)
      ensures old(state) == Phase2Completed ==>
                && state == Finalized
                && res == Ok(old(partialResults)[Phase2Key] % FinalModulus)
                && 0 <= res.value < FinalModulus
      ensures old(state) != Phase2Completed ==>
                && res == Err(InvalidState("Phase 2 not completed"))
                && state == old(state)
    {
      if state != Phase2Completed {
        return Err(InvalidState("Phase 2 not completed"));
      }
      var result := partialResults[Phase2Key] % FinalModulus;
      state := Finalized;
      return Ok(result);
    }

    /** `abort`: from any state at all; returns the intermediate results as they are. */
    method Abort() returns (leaked: map<string, int>)
      requires Valid()
      modifies this
      ensures Valid()
      ensures state == Aborted
      ensures leaked == old(partialResults) && partialResults == old(partialResults)
      ensures nonce == old(nonce) && messageHash == old(messageHash)
    {
      state := Aborted;
      return partialResults;
    }
  }

  // ---------------------------------------------------------------------
  // Runs of the protocol, as the source's test functions drive it
  // ---------------------------------------------------------------------

  /** `test_normal_execution`: the full run returns a value in [0, 0xFFFF). */
  method NormalExecution(key: int, digest: seq<byte>, drawnNonce: int) returns (result: int)
    requires 1 <= key <= MaxRandom && 1 <= drawnNonce <= MaxRandom && |digest| == DigestLength
    ensures result == Xor(drawnNonce * key, HashWord(digest)) % FinalModulus
    ensures 0 <= result < FinalModulus
  {
    var p := new MPCProtocol(key);
    var started := p.StartProtocol(digest, drawnNonce);
    var done1 := p.Phase1();
    var done2 := p.Phase2();
    var finished := p.Finalize();
    result := finished.value;
  }

  /** Aborting straight after `start_protocol` leaks the nonce. */
  method AbortAfterStart(key: int, digest: seq<byte>, drawnNonce: int) returns (leaked: map<string, int>)
    requires 1 <= key <= MaxRandom && 1 <= drawnNonce <= MaxRandom && |digest| == DigestLength
    ensures leaked == map[NonceKey := drawnNonce]
  {
    var p := new MPCProtocol(key);
    var started := p.StartProtocol(digest, drawnNonce);
    leaked := p.Abort();
  }

  /** `test_abort_after_phase1`: the abort leaks the nonce and nonce * private_key. */
  method AbortAfterPhase1(key: int, digest: seq<byte>, drawnNonce: int) returns (leaked: map<string, int>)
    requires 1 <= key <= MaxRandom && 1 <= drawnNonce <= MaxRandom && |digest| == DigestLength
    ensures leaked == map[NonceKey := drawnNonce, Phase1Key := drawnNonce * key]
  {
    var p := new MPCProtocol(key);
    var started := p.StartProtocol(digest, drawnNonce);
    var done1 := p.Phase1();
    leaked := p.Abort();
  }

  /** `test_abort_after_phase2`: the abort leaks all three intermediate values. */
  method AbortAfterPhase2(key: int, digest: seq<byte>, drawnNonce: int) returns (leaked: map<string, int>)
    requires 1 <= key <= MaxRandom && 1 <= drawnNonce <= MaxRandom && |digest| == DigestLength
    ensures leaked == map[NonceKey := drawnNonce, Phase1Key := drawnNonce * key,
                          Phase2Key := Xor(drawnNonce * key, HashWord(digest))]
    ensures Xor(leaked[Phase2Key], HashWord(digest)) == leaked[Phase1Key]
  {
    var p := new MPCProtocol(key);
    var started := p.StartProtocol(digest, drawnNonce);
    var done1 := p.Phase1();
    var done2 := p.Phase2();
    leaked := p.Abort();
    XorSelfInverse(drawnNonce * key, HashWord(digest));
  }

  /** Calling `phase1` before `start_protocol` fails. */
  method Phase1BeforeStart(key: int) returns (res: Result<bool, ProtocolError>)
    requires 1 <= key <= MaxRandom
    ensures res == Err(InvalidState("Protocol not started"))
  {
    var p := new MPCProtocol(key);
    res := p.Phase1();
  }

  /** After an abort at any point of a run, every guarded operation fails. */
  method GuardsFailAfterAbort(key: int, digest: seq<byte>, drawnNonce: int, steps: nat)
    returns (start: Result<bool, ProtocolError>, one: Result<bool, ProtocolError>,
             two: Result<bool, ProtocolError>, final: Result<int, ProtocolError>)
    requires 1 <= key <= MaxRandom && 1 <= drawnNonce <= MaxRandom && |digest| == DigestLength
    ensures start.Err? && one.Err? && two.Err? && final.Err?
  {
    var p := new MPCProtocol(key);
    if steps >= 1 { var done := p.StartProtocol(digest, drawnNonce); }
    if steps >= 2 { var done := p.Phase1(); }
    if steps >= 3 { var done := p.Phase2(); }
    if steps >= 4 { var done := p.Finalize(); }
    var leaked := p.Abort();
    start := p.StartProtocol(digest, drawnNonce);
    one := p.Phase1();
    two := p.Phase2();
    final := p.Finalize();
  }
}
