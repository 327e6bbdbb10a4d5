/** Encrypted group threads whose key is split among the participants. */
module GroupThreads {
  import opened Gf256
  import opened Results
  import opened Shamir
  import opened ShamirTheorems

  type Bytes = seq<Byte>

  const KEY_SIZE := 32
  const NONCE_SIZE := 12

  /** The library calls: AES-256-GCM with a given nonce, and the printed SHA-256 digest. */
  datatype Crypto = Crypto(
    seal: (Bytes, Bytes, Bytes) -> Bytes,
    unseal: (Bytes, Bytes, Bytes) -> Option<Bytes>,
    digest: Bytes -> string)

  /** Unsealing undoes sealing. */
  ghost predicate Opens(c: Crypto) {
    forall key, nonce, text :: |key| == KEY_SIZE && |nonce| == NONCE_SIZE ==>
      c.unseal(key, nonce, c.seal(key, nonce, text)) == Some(text)
  }

  /** And digests do not collide. */
  ghost predicate Sound(c: Crypto) {
    Opens(c) && forall a, b :: c.digest(a) == c.digest(b) ==> a == b
  }

  lemma EqualBytes(a: Byte, b: Byte)
    requires a as int == b as int
    ensures a == b
  {
  }

  /** What is assumed of the library can be met, if only by one that keeps no secrets. */
  lemma SoundCryptoExists() returns (c: Crypto)
    ensures Sound(c)
  {
    c := Crypto((_, _, text) => text, (_, _, data) => Some(data),
                text => seq(|text|, i requires 0 <= i < |text| => text[i] as char));
    forall a, b | c.digest(a) == c.digest(b)
      ensures a == b
    {
      forall i | 0 <= i < |c.digest(a)|
        ensures a[i] == b[i]
      {
        assert c.digest(a)[i] == a[i] as char && c.digest(b)[i] == b[i] as char;
        assert (a[i] as char) as int == a[i] as int && (b[i] as char) as int == b[i] as int;
        EqualBytes(a[i], b[i]);
      }
    }
  }

  datatype GcmError = BadKeySize | NoNonce | CiphertextTooShort | NotAuthentic

  datatype ThreadError =
    | NoKey
    | EncryptFailed(gcm: GcmError)
    | SplitFailed(shamir: ShamirError)
    | TooFewForThreshold
    | ReconstructionFailed(shamir: ShamirError)
    | DigestMismatch
    | DecryptFailed(gcm: GcmError)

  function EncryptGcm(c: Crypto, key: Bytes, plaintext: Bytes, nonce: Option<Bytes>): Outcome<Bytes, GcmError> {
    if |key| != KEY_SIZE then Err(BadKeySize)
    else if nonce.None? then Err(NoNonce)
    else Ok(nonce.value + c.seal(key, nonce.value, plaintext))
  }

  function DecryptGcm(c: Crypto, key: Bytes, data: Bytes): Outcome<Bytes, GcmError> {
    if |key| != KEY_SIZE then Err(BadKeySize)
    else if |data| < NONCE_SIZE then Err(CiphertextTooShort)
    else
      match c.unseal(key, data[..NONCE_SIZE], data[NONCE_SIZE..])
      case Some(text) => Ok(text)
      case None => Err(NotAuthentic)
  }

  /** Only keys of 32 bytes encrypt and decrypt, and decrypting undoes encrypting. */
  lemma GcmRoundTrip(c: Crypto, key: Bytes, plaintext: Bytes, nonce: Bytes)
    requires Opens(c) && |nonce| == 12
    ensures |key| != 32 ==> EncryptGcm(c, key, plaintext, Some(nonce)) == Err(BadKeySize)
    ensures |key| != 32 ==> forall data :: DecryptGcm(c, key, data) == Err(BadKeySize)
    ensures |key| == 32 ==> EncryptGcm(c, key, plaintext, Some(nonce)).Ok?
    ensures |key| == 32 ==> DecryptGcm(c, key, EncryptGcm(c, key, plaintext, Some(nonce)).value) == Ok(plaintext)
  {
    if |key| == 32 {
      var data := nonce + c.seal(key, nonce, plaintext);
      assert data[..12] == nonce && data[12..] == c.seal(key, nonce, plaintext);
    }
  }

  /** Data that are too short for a nonce, or that do not authenticate, do not decrypt. */
  lemma GcmRefuses(c: Crypto, key: Bytes, data: Bytes)
    requires |key| == 32
    ensures |data| < 12 ==> DecryptGcm(c, key, data) == Err(CiphertextTooShort)
    ensures |data| >= 12 ==>
              (DecryptGcm(c, key, data) == Err(NotAuthentic) <==> c.unseal(key, data[..12], data[12..]) == None)
  {
  }

  datatype GroupThread = GroupThread(
    threadId: string, encryptedBody: Bytes, shares: seq<Share>, threshold: int, keyDigest: string)

  /** The encrypted body is a nonce and the body sealed with it under this key. */
  ghost predicate Sealed(c: Crypto, g: GroupThread, body: Bytes, key: Bytes) {
    && |key| == KEY_SIZE && |g.encryptedBody| >= NONCE_SIZE
    && g.encryptedBody[NONCE_SIZE..] == c.seal(key, g.encryptedBody[..NONCE_SIZE], body)
    && g.keyDigest == c.digest(key)
  }

  /** It does, and its shares hide the key. */
  ghost predicate Carries(c: Crypto, g: GroupThread, body: Bytes, key: Bytes, ps: seq<Bytes>) {
    && Sealed(c, g, body, key)
    && ValidParameters(|g.shares|, g.threshold)
    && Hides(ps, key, g.threshold)
    && g.shares == SharesOf(ps, |g.shares|)
  }

  method NewGroupThread(c: Crypto, threadId: string, body: Bytes, recipients: int, threshold: int,
                        key: Option<Bytes>, nonce: Option<Bytes>, draws: Draws)
      returns (r: Outcome<GroupThread, ThreadError>)
    requires key.Some? ==> |key.value| == KEY_SIZE
    requires nonce.Some? ==> |nonce.value| == NONCE_SIZE
    requires ValidParameters(recipients, threshold) ==> DrawsFor(draws, KEY_SIZE, threshold)
    ensures r.Ok? <==> key.Some? && nonce.Some? && ValidParameters(recipients, threshold) && AllDelivered(draws)
    ensures r.Ok? ==> r.value.threadId == threadId && |r.value.shares| == recipients && r.value.threshold == threshold
    ensures r.Ok? ==> Carries(c, r.value, body, key.value, PolynomialsFor(key.value, draws))
    ensures !r.Panic?
    ensures key.None? ==> r == Err(NoKey)
    ensures key.Some? && nonce.None? ==> r == Err(EncryptFailed(NoNonce))
    ensures key.Some? && nonce.Some? && !(2 <= recipients <= 255) ==> r == Err(SplitFailed(BadShareCount))
    ensures key.Some? && nonce.Some? && 2 <= recipients <= 255 && !(2 <= threshold <= recipients) ==>
              r == Err(SplitFailed(BadThreshold))
    ensures key.Some? && nonce.Some? && ValidParameters(recipients, threshold) && !AllDelivered(draws) ==>
              r == Err(SplitFailed(NoRandomness))
  {
    if key.None? {
      return Err(NoKey);
    }
    var encrypted := EncryptGcm(c, key.value, body, nonce);
    if encrypted.Err? {
      return Err(EncryptFailed(encrypted.error));
    }
    var split := Split(key.value, recipients, threshold, draws);
    if split.Err? {
      return Err(SplitFailed(split.error));
    }
    SplitHides(key.value, recipients, threshold, draws);
    assert encrypted.value[..NONCE_SIZE] == nonce.value;
    return Ok(GroupThread(threadId, encrypted.value, split.value, threshold, c.digest(key.value)));
  }

  /** Decrypt as a function of the shares it is given. */
  function Decrypted(c: Crypto, g: GroupThread, shares: seq<Share>): Outcome<Bytes, ThreadError> {
    if |shares| < g.threshold then Err(TooFewForThreshold)
    else
      match Combined(shares)
      case Err(e) => Err(ReconstructionFailed(e))
      case Panic => Panic
      case Ok(key) =>
        if c.digest(key) != g.keyDigest then Err(DigestMismatch)
        else
          match DecryptGcm(c, key, g.encryptedBody)
          case Ok(text) => Ok(text)
          case Err(e) => Err(DecryptFailed(e))
          case Panic => Panic
  }

  method Decrypt(c: Crypto, g: GroupThread, shares: seq<Share>) returns (r: Outcome<Bytes, ThreadError>)
    ensures r == Decrypted(c, g, shares)
  {
    if |shares| < g.threshold {
      return Err(TooFewForThreshold);
    }
    var key := Combine(shares);
    if key.Err? {
      return Err(ReconstructionFailed(key.error));
    }
    if key.Panic? {
      return Panic;
    }
    if c.digest(key.value) != g.keyDigest {
      return Err(DigestMismatch);
    }
    var text := DecryptGcm(c, key.value, g.encryptedBody);
    if text.Err? {
      return Err(DecryptFailed(text.error));
    }
    return Ok(text.value);
  }

  lemma KeyOpens(c: Crypto, g: GroupThread, body: Bytes, key: Bytes)
    requires Opens(c) && Sealed(c, g, body, key)
    ensures DecryptGcm(c, key, g.encryptedBody) == Ok(body)
  {
  }

  /**
   * Decryption succeeds exactly when the shares reach the threshold and combine to the group key,
   * and then it gives the body: no other list of shares opens the thread.
   */
  lemma DecryptSucceedsIffKey(c: Crypto, g: GroupThread, body: Bytes, key: Bytes, shares: seq<Share>)
    requires Sound(c) && Sealed(c, g, body, key)
    ensures Decrypted(c, g, shares).Ok? <==> |shares| >= g.threshold && Combined(shares) == Ok(key)
    ensures Decrypted(c, g, shares).Ok? ==> Decrypted(c, g, shares) == Ok(body)
  {
    KeyOpens(c, g, body, key);
    if Combined(shares).Ok? && c.digest(Combined(shares).value) == g.keyDigest {
      assert Combined(shares).value == key;
    }
  }

  /** What opens any thread, made by this program or not: enough shares, the right digest, and authentic data. */
  lemma DecryptedIff(c: Crypto, g: GroupThread, shares: seq<Share>, text: Bytes)
    ensures |shares| < g.threshold ==> Decrypted(c, g, shares) == Err(TooFewForThreshold)
    ensures Decrypted(c, g, shares) == Ok(text) <==>
              && |shares| >= g.threshold && Combined(shares).Ok? && c.digest(Combined(shares).value) == g.keyDigest
              && |Combined(shares).value| == 32 && |g.encryptedBody| >= 12
              && c.unseal(Combined(shares).value, g.encryptedBody[..12], g.encryptedBody[12..]) == Some(text)
    ensures |shares| >= g.threshold && Combined(shares).Ok? ==>
              (Decrypted(c, g, shares) == Err(DigestMismatch) <==> c.digest(Combined(shares).value) != g.keyDigest)
  {
  }

  /** Any participants who reach the threshold, in any order, read the body. */
  lemma ThresholdDecrypts(c: Crypto, g: GroupThread, body: Bytes, key: Bytes, ps: seq<Bytes>, picks: seq<nat>)
    requires Opens(c) && Carries(c, g, body, key, ps)
    requires ValidPicks(picks, |g.shares|) && |picks| >= g.threshold
    ensures Decrypted(c, g, Pick(g.shares, picks)) == Ok(body)
  {
    SplitCombine(key, ps, |g.shares|, g.threshold, picks);
    KeyOpens(c, g, body, key);
  }
}

/** The coordinator that collects raw shares for many payloads. */
module Coordinators {
  import opened Gf256
  import opened Results
  import opened Shamir
  import opened ShamirTheorems

  type Bytes = seq<Byte>
  type ShareMap = map<string, seq<Bytes>>

  datatype CoordinatorError = InsufficientShares | EmptyShare(position: nat) | CombineFailed(shamir: ShamirError)

  function SharesUnder(m: ShareMap, id: string): seq<Bytes> {
    if id in m then m[id] else []
  }

  function Submitted(m: ShareMap, id: string, share: Bytes): ShareMap {
    m[id := SharesUnder(m, id) + [share]]
  }

  function FirstEmpty(raw: seq<Bytes>, i: nat): (r: Option<nat>)
    requires i <= |raw|
    ensures r.None? <==> forall k :: i <= k < |raw| ==> raw[k] != []
    ensures r.Some? ==> i <= r.value < |raw| && raw[r.value] == [] && forall k :: i <= k < r.value ==> raw[k] != []
    decreases |raw| - i
  {
    if i == |raw| then None
    else if raw[i] == [] then Some(i)
    else FirstEmpty(raw, i + 1)
  }

  function Parsed(raw: seq<Bytes>): (shares: seq<Share>)
    requires forall i :: 0 <= i < |raw| ==> raw[i] != []
    ensures |shares| == |raw|
    ensures forall i :: 0 <= i < |raw| ==> shares[i] == Share(raw[i][0], raw[i][1..])
  {
    seq(|raw|, i requires 0 <= i < |raw| => Share(raw[i][0], raw[i][1..]))
  }

  /** Reconstruct as a function of the bytes submitted under the payload. */
  function Reconstructed(raw: seq<Bytes>, threshold: int): Outcome<Bytes, CoordinatorError> {
    if |raw| < threshold then Err(InsufficientShares)
    else if FirstEmpty(raw, 0).Some? then Err(EmptyShare(FirstEmpty(raw, 0).value))
    else
      match Combined(Parsed(raw))
      case Ok(secret) => Ok(secret)
      case Err(e) => Err(CombineFailed(e))
      case Panic => Panic
  }

  /** Converts the raw bytes, up to the first that are empty. */
  method Parse(raw: seq<Bytes>) returns (r: Outcome<seq<Share>, CoordinatorError>)
    ensures r == match FirstEmpty(raw, 0)
                 case Some(i) => Err(EmptyShare(i))
                 case None => Ok(Parsed(raw))
  {
    var shares: seq<Share> := [];
    for i := 0 to |raw|
      invariant |shares| == i
      invariant forall k :: 0 <= k < i ==> raw[k] != [] && shares[k] == Share(raw[k][0], raw[k][1..])
    {
      if raw[i] == [] {
        return Err(EmptyShare(i));
      }
      shares := shares + [Share(raw[i][0], raw[i][1..])];
    }
    assert shares == Parsed(raw);
    return Ok(shares);
  }

  class MpcCoordinator {
    var activeShares: ShareMap

    constructor ()
      ensures activeShares == map[]
    {
      activeShares := map[];
    }

    method SubmitShare(payloadId: string, share: Bytes)
      modifies this
      ensures activeShares == Submitted(old(activeShares), payloadId, share)
    {
      var existing := if payloadId in activeShares then activeShares[payloadId] else [];
      activeShares := activeShares[payloadId := existing + [share]];
    }

    method Reconstruct(payloadId: string, threshold: int) returns (r: Outcome<Bytes, CoordinatorError>)
      ensures r == Reconstructed(SharesUnder(activeShares, payloadId), threshold)
      ensures |SharesUnder(activeShares, payloadId)| < threshold ==> r == Err(InsufficientShares)
    {
      var raw := if payloadId in activeShares then activeShares[payloadId] else [];
      if |raw| < threshold {
        return Err(InsufficientShares);
      }
      var shares := Parse(raw);
      if shares.Err? {
        return Err(shares.error);
      }
      var secret := Combine(shares.value);
      match secret
      case Ok(value) => return Ok(value);
      case Err(e) => return Err(CombineFailed(e));
      case Panic => return Panic;
    }
  }

  // Runs of submissions.

  datatype Submission = Submission(payloadId: string, share: Bytes)

  /** The map after the submissions, which may come from many payloads in any interleaving. */
  function After(log: seq<Submission>): ShareMap {
    if log == [] then map[]
    else
      var last := log[|log| - 1];
      Submitted(After(log[..|log| - 1]), last.payloadId, last.share)
  }

  /** What was submitted under one payload, in order. */
  function Own(log: seq<Submission>, id: string): seq<Bytes> {
    if log == [] then []
    else
      var last := log[|log| - 1];
      Own(log[..|log| - 1], id) + (if last.payloadId == id then [last.share] else [])
  }

  lemma {:induction false} PayloadsAreSeparate(log: seq<Submission>, id: string)
    ensures SharesUnder(After(log), id) == Own(log, id)
  {
    if log != [] {
      PayloadsAreSeparate(log[..|log| - 1], id);
    }
  }

  /** What is submitted under other payloads makes no difference to a reconstruction. */
  lemma ReconstructDependsOnOwn(log: seq<Submission>, log': seq<Submission>, id: string, threshold: int)
    requires Own(log, id) == Own(log', id)
    ensures Reconstructed(SharesUnder(After(log), id), threshold)
         == Reconstructed(SharesUnder(After(log'), id), threshold)
  {
    PayloadsAreSeparate(log, id);
    PayloadsAreSeparate(log', id);
  }

  /** With fewer submissions than the threshold the answer is an error, whatever was submitted. */
  lemma TooFewSubmissionsRefused(log: seq<Submission>, id: string, threshold: int)
    requires |Own(log, id)| < threshold
    ensures Reconstructed(SharesUnder(After(log), id), threshold) == Err(InsufficientShares)
  {
    PayloadsAreSeparate(log, id);
  }

  /**
   * There is an answer exactly if there are at least threshold and at least two submissions, none of them empty and
   * none shorter than the first; and then it has a byte for every byte of the first share's value.
   */
  lemma ReconstructAnswersIff(log: seq<Submission>, id: string, threshold: int)
    ensures var own := Own(log, id);
            var r := Reconstructed(SharesUnder(After(log), id), threshold);
            && (r.Ok? <==> |own| >= threshold && |own| >= 2 && (forall i :: 0 <= i < |own| ==> own[i] != [])
                           && forall i :: 0 <= i < |own| ==> |own[0]| <= |own[i]|)
            && (r.Ok? ==> |r.value| == |own[0]| - 1)
  {
    var own := Own(log, id);
    PayloadsAreSeparate(log, id);
    if FirstEmpty(own, 0).None? {
      assert forall i :: 0 <= i < |own| ==> |Parsed(own)[i].value| == |own[i]| - 1;
    }
  }

  /** An empty submission is an error that names the first of them. */
  lemma EmptySubmissionRefused(log: seq<Submission>, id: string, threshold: int, i: nat)
    requires |Own(log, id)| >= threshold && i < |Own(log, id)| && Own(log, id)[i] == []
    requires forall k :: 0 <= k < i ==> Own(log, id)[k] != []
    ensures Reconstructed(SharesUnder(After(log), id), threshold) == Err(EmptyShare(i))
  {
    PayloadsAreSeparate(log, id);
  }

  function Encoded(share: Share): Bytes {
    [share.index] + share.value
  }

  /** Whatever else was submitted, enough encoded shares of a split secret give it back. */
  lemma ReconstructRecovers(log: seq<Submission>, id: string, threshold: int,
                            secret: Bytes, ps: seq<Bytes>, n: nat, m: nat, picks: seq<nat>)
    requires ValidParameters(n, m) && Hides(ps, secret, m)
    requires ValidPicks(picks, n) && |picks| >= m && |picks| >= threshold
    requires |Own(log, id)| == |picks|
    requires forall i :: 0 <= i < |picks| ==> Own(log, id)[i] == Encoded(SharesOf(ps, n)[picks[i]])
    ensures Reconstructed(SharesUnder(After(log), id), threshold) == Ok(secret)
  {
    PayloadsAreSeparate(log, id);
    SplitCombine(secret, ps, n, m, picks);
    assert Parsed(Own(log, id)) == Pick(SharesOf(ps, n), picks);
  }
}
