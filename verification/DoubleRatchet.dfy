/** The Double Ratchet session (crypto/src/lib.rs, DoubleRatchetSession). */
module DoubleRatchet {
  import opened Primitives
  import opened Wrappers

  const MAX_SKIPPED_KEYS: nat := 1024
  const MAX_SKIP_AHEAD: nat := 1024

  datatype CryptoError = BadSecret | TooShort | AuthSkipped | KyberParse | Auth | SeqGap | Utf8

  type CryptoResult<+T> = Result<T, CryptoError>

  type SkippedKeys = map<u64, Bytes>

  datatype RatchetState = RatchetState(
    isInitiator: bool,
    selfMode: bool,
    rootKey: Bytes,
    sendChainKey: Bytes,
    recvChainKey: Bytes,
    sendNumber: u64,
    recvNumber: u64,
    skipped: SkippedKeys)

  /** Which entry a HashMap iteration yields first, asked while storing the key of a given index. */
  type Pick = (u64, SkippedKeys) -> u64

  ghost predicate PicksAnEntry(pick: Pick) {
    forall at: u64, table: SkippedKeys :: table != map[] ==> pick(at, table) in table
  }

  function NewSession(c: Suite, isInitiator: bool, selfMode: bool, secret: Bytes): (r: CryptoResult<RatchetState>)
    ensures r.Ok? <==> |secret| >= 32
    ensures r.Ok? ==> r.value.isInitiator == isInitiator && r.value.selfMode == selfMode && r.value.skipped == map[]
  {
    if |secret| < 32 then Err(BadSecret)
    else
      var (first, second) := c.hkdf(secret, "add-double-ratchet-v1-chains");
      var send := if isInitiator then first else second;
      var recv := if selfMode then send else if isInitiator then second else first;
      Ok(RatchetState(isInitiator, selfMode, c.hkdf(secret, "add-double-ratchet-v1-root").0, send, recv, 0, 0, map[]))
  }

  /** One chain step: the message key and the next chain key. */
  function MessageKey(c: Suite, chainKey: Bytes): (Bytes, Bytes) {
    c.hkdf(chainKey, "add-double-ratchet-v1-step")
  }

  // ----- Sending

  function AfterSend(st: RatchetState, newChain: Bytes): RatchetState {
    st.(sendChainKey := newChain,
        recvChainKey := if st.selfMode then newChain else st.recvChainKey,
        sendNumber := Inc(st.sendNumber))
  }

  function LinearFrame(c: Suite, chainKey: Bytes, nonce: Bytes, plaintext: Bytes): Bytes {
    nonce + c.seal(MessageKey(c, chainKey).0, nonce, plaintext)
  }

  /** A u16 in big-endian order. */
  function U16(n: nat): Bytes
    requires n < 0x10000
  {
    [n / 256, n % 256]
  }

  function KemFrame(c: Suite, chainKey: Bytes, nonce: Bytes, plaintext: Bytes, ct: Bytes, ss: Bytes): Bytes {
    nonce + c.seal(MessageKey(c, chainKey + ss).0, nonce, plaintext) + ct + U16(|ct| % 0x10000)
  }

  // ----- Receiving

  function Prune(table: SkippedKeys, at: u64, pick: Pick): SkippedKeys {
    if |table| > MAX_SKIPPED_KEYS then table - {pick(at, table)} else table
  }

  function Store(table: SkippedKeys, at: u64, key: Bytes, pick: Pick): SkippedKeys {
    Prune(table[at := key], at, pick)
  }

  function SkipStep(c: Suite, st: RatchetState, pick: Pick): RatchetState {
    var (mk, ck) := MessageKey(c, st.recvChainKey);
    st.(recvChainKey := if st.selfMode then st.recvChainKey else ck,
        skipped := Store(st.skipped, st.recvNumber, mk, pick),
        recvNumber := Inc(st.recvNumber))
  }

  /** The skip-ahead loop: one derived and stored key per skipped index. */
  function SkipTo(c: Suite, st: RatchetState, seqno: u64, pick: Pick): RatchetState
    decreases seqno - st.recvNumber
  {
    if st.recvNumber < seqno then SkipTo(c, SkipStep(c, st, pick), seqno, pick) else st
  }

  lemma SkipToUnfolds(c: Suite, st: RatchetState, seqno: u64, pick: Pick)
    ensures st.recvNumber >= seqno ==> SkipTo(c, st, seqno, pick) == st
    ensures st.recvNumber < seqno ==>
              && SkipTo(c, st, seqno, pick) == SkipTo(c, SkipStep(c, st, pick), seqno, pick)
              && SkipStep(c, st, pick).recvNumber == st.recvNumber + 1
  {
    hide Prune;
  }

  /** What a receiving call leaves behind: the state, the answer, and the number of key derivations it made. */
  datatype Received = Received(st: RatchetState, result: CryptoResult<Bytes>, derivations: nat)

  /** The receiving step shared by both frame formats, once the chain key (with any KEM secret mixed in) is known. */
  function OpenNext(c: Suite, st: RatchetState, chainInput: Bytes, nonce: Bytes, body: Bytes, seqno: u64, pick: Pick):
    (RatchetState, Option<Bytes>)
  {
    var (mk, ck) := MessageKey(c, chainInput);
    var moved := if st.selfMode then st else st.(recvChainKey := ck);
    match c.open(mk, nonce, body)
    case None => (moved, None)
    case Some(pt) =>
      (moved.(recvNumber := Inc(moved.recvNumber), skipped := Store(moved.skipped, seqno, mk, pick)), Some(pt))
  }

  function Utf8Checked(c: Suite, pt: Bytes): CryptoResult<Bytes> { if c.utf8(pt) then Ok(pt) else Err(Utf8) }

  function SimpleDecrypt(c: Suite, st: RatchetState, nonce: Bytes, body: Bytes, seqno: u64, pick: Pick): Received {
    if seqno - st.recvNumber > MAX_SKIP_AHEAD then Received(st, Err(SeqGap), 0)
    else
      var skips := if st.recvNumber < seqno then seqno - st.recvNumber else 0;
      var ready := SkipTo(c, st, seqno, pick);
      var (after, pt) := OpenNext(c, ready, ready.recvChainKey, nonce, body, seqno, pick);
      Received(after, if pt.Some? then Utf8Checked(c, pt.value) else Err(Auth), skips + 1)
  }

  /** The u16 in the last two bytes of a frame body. */
  function Tail(body: Bytes): nat
    requires |body| >= 2
  {
    body[|body| - 2] as int * 256 + body[|body| - 1] as int
  }

  /** The test that tells a KEM frame from a linear one. */
  predicate LooksLikeKem(body: Bytes) {
    |body| > 2 && 0 < Tail(body) && Tail(body) + 2 <= |body|
  }

  function KemDecrypt(c: Suite, st: RatchetState, dk: Bytes, nonce: Bytes, body: Bytes, seqno: u64, pick: Pick): Received
    requires LooksLikeKem(body)
  {
    var end := |body| - 2 - Tail(body);
    var ct := body[end..|body| - 2];
    if |ct| != MLKEM1024_CT_SIZE then Received(st, Err(KyberParse), 0)
    else
      var (after, pt) := OpenNext(c, st, st.recvChainKey + c.decaps(dk, ct), nonce, body[..end], seqno, pick);
      Received(after, if pt.Some? then Utf8Checked(c, pt.value) else Err(Auth), 1)
  }

  function DecryptSkipped(c: Suite, st: RatchetState, nonce: Bytes, body: Bytes, seqno: u64): Received
    requires seqno in st.skipped
  {
    match c.open(st.skipped[seqno], nonce, body)
    case None => Received(st, Err(AuthSkipped), 0)
    case Some(pt) =>
      var next := Inc(seqno);
      Received(st.(recvNumber := if st.recvNumber < next then next else st.recvNumber), Utf8Checked(c, pt), 0)
  }

  function Decrypt(c: Suite, st: RatchetState, raw: Bytes, dk: Bytes, seqno: u64, pick: Pick): Received {
    if |raw| < NONCE_SIZE + TAG_SIZE + 2 then Received(st, Err(TooShort), 0)
    else
      var nonce, body := raw[..NONCE_SIZE], raw[NONCE_SIZE..];
      if seqno in st.skipped then DecryptSkipped(c, st, nonce, body, seqno)
      else if LooksLikeKem(body) then KemDecrypt(c, st, dk, nonce, body, seqno, pick)
      else SimpleDecrypt(c, st, nonce, body, seqno, pick)
  }

  function DecryptFirst(c: Suite, st: RatchetState, raw: Bytes, pick: Pick): Received {
    if |raw| < NONCE_SIZE + TAG_SIZE then Received(st, Err(TooShort), 0)
    else SimpleDecrypt(c, st, raw[..NONCE_SIZE], raw[NONCE_SIZE..], 0, pick)
  }

  // ----- The session object

  class DoubleRatchetSession {
    const suite: Suite
    var state: RatchetState

    constructor (c: Suite, isInitiator: bool, selfMode: bool, secret: Bytes)
      requires |secret| >= 32
      ensures suite == c && NewSession(c, isInitiator, selfMode, secret) == Ok(state)
    {
      var root := c.hkdf(secret, "add-double-ratchet-v1-root").0;
      var chainKeys := c.hkdf(secret, "add-double-ratchet-v1-chains");
      var send, recv := chainKeys.1, chainKeys.0;
      if isInitiator {
        send, recv := chainKeys.0, chainKeys.1;
      }
      if selfMode {
        recv := send;
      }
      suite := c;
      state := RatchetState(isInitiator, selfMode, root, send, recv, 0, 0, map[]);
    }

    method EncryptFirst(plaintext: Bytes, nonce: Bytes) returns (frame: Bytes)
      modifies this
      ensures frame == LinearFrame(suite, old(state.sendChainKey), nonce, plaintext)
      ensures state == AfterSend(old(state), MessageKey(suite, old(state.sendChainKey)).1)
    {
      var (msgKey, newCk) := MessageKey(suite, state.sendChainKey);
      state := state.(sendChainKey := newCk);
      if state.selfMode {
        state := state.(recvChainKey := newCk);
      }
      frame := nonce + suite.seal(msgKey, nonce, plaintext);
      state := state.(sendNumber := Inc(state.sendNumber));
    }

    method EncryptMessage(plaintext: Bytes, nonce: Bytes, recipientKey: Bytes, random: Bytes) returns (frame: Bytes)
      modifies this
      ensures var (ct, ss) := suite.encaps(recipientKey, random);
              && frame == KemFrame(suite, old(state.sendChainKey), nonce, plaintext, ct, ss)
              && state == AfterSend(old(state), MessageKey(suite, old(state.sendChainKey) + ss).1)
    {
      var (ct, ss) := suite.encaps(recipientKey, random);
      var (msgKey, newCk) := MessageKey(suite, state.sendChainKey + ss);
      state := state.(sendChainKey := newCk);
      if state.selfMode {
        state := state.(recvChainKey := newCk);
      }
      frame := nonce + suite.seal(msgKey, nonce, plaintext);
      frame := frame + ct;
      frame := frame + U16(|ct| % 0x10000);
      state := state.(sendNumber := Inc(state.sendNumber));
    }

    method PruneSkippedKeys(at: u64, pick: Pick)
      modifies this
      ensures state == old(state).(skipped := Prune(old(state).skipped, at, pick))
    {
      if |state.skipped| > MAX_SKIPPED_KEYS {
        state := state.(skipped := state.skipped - {pick(at, state.skipped)});
      }
    }

    /** One pass of the skip-ahead loop: derives and stores the key of the current index. */
    method SkipOne(pick: Pick)
      modifies this
      ensures state == SkipStep(suite, old(state), pick)
    {
      hide Prune;
      var (mk, newCk) := MessageKey(suite, state.recvChainKey);
      if !state.selfMode {
        state := state.(recvChainKey := newCk);
      }
      var idx := state.recvNumber;
      state := state.(skipped := state.skipped[idx := mk]);
      PruneSkippedKeys(idx, pick);
      state := state.(recvNumber := Inc(state.recvNumber));
    }

    /** The skip-ahead loop: leaves the chain at `seqno`, every index before it derived and stored. */
    method SkipForward(seqno: u64, pick: Pick) returns (derivations: nat)
      modifies this
      ensures state == SkipTo(suite, old(state), seqno, pick)
      ensures derivations == if old(state).recvNumber < seqno then seqno - old(state).recvNumber else 0
    {
      hide SkipTo, SkipStep;
      derivations := 0;
      ghost var target := SkipTo(suite, state, seqno, pick);
      while state.recvNumber < seqno
        invariant SkipTo(suite, state, seqno, pick) == target
        invariant derivations == state.recvNumber - old(state).recvNumber
        invariant old(state).recvNumber < seqno ==> state.recvNumber <= seqno
        invariant old(state).recvNumber >= seqno ==> state == old(state)
        decreases seqno - state.recvNumber
      {
        SkipToUnfolds(suite, state, seqno, pick);
        SkipOne(pick);
        derivations := derivations + 1;
      }
      SkipToUnfolds(suite, state, seqno, pick);
    }

    method TrySimple(nonce: Bytes, body: Bytes, seqno: u64, pick: Pick)
      returns (r: CryptoResult<Bytes>, derivations: nat)
      modifies this
      ensures Received(state, r, derivations) == SimpleDecrypt(suite, old(state), nonce, body, seqno, pick)
    {
      hide SkipTo, Prune;
      if seqno - state.recvNumber > MAX_SKIP_AHEAD {
        return Err(SeqGap), 0;
      }
      derivations := SkipForward(seqno, pick);
      var (msgKey, newCk) := MessageKey(suite, state.recvChainKey);
      derivations := derivations + 1;
      if !state.selfMode {
        state := state.(recvChainKey := newCk);
      }
      var pt := suite.open(msgKey, nonce, body);
      if pt.None? {
        return Err(Auth), derivations;
      }
      state := state.(recvNumber := Inc(state.recvNumber));
      state := state.(skipped := state.skipped[seqno := msgKey]);
      PruneSkippedKeys(seqno, pick);
      r := Utf8Checked(suite, pt.value);
    }

    method TryKem(nonce: Bytes, body: Bytes, kyberLen: nat, dk: Bytes, seqno: u64, pick: Pick)
      returns (r: CryptoResult<Bytes>, derivations: nat)
      requires LooksLikeKem(body) && kyberLen == Tail(body)
      modifies this
      ensures Received(state, r, derivations) == KemDecrypt(suite, old(state), dk, nonce, body, seqno, pick)
    {
      hide Prune;
      var end := |body| - 2 - kyberLen;
      var ct := body[end..|body| - 2];
      if |ct| != MLKEM1024_CT_SIZE {
        return Err(KyberParse), 0;
      }
      var (msgKey, newCk) := MessageKey(suite, state.recvChainKey + suite.decaps(dk, ct));
      if !state.selfMode {
        state := state.(recvChainKey := newCk);
      }
      var pt := suite.open(msgKey, nonce, body[..end]);
      if pt.None? {
        return Err(Auth), 1;
      }
      state := state.(recvNumber := Inc(state.recvNumber));
      state := state.(skipped := state.skipped[seqno := msgKey]);
      PruneSkippedKeys(seqno, pick);
      return Utf8Checked(suite, pt.value), 1;
    }

    method DecryptMessage(raw: Bytes, dk: Bytes, seqno: u64, pick: Pick)
      returns (r: CryptoResult<Bytes>, derivations: nat)
      modifies this
      ensures Received(state, r, derivations) == Decrypt(suite, old(state), raw, dk, seqno, pick)
    {
      hide SimpleDecrypt, KemDecrypt;
      if |raw| < NONCE_SIZE + TAG_SIZE + 2 {
        return Err(TooShort), 0;
      }
      var nonce, body := raw[..NONCE_SIZE], raw[NONCE_SIZE..];
      if seqno in state.skipped {
        var pt := suite.open(state.skipped[seqno], nonce, body);
        if pt.None? {
          return Err(AuthSkipped), 0;
        }
        if state.recvNumber < Inc(seqno) {
          state := state.(recvNumber := Inc(seqno));
        }
        return Utf8Checked(suite, pt.value), 0;
      }
      if |body| > 2 {
        var kyberLen := body[|body| - 2] as int * 256 + body[|body| - 1] as int;
        if kyberLen > 0 && kyberLen + 2 <= |body| {
          r, derivations := TryKem(nonce, body, kyberLen, dk, seqno, pick);
          return;
        }
      }
      r, derivations := TrySimple(nonce, body, seqno, pick);
    }

    method DecryptFirstMessage(raw: Bytes, pick: Pick) returns (r: CryptoResult<Bytes>, derivations: nat)
      modifies this
      ensures Received(state, r, derivations) == DecryptFirst(suite, old(state), raw, pick)
    {
      hide SimpleDecrypt;
      if |raw| < NONCE_SIZE + TAG_SIZE {
        return Err(TooShort), 0;
      }
      r, derivations := TrySimple(raw[..NONCE_SIZE], raw[NONCE_SIZE..], 0, pick);
    }
  }
}
