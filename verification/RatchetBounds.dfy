/** Bounded work and memory of a Double Ratchet receiver (crypto/src/lib.rs). */
module RatchetBounds {
  import opened Primitives
  import opened DoubleRatchet
  import opened Wrappers

  ghost predicate Bounded(st: RatchetState) { |st.skipped| <= MAX_SKIPPED_KEYS }

  lemma StoreBounded(table: SkippedKeys, at: u64, key: Bytes, pick: Pick)
    requires PicksAnEntry(pick) && |table| <= MAX_SKIPPED_KEYS
    ensures |Store(table, at, key, pick)| <= MAX_SKIPPED_KEYS
  {
    var added := table[at := key];
    assert |added| <= |table| + 1;
    if |added| > MAX_SKIPPED_KEYS {
      assert pick(at, added) in added;
      assert (added - {pick(at, added)}).Keys == added.Keys - {pick(at, added)};
    }
  }

  /** Storing a key under a new label adds one entry, or replaces one when the table is full; no other entry changes. */
  lemma StoreSize(table: SkippedKeys, at: u64, key: Bytes, pick: Pick)
    requires PicksAnEntry(pick) && |table| <= MAX_SKIPPED_KEYS
    ensures var after := Store(table, at, key, pick);
            && |after| == (if at in table then |table| else if |table| < 1024 then |table| + 1 else 1024)
            && (forall i :: i in after ==> after[i] == if i == at then key else if i in table then table[i] else [])
            && after.Keys <= table.Keys + {at}
  {
    var added := table[at := key];
    assert added.Keys == table.Keys + {at};
    if |added| > MAX_SKIPPED_KEYS {
      assert pick(at, added) in added;
      assert (added - {pick(at, added)}).Keys == added.Keys - {pick(at, added)};
    }
  }

  lemma {:induction false} SkipToGrows(c: Suite, st: RatchetState, seqno: u64, pick: Pick)
    requires PicksAnEntry(pick) && Bounded(st)
    ensures |SkipTo(c, st, seqno, pick).skipped| >= |st.skipped|
    decreases seqno - st.recvNumber
  {
    hide SkipTo, Store;
    SkipToUnfolds(c, st, seqno, pick);
    if st.recvNumber < seqno {
      StoreSize(st.skipped, st.recvNumber, MessageKey(c, st.recvChainKey).0, pick);
      SkipToGrows(c, SkipStep(c, st, pick), seqno, pick);
    }
  }

  lemma OpenNextGrows(c: Suite, st: RatchetState, input: Bytes, nonce: Bytes, body: Bytes, seqno: u64, pick: Pick)
    requires PicksAnEntry(pick) && Bounded(st)
    ensures |OpenNext(c, st, input, nonce, body, seqno, pick).0.skipped| >= |st.skipped|
  {
    hide Store;
    StoreSize(st.skipped, seqno, MessageKey(c, input).0, pick);
  }

  /** No receiving call loses stored keys on balance: the table only ever grows, up to its bound. */
  lemma ReceiveGrows(c: Suite, st: RatchetState, raw: Bytes, dk: Bytes, seqno: u64, pick: Pick)
    requires PicksAnEntry(pick) && Bounded(st)
    ensures |Decrypt(c, st, raw, dk, seqno, pick).st.skipped| >= |st.skipped|
    ensures |DecryptFirst(c, st, raw, pick).st.skipped| >= |st.skipped|
  {
    hide Bounded, OpenNext, SkipTo;
    if |raw| >= NONCE_SIZE + TAG_SIZE {
      var nonce, body := raw[..NONCE_SIZE], raw[NONCE_SIZE..];
      SimpleGrows(c, st, nonce, body, seqno, pick);
      SimpleGrows(c, st, nonce, body, 0, pick);
      hide SimpleDecrypt;
      if LooksLikeKem(body) {
        var end := |body| - 2 - Tail(body);
        OpenNextGrows(c, st, st.recvChainKey + c.decaps(dk, body[end..|body| - 2]), nonce, body[..end], seqno, pick);
      }
    }
  }

  lemma SimpleGrows(c: Suite, st: RatchetState, nonce: Bytes, body: Bytes, seqno: u64, pick: Pick)
    requires PicksAnEntry(pick) && Bounded(st)
    ensures |SimpleDecrypt(c, st, nonce, body, seqno, pick).st.skipped| >= |st.skipped|
  {
    hide OpenNext, Bounded, SkipTo;
    SkipToBounded(c, st, seqno, pick);
    SkipToGrows(c, st, seqno, pick);
    var ready := SkipTo(c, st, seqno, pick);
    OpenNextGrows(c, ready, ready.recvChainKey, nonce, body, seqno, pick);
  }

  lemma {:induction false} SkipToBounded(c: Suite, st: RatchetState, seqno: u64, pick: Pick)
    requires PicksAnEntry(pick) && Bounded(st)
    ensures Bounded(SkipTo(c, st, seqno, pick))
    decreases seqno - st.recvNumber
  {
    hide SkipTo, Store;
    SkipToUnfolds(c, st, seqno, pick);
    if st.recvNumber < seqno {
      StoreBounded(st.skipped, st.recvNumber, MessageKey(c, st.recvChainKey).0, pick);
      SkipToBounded(c, SkipStep(c, st, pick), seqno, pick);
    }
  }

  lemma OpenNextBounded(c: Suite, st: RatchetState, input: Bytes, nonce: Bytes, body: Bytes, seqno: u64, pick: Pick)
    requires PicksAnEntry(pick) && Bounded(st)
    ensures Bounded(OpenNext(c, st, input, nonce, body, seqno, pick).0)
  {
    hide Store;
    StoreBounded(st.skipped, seqno, MessageKey(c, input).0, pick);
  }

  /** No receiving call, on any bytes, label and eviction choice, exceeds the table bound or 1025 derivations. */
  lemma ReceiveBounded(c: Suite, st: RatchetState, raw: Bytes, dk: Bytes, seqno: u64, pick: Pick)
    requires PicksAnEntry(pick) && Bounded(st)
    ensures Bounded(Decrypt(c, st, raw, dk, seqno, pick).st) && Bounded(DecryptFirst(c, st, raw, pick).st)
    ensures Decrypt(c, st, raw, dk, seqno, pick).derivations <= MAX_SKIP_AHEAD + 1
    ensures DecryptFirst(c, st, raw, pick).derivations <= MAX_SKIP_AHEAD + 1
  {
    hide Bounded, OpenNext, SkipTo;
    if |raw| >= NONCE_SIZE + TAG_SIZE {
      var nonce, body := raw[..NONCE_SIZE], raw[NONCE_SIZE..];
      SimpleBounded(c, st, nonce, body, seqno, pick);
      SimpleBounded(c, st, nonce, body, 0, pick);
      hide SimpleDecrypt;
      SkippedBounded(c, st, nonce, body, seqno);
      if LooksLikeKem(body) {
        var end := |body| - 2 - Tail(body);
        OpenNextBounded(c, st, st.recvChainKey + c.decaps(dk, body[end..|body| - 2]), nonce, body[..end], seqno, pick);
      }
    }
  }

  lemma SimpleBounded(c: Suite, st: RatchetState, nonce: Bytes, body: Bytes, seqno: u64, pick: Pick)
    requires PicksAnEntry(pick) && Bounded(st)
    ensures Bounded(SimpleDecrypt(c, st, nonce, body, seqno, pick).st)
    ensures SimpleDecrypt(c, st, nonce, body, seqno, pick).derivations <= MAX_SKIP_AHEAD + 1
  {
    hide OpenNext, Bounded, SkipTo;
    SkipToBounded(c, st, seqno, pick);
    var ready := SkipTo(c, st, seqno, pick);
    OpenNextBounded(c, ready, ready.recvChainKey, nonce, body, seqno, pick);
  }

  lemma SkippedBounded(c: Suite, st: RatchetState, nonce: Bytes, body: Bytes, seqno: u64)
    requires Bounded(st)
    ensures seqno in st.skipped ==> Bounded(DecryptSkipped(c, st, nonce, body, seqno).st)
  {}

  /** One call on a session, with whatever arguments the caller or the network supplies. */
  datatype Call =
    | SendFirst(plaintext: Bytes, nonce: Bytes)
    | SendKem(plaintext: Bytes, nonce: Bytes, ek: Bytes, random: Bytes)
    | Receive(raw: Bytes, dk: Bytes, seqno: u64, pick: Pick)
    | ReceiveFirst(raw: Bytes, pick: Pick)

  ghost predicate PickOk(call: Call) {
    match call
    case Receive(_, _, _, pick) => PicksAnEntry(pick)
    case ReceiveFirst(_, pick) => PicksAnEntry(pick)
    case _ => true
  }

  function Made(c: Suite, st: RatchetState, call: Call): (RatchetState, nat) {
    match call
    case SendFirst(_, _) => (AfterSend(st, MessageKey(c, st.sendChainKey).1), 1)
    case SendKem(_, _, ek, random) =>
      (AfterSend(st, MessageKey(c, st.sendChainKey + c.encaps(ek, random).1).1), 1)
    case Receive(raw, dk, seqno, pick) =>
      var r := Decrypt(c, st, raw, dk, seqno, pick); (r.st, r.derivations)
    case ReceiveFirst(raw, pick) =>
      var r := DecryptFirst(c, st, raw, pick); (r.st, r.derivations)
  }

  function StateAfter(c: Suite, st: RatchetState, calls: seq<Call>): RatchetState
    decreases |calls|
  {
    if calls == [] then st else StateAfter(c, Made(c, st, calls[0]).0, calls[1..])
  }

  /** After every run of calls from a fresh session the table is within bounds, and the next call, whatever it is,
      makes at most 1025 key derivations and keeps the table within bounds. */
  lemma EveryRunBounded(c: Suite, isInitiator: bool, selfMode: bool, secret: Bytes, calls: seq<Call>, next: Call)
    requires |secret| >= 32
    requires forall call <- calls :: PickOk(call)
    requires PickOk(next)
    ensures var st := StateAfter(c, NewSession(c, isInitiator, selfMode, secret).value, calls);
            && |st.skipped| <= 1024 && |Made(c, st, next).0.skipped| <= 1024
            && Made(c, st, next).1 <= 1025
  {
    var st := StateAfter(c, NewSession(c, isInitiator, selfMode, secret).value, calls);
    RunBounded(c, NewSession(c, isInitiator, selfMode, secret).value, calls);
    CallBounded(c, st, next);
  }

  lemma CallBounded(c: Suite, st: RatchetState, call: Call)
    requires Bounded(st) && PickOk(call)
    ensures Bounded(Made(c, st, call).0) && Made(c, st, call).1 <= MAX_SKIP_AHEAD + 1
  {
    hide Decrypt, DecryptFirst;
    match call
    case Receive(raw, dk, seqno, pick) => ReceiveBounded(c, st, raw, dk, seqno, pick);
    case ReceiveFirst(raw, pick) => ReceiveBounded(c, st, raw, [], 0, pick);
    case _ =>
  }

  lemma {:induction false} RunBounded(c: Suite, st: RatchetState, calls: seq<Call>)
    requires Bounded(st)
    requires forall call <- calls :: PickOk(call)
    ensures Bounded(StateAfter(c, st, calls))
    decreases |calls|
  {
    hide Made;
    if calls != [] {
      CallBounded(c, st, calls[0]);
      RunBounded(c, Made(c, st, calls[0]).0, calls[1..]);
    }
  }
}
