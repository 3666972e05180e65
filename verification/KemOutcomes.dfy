/** What decrypt_message does with an honest KEM frame, whatever the receiver's state and the label: in order, out of
    order or repeated; and linear frames in sessions that also carry KEM frames (crypto/src/lib.rs). */
module KemOutcomes {
  import opened Primitives
  import opened DoubleRatchet
  import opened Wrappers
  import opened DeliveryOutcomes
  import opened TwoWay
  import BatchDelivery

  /** A message sent with the per-message KEM. */
  predicate KemSendable(c: Suite, m: Outgoing) { |m.nonce| == NONCE_SIZE && c.utf8(m.plaintext) && m.random.Some? }

  /** The KEM frame of a message at the sender's chain key `ck`, given to the holder of `dk`. */
  function KemOutcome(c: Suite, ck: Bytes, st: RatchetState, m: Outgoing, dk: Bytes, seqno: u64, pick: Pick): Received {
    Decrypt(c, st, FrameOf(c, ck, c.publicKey(dk), m), dk, seqno, pick)
  }

  function Secret(c: Suite, m: Outgoing, dk: Bytes): Bytes
    requires m.random.Some?
  {
    c.encaps(c.publicKey(dk), m.random.value).1
  }

  /** The message key and next chain key of a message at a chain key. */
  function KemKeys(c: Suite, ck: Bytes, m: Outgoing, dk: Bytes): (Bytes, Bytes)
    requires m.random.Some?
  {
    MessageKey(c, ck + Secret(c, m, dk))
  }

  function KemSealed(c: Suite, ck: Bytes, m: Outgoing, dk: Bytes): Bytes
    requires m.random.Some?
  {
    c.seal(KemKeys(c, ck, m, dk).0, m.nonce, m.plaintext)
  }

  function WholeBody(c: Suite, ck: Bytes, m: Outgoing, dk: Bytes): Bytes
    requires |m.nonce| == NONCE_SIZE && m.random.Some?
  {
    FrameOf(c, ck, c.publicKey(dk), m)[NONCE_SIZE..]
  }

  // ----- The fate of a KEM frame

  /** Under a label that is not stored: the secret is mixed into the receiver's own chain key, the chain moves, and the
      sealed text is opened. */
  lemma KemAttempt(c: Suite, ck: Bytes, st: RatchetState, m: Outgoing, dk: Bytes, seqno: u64, pick: Pick)
    requires c.Lawful() && KemSendable(c, m) && seqno !in st.skipped
    ensures var (key, chain) := KemKeys(c, st.recvChainKey, m, dk);
            var text := c.open(key, m.nonce, KemSealed(c, ck, m, dk));
            Attempted(c, st, key, chain, text, seqno, pick, KemOutcome(c, ck, st, m, dk, seqno, pick))
  {
    hide FrameOf, MessageKey, Store, SimpleDecrypt, LooksLikeKem, Tail;
    KemBody(c, ck, dk, m);
  }

  /** Under a stored label: the whole body, ciphertext included, is opened with the stored key, and the chain stays. */
  lemma KemStored(c: Suite, ck: Bytes, st: RatchetState, m: Outgoing, dk: Bytes, seqno: u64, pick: Pick)
    requires c.Lawful() && KemSendable(c, m) && seqno in st.skipped
    ensures var text := c.open(st.skipped[seqno], m.nonce, WholeBody(c, ck, m, dk));
            var r := KemOutcome(c, ck, st, m, dk, seqno, pick);
            && r.result == (if text.None? then Err(AuthSkipped) else Utf8Checked(c, text.value))
            && r.st == st.(recvNumber := if text.None? then st.recvNumber else BatchDelivery.Max(st.recvNumber, Inc(seqno)))
  {
    hide FrameOf, MessageKey, KemDecrypt, SimpleDecrypt, LooksLikeKem, Tail;
    KemBody(c, ck, dk, m);
  }

  lemma WholeBodyTooLong(c: Suite, ck: Bytes, m: Outgoing, dk: Bytes, key: Bytes)
    requires c.Lawful() && c.KeepsSizes() && KemSendable(c, m)
    ensures c.open(key, m.nonce, WholeBody(c, ck, m, dk)) != Some(m.plaintext)
  {
    KemBody(c, ck, dk, m);
    hide FrameOf, MessageKey, LooksLikeKem, Tail;
    var body := WholeBody(c, ck, m, dk);
    assert |body| == |m.plaintext| + TAG_SIZE + MLKEM1024_CT_SIZE + 2;
  }

  /** When opening keeps sizes, a KEM frame's text is given back exactly when its label is not stored and the text opens
      under the key that the receiver's chain yields; and the chain moves exactly when the label is not stored. */
  lemma KemExact(c: Suite, ck: Bytes, st: RatchetState, m: Outgoing, dk: Bytes, seqno: u64, pick: Pick)
    requires c.Lawful() && c.KeepsSizes() && KemSendable(c, m)
    ensures var (key, chain) := KemKeys(c, st.recvChainKey, m, dk);
            var r := KemOutcome(c, ck, st, m, dk, seqno, pick);
            && (r.result == Ok(m.plaintext) <==>
                seqno !in st.skipped && c.open(key, m.nonce, KemSealed(c, ck, m, dk)) == Some(m.plaintext))
            && r.st.recvChainKey == if seqno in st.skipped || st.selfMode then st.recvChainKey else chain
  {
    hide KemOutcome, KemKeys, WholeBody, KemSealed, Store;
    if seqno in st.skipped {
      KemStored(c, ck, st, m, dk, seqno, pick);
      WholeBodyTooLong(c, ck, m, dk, st.skipped[seqno]);
    } else {
      KemAttempt(c, ck, st, m, dk, seqno, pick);
    }
  }

  /** When moreover the text does not open under another key that is tried: exactly when the label is not stored and
      receiver and sender derive the same message key. */
  lemma KemSeparateExact(c: Suite, ck: Bytes, st: RatchetState, m: Outgoing, dk: Bytes, seqno: u64, pick: Pick)
    requires c.Lawful() && c.KeepsSizes() && KemSendable(c, m)
    requires c.Separates(KemKeys(c, ck, m, dk).0, KemKeys(c, st.recvChainKey, m, dk).0, m.nonce, m.plaintext)
    ensures KemOutcome(c, ck, st, m, dk, seqno, pick).result == Ok(m.plaintext) <==>
            seqno !in st.skipped && KemKeys(c, st.recvChainKey, m, dk).0 == KemKeys(c, ck, m, dk).0
  {
    hide KemOutcome, KemKeys;
    KemExact(c, ck, st, m, dk, seqno, pick);
    var key := KemKeys(c, ck, m, dk).0;
    assert c.open(key, m.nonce, c.seal(key, m.nonce, m.plaintext)) == Some(m.plaintext);
  }

  /** A KEM frame that was given back is not given back a second time while its label is stored, which it is unless the
      table was full.  (A linear frame is: DeliveryOutcomes.LinearRepeats.) */
  lemma KemRepeatRefused(c: Suite, ck: Bytes, st: RatchetState, m: Outgoing, dk: Bytes, seqno: u64, pick: Pick,
                         later: RatchetState, again: Pick)
    requires c.Lawful() && c.KeepsSizes() && KemSendable(c, m)
    requires KemOutcome(c, ck, st, m, dk, seqno, pick).result == Ok(m.plaintext)
    ensures |st.skipped| < MAX_SKIPPED_KEYS ==> seqno in KemOutcome(c, ck, st, m, dk, seqno, pick).st.skipped
    ensures seqno in later.skipped ==> KemOutcome(c, ck, later, m, dk, seqno, again).result != Ok(m.plaintext)
  {
    hide KemOutcome, KemKeys, WholeBody, KemSealed;
    KemExact(c, ck, st, m, dk, seqno, pick);
    KemAttempt(c, ck, st, m, dk, seqno, pick);
    KemExact(c, ck, later, m, dk, seqno, again);
  }

  /** Two successive KEM frames that arrive in the wrong order, at a receiver on the sender's chain and under labels
      that are not stored: each is given back only if two different derivations yield one key. */
  lemma KemSwapped(c: Suite, ck: Bytes, st: RatchetState, first: Outgoing, second: Outgoing, dk: Bytes,
                   n: u64, later: u64, pick: Pick, again: Pick)
    requires c.Lawful() && c.KeepsSizes() && KemSendable(c, first) && KemSendable(c, second)
    requires !st.selfMode && st.recvChainKey == ck && later !in st.skipped && n !in st.skipped && n != later
    requires var next := KemKeys(c, ck, first, dk).1;
             c.Separates(KemKeys(c, next, second, dk).0, KemKeys(c, ck, second, dk).0, second.nonce, second.plaintext)
    requires var moved := KemKeys(c, ck, second, dk).1;
             c.Separates(KemKeys(c, ck, first, dk).0, KemKeys(c, moved, first, dk).0, first.nonce, first.plaintext)
    ensures var next, moved := KemKeys(c, ck, first, dk).1, KemKeys(c, ck, second, dk).1;
            var r := KemOutcome(c, next, st, second, dk, later, pick);
            var q := KemOutcome(c, ck, r.st, first, dk, n, again);
            && (r.result == Ok(second.plaintext) <==> KemKeys(c, ck, second, dk).0 == KemKeys(c, next, second, dk).0)
            && (q.result == Ok(first.plaintext) <==> KemKeys(c, moved, first, dk).0 == KemKeys(c, ck, first, dk).0)
  {
    hide KemKeys, KemSealed;
    var next := KemKeys(c, ck, first, dk).1;
    var r := KemOutcome(c, next, st, second, dk, later, pick);
    KemSeparateExact(c, next, st, second, dk, later, pick);
    KemExact(c, next, st, second, dk, later, pick);
    KemAttempt(c, next, st, second, dk, later, pick);
    hide KemOutcome;
    KemSeparateExact(c, ck, r.st, first, dk, n, again);
  }

  /** Two honest KEM frames that arrive in the wrong order and are both lost. */
  lemma SwapLosesBoth(dk: Bytes, pick: Pick, again: Pick)
    ensures var c := KeyedSuite([0, 1]);
            var m := Outgoing([104, 105], Zeros(NONCE_SIZE), Some([]));
            var next := KemKeys(c, [0], m, dk).1;
            var r := KemOutcome(c, next, Receiver(), m, dk, 1, pick);
            && c.Lawful() && c.KeepsSizes()
            && r.result != Ok(m.plaintext)
            && KemOutcome(c, [0], r.st, m, dk, 0, again).result != Ok(m.plaintext)
  {
    var c := KeyedSuite([0, 1]);
    var m := Outgoing([104, 105], Zeros(NONCE_SIZE), Some([]));
    assert KemSendable(c, m);
    hide KemOutcome, KemKeys, KeyedSuite, Suite.Lawful, Suite.KeepsSizes, Suite.Separates, Zeros;
    KeyedLawful([0, 1]);
    KeyedChain(m, dk);
    KeyedSeparates([0, 0], [0, 0, 0, 0], m.nonce, m.plaintext, [0, 1]);
    KeyedSeparates([0, 0, 0, 0], [0, 0], m.nonce, m.plaintext, [0, 1]);
    KemSwapped(c, [0], Receiver(), m, m, dk, 0, 1, pick, again);
  }

  lemma KeyedChain(m: Outgoing, dk: Bytes)
    requires m.random.Some?
    ensures var c := KeyedSuite([0, 1]);
            && KemKeys(c, [0], m, dk) == ([0, 0], [0, 0, 0])
            && KemKeys(c, [0, 0, 0], m, dk).0 == [0, 0, 0, 0]
  {
    var one, two, three, four: Bytes := [0], [0, 0], [0, 0, 0], [0, 0, 0, 0];
    assert one + [0] == two && two + [0] == three && three + [0] == four;
  }

  lemma KeyedSeparates(key: Bytes, tried: Bytes, nonce: Bytes, text: Bytes, tail: Bytes)
    requires |key| % 256 != |tried| % 256 && |tail| == 2
    ensures KeyedSuite(tail).Separates(key, tried, nonce, text)
  {
    var s := text + KeyedTag(key, tail);
    assert s[|s| - TAG_SIZE..][0] == KeyedTag(key, tail)[0];
    assert KeyedTag(key, tail)[0] != KeyedTag(tried, tail)[0];
  }

  // ----- Linear frames in sessions with KEM frames

  /** Messages from..to of a direction are linear ones, and its recorded chain keys are the sender's. */
  ghost predicate LinearStretch(c: Suite, d: Direction, from: nat, to: nat)
    requires to <= |d.sent| < |d.chains|
  {
    forall i :: from <= i < to ==> d.sent[i].random.None? && d.chains[i + 1] == MessageKey(c, d.chains[i]).1
  }

  /** On a recorded chain of linear and KEM messages, a receiver in step reaches the sender's chain key at every label
      ahead of it, up to the next KEM message. */
  lemma {:induction false} LinkedAhead(c: Suite, st: RatchetState, d: Direction, seqno: u64)
    requires ReceiveSide(st, d) && d.delivered <= seqno <= |d.sent| && LinearStretch(c, d, d.delivered, seqno)
    ensures seqno !in st.skipped && ReadyChain(c, st, seqno) == d.chains[seqno]
    decreases seqno
  {
    hide MessageKey;
    if seqno > d.delivered {
      LinkedAhead(c, st, d, seqno - 1);
    }
  }

  /** In such a session the text of a linear message, from the receiver's place up to the next KEM message, is given
      back exactly when it has two bytes, its frame does not look like a KEM frame, and it is within the window. */
  lemma MixedSessionExact(c: Suite, st: RatchetState, d: Direction, dk: Bytes, seqno: u64,
                          m: BatchDelivery.Message, pick: Pick)
    requires c.Lawful() && c.KeepsSizes() && BatchDelivery.Sendable(c, m)
    requires ReceiveSide(st, d) && d.delivered <= seqno <= |d.sent| && LinearStretch(c, d, d.delivered, seqno)
    ensures Outcome(c, d.chains[seqno], st, m, dk, seqno, pick).result == Ok(m.plaintext) <==>
            && |m.plaintext| >= 2
            && !LooksLikeKem(LinearBody(c, d.chains[seqno], m))
            && seqno <= d.delivered + MAX_SKIP_AHEAD
  {
    hide Outcome, ReadyChain, LinearBody, LooksLikeKem;
    LinkedAhead(c, st, d, seqno);
    AheadExact(c, d.chains[seqno], st, m, dk, seqno, pick);
  }
}
