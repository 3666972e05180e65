/** What decrypt_message does with an honest linear frame, in every case: whatever the receiver's state, the sender's
    chain key and the label (crypto/src/lib.rs). */
module DeliveryOutcomes {
  import opened Primitives
  import opened DoubleRatchet
  import opened Wrappers
  import opened BatchDelivery

  /** The linear frame of a message at the sender's chain key `ck`, given to a receiver. */
  function Outcome(c: Suite, ck: Bytes, st: RatchetState, m: Message, dk: Bytes, seqno: u64, pick: Pick): Received {
    Decrypt(c, st, LinearFrame(c, ck, m.nonce, m.plaintext), dk, seqno, pick)
  }

  function SealKey(c: Suite, ck: Bytes): Bytes { MessageKey(c, ck).0 }

  function LinearBody(c: Suite, ck: Bytes, m: Message): Bytes { c.seal(SealKey(c, ck), m.nonce, m.plaintext) }

  lemma LinearParts(c: Suite, ck: Bytes, m: Message)
    requires c.Lawful() && |m.nonce| == NONCE_SIZE
    ensures var raw := LinearFrame(c, ck, m.nonce, m.plaintext);
            && |raw| == NONCE_SIZE + TAG_SIZE + |m.plaintext|
            && raw[..NONCE_SIZE] == m.nonce && raw[NONCE_SIZE..] == LinearBody(c, ck, m)
  {
    hide MessageKey;
  }

  // ----- Refusals that change nothing

  /** In every lawful suite, and whatever the receiver's state, a text under two bytes is refused as too short. */
  lemma ShortTextRefused(c: Suite, ck: Bytes, st: RatchetState, m: Message, dk: Bytes, seqno: u64, pick: Pick)
    requires c.Lawful() && |m.nonce| == NONCE_SIZE && |m.plaintext| < 2
    ensures Outcome(c, ck, st, m, dk, seqno, pick) == Received(st, Err(TooShort), 0)
  {
    LinearParts(c, ck, m);
  }

  /** A frame read as carrying a KEM ciphertext of a wrong size is refused. */
  lemma MisreadRefused(c: Suite, ck: Bytes, st: RatchetState, m: Message, dk: Bytes, seqno: u64, pick: Pick)
    requires c.Lawful() && Readable(c, m) && seqno !in st.skipped
    requires LooksLikeKem(LinearBody(c, ck, m)) && Tail(LinearBody(c, ck, m)) != MLKEM1024_CT_SIZE
    ensures Outcome(c, ck, st, m, dk, seqno, pick) == Received(st, Err(KyberParse), 0)
  {
    hide MessageKey, SimpleDecrypt, OpenNext, LinearFrame;
    LinearParts(c, ck, m);
  }

  /** An index more than 1024 ahead is refused. */
  lemma GapRefused(c: Suite, ck: Bytes, st: RatchetState, m: Message, dk: Bytes, seqno: u64, pick: Pick)
    requires c.Lawful() && Readable(c, m) && seqno !in st.skipped
    requires !LooksLikeKem(LinearBody(c, ck, m)) && seqno > st.recvNumber + MAX_SKIP_AHEAD
    ensures Outcome(c, ck, st, m, dk, seqno, pick) == Received(st, Err(SeqGap), 0)
  {
    hide MessageKey, KemDecrypt, OpenNext, SkipTo, LinearFrame, LooksLikeKem;
    LinearParts(c, ck, m);
  }

  // ----- Attempts

  /** What a receiver on `st` leaves behind after opening to `text` with `key`, the next chain key being `chain`. */
  ghost predicate Attempted(c: Suite, st: RatchetState, key: Bytes, chain: Bytes, text: Option<Bytes>, seqno: u64,
                            pick: Pick, r: Received) {
    var moved := if st.selfMode then st else st.(recvChainKey := chain);
    && r.derivations == 1
    && r.st == (if text.None? then moved
                else moved.(recvNumber := Inc(st.recvNumber), skipped := Store(st.skipped, seqno, key, pick)))
    && r.result == (if text.None? then Err(Auth) else Utf8Checked(c, text.value))
  }

  /** The key pair derived from the end of the body taken as a ciphertext. */
  function MisreadKeys(c: Suite, st: RatchetState, body: Bytes, dk: Bytes): (Bytes, Bytes)
    requires |body| >= MLKEM1024_CT_SIZE + 2
  {
    MessageKey(c, st.recvChainKey + c.decaps(dk, body[|body| - 2 - MLKEM1024_CT_SIZE..|body| - 2]))
  }

  /** The rest of the body, taken as the sealed text. */
  function MisreadRest(body: Bytes): Bytes
    requires |body| >= MLKEM1024_CT_SIZE + 2
  {
    body[..|body| - 2 - MLKEM1024_CT_SIZE]
  }

  /** A frame read as carrying a KEM ciphertext of the right size: its tail is decapsulated, the receive chain moves,
      and only then is the rest opened.  When that fails a receiver on a sender's chain has left it, unless the
      derived chain key is the one it had. */
  lemma MisreadMovesChain(c: Suite, ck: Bytes, st: RatchetState, m: Message, dk: Bytes, seqno: u64, pick: Pick)
    requires c.Lawful() && Readable(c, m) && seqno !in st.skipped
    requires LooksLikeKem(LinearBody(c, ck, m)) && Tail(LinearBody(c, ck, m)) == MLKEM1024_CT_SIZE
    ensures var body := LinearBody(c, ck, m);
            var (key, chain) := MisreadKeys(c, st, body, dk);
            var text := c.open(key, m.nonce, MisreadRest(body));
            var r := Outcome(c, ck, st, m, dk, seqno, pick);
            && Attempted(c, st, key, chain, text, seqno, pick, r)
            && (text.None? ==> forall start :: Tracks(c, start, st) ==>
                  (Tracks(c, start, r.st) <==> chain == st.recvChainKey))
  {
    hide ChainAt, MessageKey, SimpleDecrypt, Store, LinearFrame, LinearBody;
    LinearParts(c, ck, m);
  }

  /** A frame not ahead of the receiver whose key is not stored: it is opened under the receiver's next key, and the
      chain moves, also when that fails. */
  lemma PassedFrame(c: Suite, ck: Bytes, st: RatchetState, m: Message, dk: Bytes, seqno: u64, pick: Pick)
    requires c.Lawful() && Readable(c, m) && seqno !in st.skipped
    requires !LooksLikeKem(LinearBody(c, ck, m)) && seqno <= st.recvNumber
    ensures var (key, chain) := MessageKey(c, st.recvChainKey);
            var text := c.open(key, m.nonce, LinearBody(c, ck, m));
            var r := Outcome(c, ck, st, m, dk, seqno, pick);
            && Attempted(c, st, key, chain, text, seqno, pick, r)
            && (text.None? ==> forall start :: Tracks(c, start, st) ==>
                  (Tracks(c, start, r.st) <==> chain == st.recvChainKey))
  {
    hide ChainAt, MessageKey, KemDecrypt, Store, LinearFrame, LooksLikeKem, SkipTo;
    LinearParts(c, ck, m);
    SkipToUnfolds(c, st, seqno, pick);
  }

  // ----- The exact condition

  /** How many steps the skip-ahead loop takes for a label. */
  function Ahead(st: RatchetState, seqno: u64): nat { if st.recvNumber < seqno then seqno - st.recvNumber else 0 }

  /** The chain key of a receiver that has skipped ahead to a label; in self mode the chain stays. */
  function ReadyChain(c: Suite, st: RatchetState, seqno: u64): Bytes {
    if st.selfMode then st.recvChainKey else ChainAt(c, st.recvChainKey, Ahead(st, seqno))
  }

  lemma {:induction false} ChainFromNext(c: Suite, ck: Bytes, n: nat)
    ensures ChainAt(c, MessageKey(c, ck).1, n) == ChainAt(c, ck, n + 1)
    decreases n
  {
    hide MessageKey;
    if n > 0 {
      ChainFromNext(c, ck, n - 1);
    }
  }

  lemma {:induction false} SkipToChain(c: Suite, st: RatchetState, seqno: u64, pick: Pick)
    ensures SkipTo(c, st, seqno, pick).recvChainKey == ReadyChain(c, st, seqno)
    ensures SkipTo(c, st, seqno, pick).selfMode == st.selfMode
    decreases seqno - st.recvNumber
  {
    hide SkipTo, Store, ChainAt, MessageKey;
    SkipToUnfolds(c, st, seqno, pick);
    ChainStart(c, st.recvChainKey);
    if st.recvNumber < seqno {
      SkipToChain(c, SkipStep(c, st, pick), seqno, pick);
      ChainFromNext(c, st.recvChainKey, seqno - st.recvNumber - 1);
    }
  }

  lemma ChainStart(c: Suite, ck: Bytes)
    ensures ChainAt(c, ck, 0) == ck
  {}

  /** A linear frame within the window: it is opened under the key at its label, the chain having skipped there. */
  lemma WindowFrame(c: Suite, ck: Bytes, st: RatchetState, m: Message, dk: Bytes, seqno: u64, pick: Pick)
    requires c.Lawful() && Readable(c, m) && seqno !in st.skipped
    requires !LooksLikeKem(LinearBody(c, ck, m)) && seqno <= st.recvNumber + MAX_SKIP_AHEAD
    ensures var chain := ReadyChain(c, st, seqno);
            var text := c.open(SealKey(c, chain), m.nonce, LinearBody(c, ck, m));
            var r := Outcome(c, ck, st, m, dk, seqno, pick);
            && r.result == (if text.None? then Err(Auth) else Utf8Checked(c, text.value))
            && (!st.selfMode ==> r.st.recvChainKey == MessageKey(c, chain).1)
            && r.derivations == Ahead(st, seqno) + 1
  {
    hide MessageKey, KemDecrypt, Store, LinearFrame, LooksLikeKem, SkipTo, ReadyChain;
    LinearParts(c, ck, m);
    SkipToChain(c, st, seqno, pick);
  }

  /** When the text of a linear frame is given back. */
  ghost predicate GivenBack(c: Suite, ck: Bytes, st: RatchetState, m: Message, dk: Bytes, seqno: u64) {
    var body := LinearBody(c, ck, m);
    && |m.plaintext| >= 2
    && if seqno in st.skipped then c.open(st.skipped[seqno], m.nonce, body) == Some(m.plaintext)
       else if LooksLikeKem(body) then
         && Tail(body) == MLKEM1024_CT_SIZE
         && c.open(MisreadKeys(c, st, body, dk).0, m.nonce, MisreadRest(body)) == Some(m.plaintext)
       else
         && seqno <= st.recvNumber + MAX_SKIP_AHEAD
         && c.open(SealKey(c, ReadyChain(c, st, seqno)), m.nonce, body) == Some(m.plaintext)
  }

  /** The exact condition, for every sendable text, sender's chain key, label and receiver. */
  lemma DeliveryExact(c: Suite, ck: Bytes, st: RatchetState, m: Message, dk: Bytes, seqno: u64, pick: Pick)
    requires c.Lawful() && Sendable(c, m)
    ensures Outcome(c, ck, st, m, dk, seqno, pick).result == Ok(m.plaintext) <==> GivenBack(c, ck, st, m, dk, seqno)
  {
    hide Outcome, MisreadKeys, MisreadRest, LinearBody, Store, ReadyChain, LooksLikeKem, Tail;
    var body := LinearBody(c, ck, m);
    if |m.plaintext| < 2 {
      ShortTextRefused(c, ck, st, m, dk, seqno, pick);
    } else if seqno in st.skipped {
      StoredFrame(c, ck, st, m, dk, seqno, pick);
    } else if LooksLikeKem(body) {
      KemLookingBody(body);
      if Tail(body) == MLKEM1024_CT_SIZE {
        MisreadMovesChain(c, ck, st, m, dk, seqno, pick);
      } else {
        MisreadRefused(c, ck, st, m, dk, seqno, pick);
      }
    } else if seqno <= st.recvNumber + MAX_SKIP_AHEAD {
      WindowFrame(c, ck, st, m, dk, seqno, pick);
    } else {
      GapRefused(c, ck, st, m, dk, seqno, pick);
    }
  }

  lemma KemLookingBody(body: Bytes)
    requires LooksLikeKem(body)
    ensures |body| > 2 && |body| >= Tail(body) + 2
  {}

  /** A frame under a stored label is opened with the stored key, and the chain stays. */
  lemma StoredFrame(c: Suite, ck: Bytes, st: RatchetState, m: Message, dk: Bytes, seqno: u64, pick: Pick)
    requires c.Lawful() && Readable(c, m) && seqno in st.skipped
    ensures var text := c.open(st.skipped[seqno], m.nonce, LinearBody(c, ck, m));
            var r := Outcome(c, ck, st, m, dk, seqno, pick);
            && r.result == (if text.None? then Err(AuthSkipped) else Utf8Checked(c, text.value))
            && r.st == st.(recvNumber := if text.None? then st.recvNumber else Max(st.recvNumber, Inc(seqno)))
  {
    hide MessageKey, KemDecrypt, SimpleDecrypt, LinearFrame, LooksLikeKem;
    LinearParts(c, ck, m);
  }

  /** When opening keeps sizes and the text does not open under another key that is tried: a condition on the text's
      length, the frame's last two bytes, the label, the table and the chain alone. */
  lemma SeparateExact(c: Suite, ck: Bytes, st: RatchetState, m: Message, dk: Bytes, seqno: u64, pick: Pick)
    requires c.Lawful() && c.KeepsSizes() && Sendable(c, m)
    requires seqno in st.skipped ==> c.Separates(SealKey(c, ck), st.skipped[seqno], m.nonce, m.plaintext)
    requires c.Separates(SealKey(c, ck), SealKey(c, ReadyChain(c, st, seqno)), m.nonce, m.plaintext)
    ensures Outcome(c, ck, st, m, dk, seqno, pick).result == Ok(m.plaintext) <==>
            && |m.plaintext| >= 2
            && if seqno in st.skipped then st.skipped[seqno] == SealKey(c, ck)
               else
                 && !LooksLikeKem(LinearBody(c, ck, m))
                 && seqno <= st.recvNumber + 1024
                 && SealKey(c, ReadyChain(c, st, seqno)) == SealKey(c, ck)
  {
    hide Outcome, ReadyChain, SealKey;
    DeliveryExact(c, ck, st, m, dk, seqno, pick);
    MisreadNeverOpens(c, ck, st, m, dk);
    OwnKeyOpens(c, ck, m);
    hide LinearBody, LooksLikeKem, Suite.Lawful, Suite.KeepsSizes, MisreadKeys, MisreadRest;
  }

  lemma OwnKeyOpens(c: Suite, ck: Bytes, m: Message)
    requires c.Lawful()
    ensures c.open(SealKey(c, ck), m.nonce, LinearBody(c, ck, m)) == Some(m.plaintext)
  {
    hide SealKey;
  }

  lemma MisreadNeverOpens(c: Suite, ck: Bytes, st: RatchetState, m: Message, dk: Bytes)
    requires c.Lawful() && c.KeepsSizes()
    ensures var body := LinearBody(c, ck, m);
            LooksLikeKem(body) && Tail(body) == MLKEM1024_CT_SIZE ==>
              c.open(MisreadKeys(c, st, body, dk).0, m.nonce, MisreadRest(body)) != Some(m.plaintext)
  {
    var body := LinearBody(c, ck, m);
    hide SealKey, MisreadKeys;
    assert |body| == |m.plaintext| + TAG_SIZE;
  }

  /** A receiver that reaches the sender's chain key by skipping to the label gives the text back exactly when it has
      two bytes, the frame's last two bytes are no plausible length, and the label is within the window. */
  lemma AheadExact(c: Suite, ck: Bytes, st: RatchetState, m: Message, dk: Bytes, seqno: u64, pick: Pick)
    requires c.Lawful() && c.KeepsSizes() && Sendable(c, m)
    requires seqno !in st.skipped && ReadyChain(c, st, seqno) == ck
    ensures Outcome(c, ck, st, m, dk, seqno, pick).result == Ok(m.plaintext) <==>
            |m.plaintext| >= 2 && !LooksLikeKem(LinearBody(c, ck, m)) && seqno <= st.recvNumber + MAX_SKIP_AHEAD
  {
    hide ReadyChain, Outcome, SealKey, LinearBody, LooksLikeKem;
    SeparateExact(c, ck, st, m, dk, seqno, pick);
  }

  /** A frame whose last two bytes, as a number, are zero or leave no room for a ciphertext is always taken as linear. */
  lemma ImplausibleTailReturns(c: Suite, ck: Bytes, st: RatchetState, m: Message, dk: Bytes, seqno: u64, pick: Pick)
    requires c.Lawful() && c.KeepsSizes() && Readable(c, m)
    requires seqno !in st.skipped && ReadyChain(c, st, seqno) == ck && seqno <= st.recvNumber + 1024
    requires var body := LinearBody(c, ck, m);
             |body| >= 2 && var n := 256 * body[|body| - 2] as int + body[|body| - 1] as int; n == 0 || n > |m.plaintext| + 14
    ensures Outcome(c, ck, st, m, dk, seqno, pick).result == Ok(m.plaintext)
  {
    hide ReadyChain, Outcome, SealKey;
    AheadExact(c, ck, st, m, dk, seqno, pick);
    assert |LinearBody(c, ck, m)| == |m.plaintext| + 16;
  }

  /** A receiver in step with a sender of linear frames only is such a receiver, for every label not yet passed. */
  lemma TracksAhead(c: Suite, start: Bytes, st: RatchetState, seqno: u64)
    requires Tracks(c, start, st) && seqno >= st.recvNumber
    ensures seqno !in st.skipped && ReadyChain(c, st, seqno) == ChainAt(c, start, seqno)
  {
    ChainsAdd(c, start, st.recvNumber, seqno - st.recvNumber);
  }

  lemma {:induction false} ChainsAdd(c: Suite, start: Bytes, a: nat, b: nat)
    ensures ChainAt(c, ChainAt(c, start, a), b) == ChainAt(c, start, a + b)
    decreases b
  {
    hide MessageKey;
    if b > 0 {
      ChainsAdd(c, start, a, b - 1);
    }
  }

  /** A linear frame given back under a label that is stored afterwards is given back again. */
  lemma LinearRepeats(c: Suite, ck: Bytes, st: RatchetState, m: Message, dk: Bytes, seqno: u64, pick: Pick, again: Pick)
    requires c.Lawful() && c.KeepsSizes() && Sendable(c, m)
    requires Outcome(c, ck, st, m, dk, seqno, pick).result == Ok(m.plaintext)
    requires seqno in Outcome(c, ck, st, m, dk, seqno, pick).st.skipped
    ensures Outcome(c, ck, Outcome(c, ck, st, m, dk, seqno, pick).st, m, dk, seqno, again).result == Ok(m.plaintext)
  {
    var after := Outcome(c, ck, st, m, dk, seqno, pick).st;
    DeliveryExact(c, ck, st, m, dk, seqno, pick);
    MisreadNeverOpens(c, ck, st, m, dk);
    LinearKeyStored(c, ck, st, m, dk, seqno, pick);
    DeliveryExact(c, ck, after, m, dk, seqno, again);
    hide Outcome, LinearBody, ReadyChain, SealKey, LooksLikeKem, MisreadKeys, MisreadRest;
  }

  lemma LinearKeyStored(c: Suite, ck: Bytes, st: RatchetState, m: Message, dk: Bytes, seqno: u64, pick: Pick)
    requires c.Lawful() && Readable(c, m) && Outcome(c, ck, st, m, dk, seqno, pick).result == Ok(m.plaintext)
    requires seqno in st.skipped || !LooksLikeKem(LinearBody(c, ck, m))
    ensures var after := Outcome(c, ck, st, m, dk, seqno, pick).st;
            seqno in after.skipped ==>
              after.skipped[seqno] == if seqno in st.skipped then st.skipped[seqno] else SealKey(c, ReadyChain(c, st, seqno))
  {
    LinearParts(c, ck, m);
    hide MessageKey, KemDecrypt, LinearFrame, LooksLikeKem, SkipTo, ReadyChain;
    SkipToChain(c, st, seqno, pick);
  }

  // ----- Inputs

  /** A suite obeying all the laws.  Chain step n has the key [0, .., 0] of n + 1 zeros; a tag is the key's length,
      fourteen times, and then the two bytes of `tail`. */
  function KeyedSuite(tail: Bytes): Suite {
    Suite((ikm, info) => (ikm, ikm + [0]),
          (k, n, m) => m + KeyedTag(k, tail),
          (k, n, s) => KeyedOpen(k, s, tail),
          dk => dk,
          (ek, r) => (Zeros(MLKEM1024_CT_SIZE), [0]),
          (dk, ct) => [0],
          b => true)
  }

  function Zeros(n: nat): (r: Bytes)
    ensures |r| == n
  {
    seq(n, _ => 0)
  }

  function KeyedTag(key: Bytes, tail: Bytes): Bytes { seq(14, _ => |key| % 256) + tail }

  function KeyedOpen(key: Bytes, s: Bytes, tail: Bytes): Option<Bytes> {
    if |s| >= TAG_SIZE && s[|s| - TAG_SIZE..] == KeyedTag(key, tail) then Some(s[..|s| - TAG_SIZE]) else None
  }

  lemma KeyedLawful(tail: Bytes)
    requires |tail| == 2
    ensures KeyedSuite(tail).Lawful() && KeyedSuite(tail).KeepsSizes()
  {
    var c := KeyedSuite(tail);
    forall k: Bytes, n: Bytes, m: Bytes
      ensures c.open(k, n, c.seal(k, n, m)) == Some(m) && |c.seal(k, n, m)| == |m| + TAG_SIZE
    {
      var s := m + KeyedTag(k, tail);
      assert s[|m|..] == KeyedTag(k, tail) && s[..|m|] == m;
    }
  }

  /** A fresh receiver on the chain from [0]. */
  function Receiver(): RatchetState { RatchetState(false, false, [], [], [0], 0, 0, map[]) }

  lemma FreshReceiver(c: Suite)
    ensures Tracks(c, [0], Receiver())
  {}

  /** An honest in-order frame that is refused: its tag ends in 0, 1, read as a KEM ciphertext of length one. */
  lemma RefusedFrame(dk: Bytes, pick: Pick)
    ensures var c := KeyedSuite([0, 1]);
            && c.Lawful() && Tracks(c, [0], Receiver())
            && Outcome(c, [0], Receiver(), Message([104, 105], Zeros(NONCE_SIZE)), dk, 0, pick)
               == Received(Receiver(), Err(KyberParse), 0)
  {
    var c := KeyedSuite([0, 1]);
    var m := Message([104, 105], Zeros(NONCE_SIZE));
    KeyedLawful([0, 1]);
    FreshReceiver(c);
    hide Outcome, Suite.Lawful, Suite.KeepsSizes, Tracks;
    assert |LinearBody(c, [0], m)| == 18 && Tail(LinearBody(c, [0], m)) == 1;
    MisreadRefused(c, [0], Receiver(), m, dk, 0, pick);
  }

  /** An honest first frame, its tag ending in 1568, that takes the receiver off the sender's chain: it fails to
      authenticate, and so does the honest frame after it. */
  lemma MisreadDesyncs(dk: Bytes, pick: Pick)
    ensures var c := KeyedSuite([6, 32]);
            var nonce := Zeros(NONCE_SIZE);
            var first := Outcome(c, [0], Receiver(), Message(Zeros(1600), nonce), dk, 0, pick);
            && c.Lawful() && Tracks(c, [0], Receiver())
            && first.result == Err(Auth)
            && !Tracks(c, [0], first.st)
            && Outcome(c, [0, 0], first.st, Message([104, 105], nonce), dk, 1, pick).result == Err(Auth)
  {
    var c := KeyedSuite([6, 32]);
    var nonce := Zeros(NONCE_SIZE);
    KeyedLawful([6, 32]);
    FreshReceiver(c);
    MisreadFirst(dk, pick);
    FollowingFails(dk, pick);
  }

  /** The first frame's body: it ends in 1568, and what precedes the last 1570 bytes ends in zeros. */
  lemma MisreadBody(body: Bytes, nonce: Bytes)
    requires body == KeyedSuite([6, 32]).seal([0], nonce, Zeros(1600))
    ensures LooksLikeKem(body) && Tail(body) == MLKEM1024_CT_SIZE
    ensures KeyedOpen([0, 0], MisreadRest(body), [6, 32]) == None
  {
    var rest := MisreadRest(body);
    assert |body| == 1616 && |rest| == 46;
    assert rest[30..][0] == 0;
    assert KeyedTag([0, 0], [6, 32])[0] == 2;
  }

  lemma MisreadFirst(dk: Bytes, pick: Pick)
    ensures var c := KeyedSuite([6, 32]);
            var first := Outcome(c, [0], Receiver(), Message(Zeros(1600), Zeros(NONCE_SIZE)), dk, 0, pick);
            first == Received(Receiver().(recvChainKey := [0, 0, 0]), Err(Auth), 1) && !Tracks(c, [0], first.st)
  {
    var c := KeyedSuite([6, 32]);
    var m := Message(Zeros(1600), Zeros(NONCE_SIZE));
    var body := LinearBody(c, [0], m);
    KeyedLawful([6, 32]);
    FreshReceiver(c);
    MisreadBody(body, m.nonce);
    hide Outcome, Suite.Lawful, Suite.KeepsSizes, Tracks, LinearBody, LooksLikeKem, Tail, MisreadRest, KeyedOpen, KeyedTag, Zeros;
    MisreadMovesChain(c, [0], Receiver(), m, dk, 0, pick);
    var mixed: Bytes := [0, 0];
    assert [0] + [0] == mixed && mixed + [0] == [0, 0, 0];
    assert MisreadKeys(c, Receiver(), body, dk) == (mixed, [0, 0, 0]);
  }

  lemma FollowingFails(dk: Bytes, pick: Pick)
    ensures var c := KeyedSuite([6, 32]);
            var st := Receiver().(recvChainKey := [0, 0, 0]);
            Outcome(c, [0, 0], st, Message([104, 105], Zeros(NONCE_SIZE)), dk, 1, pick).result == Err(Auth)
  {
    var c := KeyedSuite([6, 32]);
    var st := Receiver().(recvChainKey := [0, 0, 0]);
    var m := Message([104, 105], Zeros(NONCE_SIZE));
    KeyedLawful([6, 32]);
    var body := LinearBody(c, [0, 0], m);
    assert body == [104, 105] + KeyedTag([0, 0], [6, 32]);
    assert body[|body| - TAG_SIZE..][0] == 2;
    ChainFromNext(c, [0, 0, 0], 0);
    ChainStart(c, [0, 0, 0, 0]);
    assert [0, 0, 0] + [0] == [0, 0, 0, 0];
    assert ReadyChain(c, st, 1) == [0, 0, 0, 0];
    assert KeyedTag([0, 0, 0, 0], [6, 32])[0] == 4;
    WindowFrame(c, [0, 0], st, m, dk, 1, pick);
  }
}
