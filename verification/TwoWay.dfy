/** Two-way traffic over a Double Ratchet pair: sends and in-order deliveries, interleaved freely (crypto/src/lib.rs). */
module TwoWay {
  import opened Primitives
  import opened DoubleRatchet
  import opened Wrappers

  /** A message as its sender knows it: text, nonce, and the KEM randomness when the per-message KEM is used. */
  datatype Outgoing = Outgoing(plaintext: Bytes, nonce: Bytes, random: Option<Bytes>)

  /** One direction: everything sent so far, the sender's chain key before each message (and after the last), the
      frames on the wire, and how many the peer has received. */
  datatype Direction = Direction(sent: seq<Outgoing>, chains: seq<Bytes>, frames: seq<Bytes>, delivered: nat)

  /** Both sessions and both directions.  `dk` below is the receiving side's KEM secret. */
  datatype System = System(alice: RatchetState, bob: RatchetState, toBob: Direction, toAlice: Direction)

  datatype Parties = Parties(aliceKem: Bytes, bobKem: Bytes)

  datatype Event =
    | AliceSends(m: Outgoing)
    | BobSends(m: Outgoing)
    | BobReceives(pick: Pick)
    | AliceReceives(pick: Pick)

  // ----- Steps

  /** The frame and next chain key of encrypt_first (no KEM) or encrypt_message (KEM) at chain key `ck`. */
  function FrameOf(c: Suite, ck: Bytes, ek: Bytes, m: Outgoing): Bytes {
    if m.random.Some? then
      var (ct, ss) := c.encaps(ek, m.random.value);
      KemFrame(c, ck, m.nonce, m.plaintext, ct, ss)
    else LinearFrame(c, ck, m.nonce, m.plaintext)
  }

  function NextChain(c: Suite, ck: Bytes, ek: Bytes, m: Outgoing): Bytes {
    if m.random.Some? then MessageKey(c, ck + c.encaps(ek, m.random.value).1).1 else MessageKey(c, ck).1
  }

  function Send(c: Suite, st: RatchetState, d: Direction, ek: Bytes, m: Outgoing): (RatchetState, Direction) {
    var next := NextChain(c, st.sendChainKey, ek, m);
    (AfterSend(st, next),
     d.(sent := d.sent + [m], chains := d.chains + [next], frames := d.frames + [FrameOf(c, st.sendChainKey, ek, m)]))
  }

  /** The oldest undelivered frame arrives, labelled with its sender's message number. */
  function Receive(c: Suite, st: RatchetState, d: Direction, dk: Bytes, pick: Pick): (r: (Received, Direction))
    requires d.delivered < |d.frames| <= U64_LIMIT
  {
    (Decrypt(c, st, d.frames[d.delivered], dk, d.delivered, pick), d.(delivered := d.delivered + 1))
  }

  /** What may be sent: a counter that does not overflow, a 12-byte nonce, text; and a linear frame has at least two
      bytes of text and a body that does not look like a KEM frame. */
  ghost predicate Sendable(c: Suite, st: RatchetState, m: Outgoing) {
    && st.sendNumber + 1 < U64_LIMIT
    && |m.nonce| == NONCE_SIZE && c.utf8(m.plaintext)
    && (m.random.None? ==>
          && |m.plaintext| >= 2
          && !LooksLikeKem(c.seal(MessageKey(c, st.sendChainKey).0, m.nonce, m.plaintext)))
  }

  ghost predicate Enabled(c: Suite, s: System, e: Event) {
    match e
    case AliceSends(m) => Sendable(c, s.alice, m)
    case BobSends(m) => Sendable(c, s.bob, m)
    case BobReceives(_) => s.toBob.delivered < |s.toBob.frames| <= U64_LIMIT
    case AliceReceives(_) => s.toAlice.delivered < |s.toAlice.frames| <= U64_LIMIT
  }

  ghost function Step(c: Suite, p: Parties, s: System, e: Event): System
    requires Enabled(c, s, e)
  {
    match e
    case AliceSends(m) =>
      var (st, d) := Send(c, s.alice, s.toBob, c.publicKey(p.bobKem), m); s.(alice := st, toBob := d)
    case BobSends(m) =>
      var (st, d) := Send(c, s.bob, s.toAlice, c.publicKey(p.aliceKem), m); s.(bob := st, toAlice := d)
    case BobReceives(pick) =>
      var (r, d) := Receive(c, s.bob, s.toBob, p.bobKem, pick); s.(bob := r.st, toBob := d)
    case AliceReceives(pick) =>
      var (r, d) := Receive(c, s.alice, s.toAlice, p.aliceKem, pick); s.(alice := r.st, toAlice := d)
  }

  /** A delivery step gave back the text that was sent; other steps give nothing back. */
  ghost predicate GivesBack(c: Suite, p: Parties, s: System, e: Event)
    requires Enabled(c, s, e)
  {
    match e
    case BobReceives(pick) =>
      s.toBob.delivered < |s.toBob.sent| &&
      Receive(c, s.bob, s.toBob, p.bobKem, pick).0.result == Ok(s.toBob.sent[s.toBob.delivered].plaintext)
    case AliceReceives(pick) =>
      s.toAlice.delivered < |s.toAlice.sent| &&
      Receive(c, s.alice, s.toAlice, p.aliceKem, pick).0.result == Ok(s.toAlice.sent[s.toAlice.delivered].plaintext)
    case _ => true
  }

  // ----- The invariant of one direction

  /** Frame i is the honest frame of message i at chain key i, and carries unambiguously. */
  ghost predicate Honest(c: Suite, ek: Bytes, d: Direction, i: nat)
    requires i < |d.sent| == |d.frames| && |d.chains| == |d.sent| + 1
  {
    var m, ck := d.sent[i], d.chains[i];
    && |m.nonce| == NONCE_SIZE && c.utf8(m.plaintext)
    && d.frames[i] == FrameOf(c, ck, ek, m)
    && d.chains[i + 1] == NextChain(c, ck, ek, m)
    && (m.random.None? ==> |m.plaintext| >= 2 && !LooksLikeKem(c.seal(MessageKey(c, ck).0, m.nonce, m.plaintext)))
  }

  ghost predicate SendSide(c: Suite, sender: RatchetState, d: Direction, ek: Bytes) {
    && !sender.selfMode
    && |d.frames| == |d.sent| && |d.chains| == |d.sent| + 1
    && sender.sendNumber == |d.sent|
    && sender.sendChainKey == d.chains[|d.sent|]
    && forall i :: 0 <= i < |d.sent| ==> Honest(c, ek, d, i)
  }

  ghost predicate ReceiveSide(receiver: RatchetState, d: Direction) {
    && !receiver.selfMode
    && d.delivered <= |d.sent| < |d.chains|
    && receiver.recvNumber == d.delivered
    && receiver.recvChainKey == d.chains[d.delivered]
    && forall i :: i in receiver.skipped ==> i < d.delivered
  }

  /** In both directions: the sender's chain key is the recorded one, and the receiver's chain key is the one the
      sender had at that message number. */
  ghost predicate Linked(c: Suite, p: Parties, s: System) {
    && SendSide(c, s.alice, s.toBob, c.publicKey(p.bobKem)) && ReceiveSide(s.bob, s.toBob)
    && SendSide(c, s.bob, s.toAlice, c.publicKey(p.aliceKem)) && ReceiveSide(s.alice, s.toAlice)
  }

  lemma SendKeeps(c: Suite, sender: RatchetState, d: Direction, ek: Bytes, m: Outgoing)
    requires SendSide(c, sender, d, ek) && Sendable(c, sender, m)
    ensures var (st, e) := Send(c, sender, d, ek, m);
            && SendSide(c, st, e, ek)
            && st == sender.(sendChainKey := st.sendChainKey, sendNumber := st.sendNumber)
            && e.delivered == d.delivered && |e.sent| == |d.sent| + 1
            && e.sent[..|d.sent|] == d.sent && e.chains[..|d.chains|] == d.chains
  {
    hide FrameOf, NextChain, LooksLikeKem;
    var (st, e) := Send(c, sender, d, ek, m);
    forall i | 0 <= i < |e.sent|
      ensures Honest(c, ek, e, i)
    {
      if i < |d.sent| {
        assert Honest(c, ek, d, i);
      }
    }
  }

  lemma StoreKeys(table: SkippedKeys, at: u64, key: Bytes, bound: u64, pick: Pick)
    requires (forall i :: i in table ==> i < bound) && at < bound
    ensures forall i :: i in Store(table, at, key, pick) ==> i < bound
  {}

  lemma LinearReceive(c: Suite, st: RatchetState, d: Direction, dk: Bytes, pick: Pick)
    requires c.Lawful() && d.delivered < |d.sent| == |d.frames| && |d.chains| == |d.sent| + 1 && |d.frames| < U64_LIMIT
    requires Honest(c, c.publicKey(dk), d, d.delivered) && ReceiveSide(st, d)
    requires d.sent[d.delivered].random.None?
    ensures var (r, e) := Receive(c, st, d, dk, pick);
            && r.result == Ok(d.sent[d.delivered].plaintext)
            && ReceiveSide(r.st, e)
            && r.st.sendChainKey == st.sendChainKey && r.st.sendNumber == st.sendNumber
  {
    hide Store, KemDecrypt;
    var m, ck := d.sent[d.delivered], d.chains[d.delivered];
    var key := MessageKey(c, ck).0;
    var body := c.seal(key, m.nonce, m.plaintext);
    var raw := d.frames[d.delivered];
    assert raw[..NONCE_SIZE] == m.nonce && raw[NONCE_SIZE..] == body;
    assert c.open(key, m.nonce, body) == Some(m.plaintext);
    StoreKeys(st.skipped, d.delivered, key, d.delivered + 1, pick);
  }

  lemma KemBody(c: Suite, ck: Bytes, dk: Bytes, m: Outgoing)
    requires c.Lawful() && |m.nonce| == NONCE_SIZE && m.random.Some?
    ensures var (ct, ss) := c.encaps(c.publicKey(dk), m.random.value);
            var raw := FrameOf(c, ck, c.publicKey(dk), m);
            var body := raw[NONCE_SIZE..];
            && |raw| >= NONCE_SIZE + TAG_SIZE + 2 && raw[..NONCE_SIZE] == m.nonce
            && LooksLikeKem(body) && Tail(body) == |ct| == MLKEM1024_CT_SIZE
            && body[..|body| - 2 - |ct|] == c.seal(MessageKey(c, ck + ss).0, m.nonce, m.plaintext)
            && body[|body| - 2 - |ct|..|body| - 2] == ct
            && c.decaps(dk, ct) == ss
  {
    var (ct, ss) := c.encaps(c.publicKey(dk), m.random.value);
    var sealed := c.seal(MessageKey(c, ck + ss).0, m.nonce, m.plaintext);
    var body := FrameOf(c, ck, c.publicKey(dk), m)[NONCE_SIZE..];
    assert body == sealed + ct + U16(MLKEM1024_CT_SIZE);
  }

  lemma KemReceive(c: Suite, st: RatchetState, d: Direction, dk: Bytes, pick: Pick)
    requires c.Lawful() && d.delivered < |d.sent| == |d.frames| && |d.chains| == |d.sent| + 1 && |d.frames| < U64_LIMIT
    requires Honest(c, c.publicKey(dk), d, d.delivered) && ReceiveSide(st, d)
    requires d.sent[d.delivered].random.Some?
    ensures var (r, e) := Receive(c, st, d, dk, pick);
            && r.result == Ok(d.sent[d.delivered].plaintext)
            && ReceiveSide(r.st, e)
            && r.st.sendChainKey == st.sendChainKey && r.st.sendNumber == st.sendNumber
  {
    hide Store, SimpleDecrypt, FrameOf, LooksLikeKem, Tail;
    var m, ck := d.sent[d.delivered], d.chains[d.delivered];
    KemBody(c, ck, dk, m);
    var ss := c.encaps(c.publicKey(dk), m.random.value).1;
    var key := MessageKey(c, ck + ss).0;
    assert c.open(key, m.nonce, c.seal(key, m.nonce, m.plaintext)) == Some(m.plaintext);
    StoreKeys(st.skipped, d.delivered, key, d.delivered + 1, pick);
  }

  lemma ReceiveKeeps(c: Suite, st: RatchetState, d: Direction, dk: Bytes, pick: Pick)
    requires c.Lawful() && d.delivered < |d.sent| == |d.frames| && |d.chains| == |d.sent| + 1 && |d.frames| < U64_LIMIT
    requires Honest(c, c.publicKey(dk), d, d.delivered) && ReceiveSide(st, d)
    ensures var (r, e) := Receive(c, st, d, dk, pick);
            && r.result == Ok(d.sent[d.delivered].plaintext)
            && ReceiveSide(r.st, e)
            && r.st.sendChainKey == st.sendChainKey && r.st.sendNumber == st.sendNumber
  {
    hide Honest, ReceiveSide, Receive;
    if d.sent[d.delivered].random.None? {
      LinearReceive(c, st, d, dk, pick);
    } else {
      KemReceive(c, st, d, dk, pick);
    }
  }

  /** A delivery in one direction leaves the sending side of both directions as it was. */
  lemma SendSideKept(c: Suite, before: RatchetState, after: RatchetState, d: Direction, delivered: nat, ek: Bytes)
    requires SendSide(c, before, d, ek) && !after.selfMode
    requires after.sendChainKey == before.sendChainKey && after.sendNumber == before.sendNumber
    ensures SendSide(c, after, d.(delivered := delivered), ek)
  {
    hide NextChain, FrameOf, LooksLikeKem, MessageKey;
    forall i | 0 <= i < |d.sent|
      ensures Honest(c, ek, d.(delivered := delivered), i)
    {
      assert Honest(c, ek, d, i);
    }
  }

  lemma StepKeeps(c: Suite, p: Parties, s: System, e: Event)
    requires c.Lawful() && Linked(c, p, s) && Enabled(c, s, e)
    ensures Linked(c, p, Step(c, p, s, e)) && GivesBack(c, p, s, e)
  {
    hide Honest, Decrypt, Send;
    match e
    case AliceSends(m) =>
      SendKeeps(c, s.alice, s.toBob, c.publicKey(p.bobKem), m);
    case BobSends(m) =>
      SendKeeps(c, s.bob, s.toAlice, c.publicKey(p.aliceKem), m);
    case BobReceives(pick) =>
      ReceiveKeeps(c, s.bob, s.toBob, p.bobKem, pick);
      var after := Step(c, p, s, e);
      SendSideKept(c, s.alice, after.alice, s.toBob, after.toBob.delivered, c.publicKey(p.bobKem));
      SendSideKept(c, s.bob, after.bob, s.toAlice, s.toAlice.delivered, c.publicKey(p.aliceKem));
    case AliceReceives(pick) =>
      ReceiveKeeps(c, s.alice, s.toAlice, p.aliceKem, pick);
      var after := Step(c, p, s, e);
      SendSideKept(c, s.bob, after.bob, s.toAlice, after.toAlice.delivered, c.publicKey(p.aliceKem));
      SendSideKept(c, s.alice, after.alice, s.toBob, s.toBob.delivered, c.publicKey(p.bobKem));
  }

  // ----- Runs

  function Fresh(c: Suite, secret: Bytes): System
    requires |secret| >= 32
  {
    var alice, bob := NewSession(c, true, false, secret).value, NewSession(c, false, false, secret).value;
    System(alice, bob, Direction([], [alice.sendChainKey], [], 0), Direction([], [bob.sendChainKey], [], 0))
  }

  /** Every event of the run is enabled when it comes. */
  ghost predicate Runs(c: Suite, p: Parties, s: System, events: seq<Event>)
    decreases |events|
  {
    events == [] || (Enabled(c, s, events[0]) && Runs(c, p, Step(c, p, s, events[0]), events[1..]))
  }

  ghost function After(c: Suite, p: Parties, s: System, events: seq<Event>): System
    requires Runs(c, p, s, events)
    decreases |events|
  {
    if events == [] then s else After(c, p, Step(c, p, s, events[0]), events[1..])
  }

  ghost predicate EveryDeliveryGivesBack(c: Suite, p: Parties, s: System, events: seq<Event>)
    requires Runs(c, p, s, events)
    decreases |events|
  {
    events == [] ||
    (GivesBack(c, p, s, events[0]) && EveryDeliveryGivesBack(c, p, Step(c, p, s, events[0]), events[1..]))
  }

  lemma {:induction false} RunKeeps(c: Suite, p: Parties, s: System, events: seq<Event>)
    requires c.Lawful() && Linked(c, p, s) && Runs(c, p, s, events)
    ensures Linked(c, p, After(c, p, s, events)) && EveryDeliveryGivesBack(c, p, s, events)
    decreases |events|
  {
    hide Linked, GivesBack, Step, Enabled;
    if events != [] {
      StepKeeps(c, p, s, events[0]);
      RunKeeps(c, p, Step(c, p, s, events[0]), events[1..]);
    }
  }

  /** Two sessions built from one secret with opposite roles: under every interleaving of sends, with or without the
      per-message KEM, and of in-order deliveries in both directions, every delivery gives back the text that was
      sent, and each receive chain key is the peer's send chain key at that message number. */
  lemma TwoWayTraffic(c: Suite, p: Parties, secret: Bytes, events: seq<Event>)
    requires c.Lawful() && |secret| >= 32
    requires Runs(c, p, Fresh(c, secret), events)
    ensures EveryDeliveryGivesBack(c, p, Fresh(c, secret), events)
    ensures var s := After(c, p, Fresh(c, secret), events);
            && s.toBob.delivered < |s.toBob.chains| && s.toAlice.delivered < |s.toAlice.chains|
            && s.bob.recvNumber == s.toBob.delivered && s.bob.recvChainKey == s.toBob.chains[s.toBob.delivered]
            && s.alice.recvNumber == s.toAlice.delivered && s.alice.recvChainKey == s.toAlice.chains[s.toAlice.delivered]
            && (s.toBob.delivered == |s.toBob.sent| ==> s.bob.recvChainKey == s.alice.sendChainKey)
            && (s.toAlice.delivered == |s.toAlice.sent| ==> s.alice.recvChainKey == s.bob.sendChainKey)
  {
    hide Runs, After, EveryDeliveryGivesBack, Honest;
    RunKeeps(c, p, Fresh(c, secret), events);
  }
}
