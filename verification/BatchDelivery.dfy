/** Delivery of a batch of encrypt_first frames in any order, with repeats (crypto/src/lib.rs). */
module BatchDelivery {
  import opened Primitives
  import opened DoubleRatchet
  import opened Wrappers

  // ----- The sender's chain and frames

  /** The chain key after n linear steps. */
  function ChainAt(c: Suite, start: Bytes, n: nat): Bytes
    decreases n
  {
    if n == 0 then start else MessageKey(c, ChainAt(c, start, n - 1)).1
  }

  function KeyAt(c: Suite, start: Bytes, n: nat): Bytes { MessageKey(c, ChainAt(c, start, n)).0 }

  datatype Message = Message(plaintext: Bytes, nonce: Bytes)

  /** The state of a sender after encrypt_first on each of `msgs`, and the frames it produced. */
  function SendBatch(c: Suite, st: RatchetState, msgs: seq<Message>): (r: (RatchetState, seq<Bytes>))
    ensures |r.1| == |msgs|
    decreases |msgs|
  {
    if msgs == [] then (st, [])
    else
      var last := |msgs| - 1;
      var (before, frames) := SendBatch(c, st, msgs[..last]);
      (AfterSend(before, MessageKey(c, before.sendChainKey).1),
       frames + [LinearFrame(c, before.sendChainKey, msgs[last].nonce, msgs[last].plaintext)])
  }

  lemma {:induction false} BatchFrames(c: Suite, st: RatchetState, msgs: seq<Message>)
    ensures var (after, frames) := SendBatch(c, st, msgs);
            && after.sendChainKey == ChainAt(c, st.sendChainKey, |msgs|)
            && forall i :: 0 <= i < |msgs| ==>
                 frames[i] == LinearFrame(c, ChainAt(c, st.sendChainKey, i), msgs[i].nonce, msgs[i].plaintext)
    decreases |msgs|
  {
    if msgs != [] {
      var last := |msgs| - 1;
      BatchFrames(c, st, msgs[..last]);
    }
  }

  // ----- The receiver's invariant

  /** The receiver's chain is at step recvNumber of the chain from `start`, and every stored key is the true key
      of an index already passed. */
  ghost predicate Tracks(c: Suite, start: Bytes, st: RatchetState) {
    && !st.selfMode
    && st.recvChainKey == ChainAt(c, start, st.recvNumber)
    && forall i :: i in st.skipped ==> i < st.recvNumber && st.skipped[i] == KeyAt(c, start, i)
  }

  /** No key of an index already passed has been evicted. */
  ghost predicate Complete(st: RatchetState) {
    forall i: u64 :: i < st.recvNumber ==> i in st.skipped
  }

  lemma StoreKeeps(c: Suite, start: Bytes, st: RatchetState, at: u64, bound: u64, pick: Pick)
    requires forall i :: i in st.skipped ==> i < bound && st.skipped[i] == KeyAt(c, start, i)
    requires at < bound
    ensures var table := Store(st.skipped, at, KeyAt(c, start, at), pick);
            && (forall i :: i in table ==> i < bound && table[i] == KeyAt(c, start, i))
            && (bound <= MAX_SKIPPED_KEYS ==> table == st.skipped[at := KeyAt(c, start, at)])
  {
    var added := st.skipped[at := KeyAt(c, start, at)];
    if bound <= MAX_SKIPPED_KEYS {
      AtMost(added.Keys, bound);
    }
  }

  lemma {:induction false} AtMost(keys: set<u64>, n: nat)
    requires forall i :: i in keys ==> i < n
    ensures |keys| <= n
    decreases n
  {
    if n == 0 {
      assert keys == {};
    } else {
      var top := n - 1;
      if top < U64_LIMIT && top in keys {
        AtMost(keys - {top}, n - 1);
      } else {
        AtMost(keys, n - 1);
      }
    }
  }

  lemma {:induction false} SkipToTracks(c: Suite, start: Bytes, st: RatchetState, seqno: u64, pick: Pick)
    requires Tracks(c, start, st) && st.recvNumber <= seqno
    ensures var ready := SkipTo(c, st, seqno, pick);
            && Tracks(c, start, ready) && ready.recvNumber == seqno
            && (Complete(st) && seqno <= MAX_SKIPPED_KEYS ==> Complete(ready))
    decreases seqno - st.recvNumber
  {
    hide SkipTo, Store, ChainAt;
    SkipToUnfolds(c, st, seqno, pick);
    if st.recvNumber < seqno {
      var next := SkipStep(c, st, pick);
      ChainUnfolds(c, start, st.recvNumber);
      StoreKeeps(c, start, st, st.recvNumber, st.recvNumber + 1, pick);
      SkipToTracks(c, start, next, seqno, pick);
    }
  }

  lemma ChainUnfolds(c: Suite, start: Bytes, n: nat)
    ensures ChainAt(c, start, n + 1) == MessageKey(c, ChainAt(c, start, n)).1
    ensures KeyAt(c, start, n) == MessageKey(c, ChainAt(c, start, n)).0
  {}

  /** The body of the linear frame of index `seqno` on the chain from `start`. */
  function BodyOf(c: Suite, start: Bytes, m: Message, seqno: nat): Bytes {
    c.seal(KeyAt(c, start, seqno), m.nonce, m.plaintext)
  }

  function FrameAt(c: Suite, start: Bytes, m: Message, seqno: nat): Bytes {
    LinearFrame(c, ChainAt(c, start, seqno), m.nonce, m.plaintext)
  }

  lemma FrameParts(c: Suite, start: Bytes, m: Message, seqno: nat)
    requires |m.nonce| == NONCE_SIZE
    ensures var raw := FrameAt(c, start, m, seqno);
            |raw| >= NONCE_SIZE && raw[..NONCE_SIZE] == m.nonce && raw[NONCE_SIZE..] == BodyOf(c, start, m, seqno)
  {
    hide ChainAt;
    ChainUnfolds(c, start, seqno);
  }

  /** The linear path on the frame of index `seqno`, not yet passed and within the window. */
  lemma SimpleReturns(c: Suite, start: Bytes, st: RatchetState, m: Message, seqno: u64, pick: Pick)
    requires c.Lawful() && Tracks(c, start, st)
    requires st.recvNumber <= seqno <= st.recvNumber + MAX_SKIP_AHEAD
    ensures var r := SimpleDecrypt(c, st, m.nonce, BodyOf(c, start, m, seqno), seqno, pick);
            && r.result == Utf8Checked(c, m.plaintext)
            && (seqno + 1 < U64_LIMIT ==> Tracks(c, start, r.st) && r.st.recvNumber == seqno + 1)
            && (Complete(st) && seqno < MAX_SKIPPED_KEYS ==> Complete(r.st))
  {
    hide SkipTo, Store, ChainAt;
    var ready := SkipTo(c, st, seqno, pick);
    SkipToTracks(c, start, st, seqno, pick);
    ChainUnfolds(c, start, seqno);
    if seqno + 1 < U64_LIMIT {
      StoreKeeps(c, start, ready, seqno, seqno + 1, pick);
    }
    assert c.open(KeyAt(c, start, seqno), m.nonce, BodyOf(c, start, m, seqno)) == Some(m.plaintext);
  }

  /** A message as the sender's types guarantee it: a 12-byte nonce and valid text, of any length. */
  predicate Sendable(c: Suite, m: Message) { |m.nonce| == NONCE_SIZE && c.utf8(m.plaintext) }

  /** Long enough for decrypt_message as well. */
  predicate Readable(c: Suite, m: Message) { Sendable(c, m) && |m.plaintext| >= 2 }

  /** The key for `seqno` is stored; or the index is ahead by at most the window and the frame does not look like a
      KEM frame. */
  predicate Deliverable(st: RatchetState, seqno: u64, body: Bytes) {
    seqno in st.skipped || (st.recvNumber <= seqno <= st.recvNumber + MAX_SKIP_AHEAD && !LooksLikeKem(body))
  }

  function Max(a: nat, b: nat): nat { if a < b then b else a }

  /** A frame whose key is stored is given back, whatever its body looks like, and nothing changes. */
  lemma StoredKeyReturns(c: Suite, start: Bytes, st: RatchetState, m: Message, dk: Bytes, seqno: u64, pick: Pick)
    requires c.Lawful() && Tracks(c, start, st) && Readable(c, m) && seqno in st.skipped
    ensures Decrypt(c, st, FrameAt(c, start, m, seqno), dk, seqno, pick) == Received(st, Ok(m.plaintext), 0)
  {
    hide ChainAt, SimpleDecrypt, KemDecrypt, FrameAt, MessageKey;
    FrameParts(c, start, m, seqno);
    assert c.open(KeyAt(c, start, seqno), m.nonce, BodyOf(c, start, m, seqno)) == Some(m.plaintext);
  }

  /** One honest delivery under its true label. */
  lemma DeliveryReturns(c: Suite, start: Bytes, st: RatchetState, m: Message, dk: Bytes, seqno: u64, pick: Pick)
    requires c.Lawful() && Tracks(c, start, st) && Readable(c, m)
    requires Deliverable(st, seqno, BodyOf(c, start, m, seqno))
    ensures var r := Decrypt(c, st, FrameAt(c, start, m, seqno), dk, seqno, pick);
            && r.result == Ok(m.plaintext)
            && (seqno + 1 < U64_LIMIT ==> Tracks(c, start, r.st) && r.st.recvNumber == Max(st.recvNumber, seqno + 1))
            && (Complete(st) && seqno < MAX_SKIPPED_KEYS ==> Complete(r.st))
  {
    if seqno in st.skipped {
      hide Decrypt, FrameAt, BodyOf;
      StoredKeyReturns(c, start, st, m, dk, seqno, pick);
    } else {
      hide ChainAt, SimpleDecrypt, KemDecrypt, FrameAt, Tracks, Complete, LooksLikeKem, MessageKey;
      FrameParts(c, start, m, seqno);
      SimpleReturns(c, start, st, m, seqno, pick);
    }
  }

  /** The first frame of a session, handed to decrypt_first, is given back whatever its length and last bytes. */
  lemma FirstFrameReturns(c: Suite, start: Bytes, st: RatchetState, m: Message, pick: Pick)
    requires c.Lawful() && Tracks(c, start, st) && st.recvNumber == 0 && Sendable(c, m)
    ensures var r := DecryptFirst(c, st, FrameAt(c, start, m, 0), pick);
            r.result == Ok(m.plaintext) && Tracks(c, start, r.st) && r.st.recvNumber == 1
  {
    hide SimpleDecrypt, FrameAt;
    FrameParts(c, start, m, 0);
    SimpleReturns(c, start, st, m, 0, pick);
  }

  // ----- Runs of deliveries

  /** One delivery: which frame arrives, and what eviction would pick during it. */
  datatype Arrival = Arrival(seqno: u64, pick: Pick)

  ghost predicate Labelled(frames: seq<Bytes>, order: seq<Arrival>) {
    forall k :: 0 <= k < |order| ==> order[k].seqno < |frames| && order[k].seqno + 1 < U64_LIMIT
  }

  /** The receiver's state after the first k deliveries. */
  function ReceiverAt(c: Suite, st: RatchetState, frames: seq<Bytes>, dk: Bytes, order: seq<Arrival>, k: nat): RatchetState
    requires k <= |order|
    requires forall j :: 0 <= j < |order| ==> order[j].seqno < |frames|
    decreases k, 0
  {
    if k == 0 then st else Delivery(c, st, frames, dk, order, k - 1).st
  }

  /** What delivery k gives back. */
  function Delivery(c: Suite, st: RatchetState, frames: seq<Bytes>, dk: Bytes, order: seq<Arrival>, k: nat): Received
    requires k < |order|
    requires forall j :: 0 <= j < |order| ==> order[j].seqno < |frames|
    decreases k, 1
  {
    Decrypt(c, ReceiverAt(c, st, frames, dk, order, k), frames[order[k].seqno], dk, order[k].seqno, order[k].pick)
  }

  lemma ReceiverUnfolds(c: Suite, st: RatchetState, frames: seq<Bytes>, dk: Bytes, order: seq<Arrival>, k: nat)
    requires k < |order|
    requires forall j :: 0 <= j < |order| ==> order[j].seqno < |frames|
    ensures ReceiverAt(c, st, frames, dk, order, k + 1) == Delivery(c, st, frames, dk, order, k).st
    ensures Delivery(c, st, frames, dk, order, k)
            == Decrypt(c, ReceiverAt(c, st, frames, dk, order, k), frames[order[k].seqno], dk, order[k].seqno, order[k].pick)
  {
    hide Decrypt;
  }

  lemma ReceiverStarts(c: Suite, st: RatchetState, frames: seq<Bytes>, dk: Bytes, order: seq<Arrival>)
    requires forall j :: 0 <= j < |order| ==> order[j].seqno < |frames|
    ensures ReceiverAt(c, st, frames, dk, order, 0) == st
  {}

  /** One more than the greatest index among the first k deliveries. */
  function Reached(order: seq<Arrival>, k: nat): nat
    requires k <= |order|
  {
    if k == 0 then 0 else Max(Reached(order, k - 1), order[k - 1].seqno + 1)
  }

  lemma FreshPair(c: Suite, isInitiator: bool, secret: Bytes)
    requires |secret| >= 32
    ensures var sender := NewSession(c, isInitiator, false, secret).value;
            var receiver := NewSession(c, !isInitiator, false, secret).value;
            && receiver.recvChainKey == sender.sendChainKey && receiver.sendChainKey == sender.recvChainKey
            && Tracks(c, sender.sendChainKey, receiver) && Complete(receiver) && receiver.recvNumber == 0
  {}

  /** `frames` are encrypt_first frames of readable messages on the chain from `start`. */
  ghost predicate Batch(c: Suite, start: Bytes, msgs: seq<Message>, frames: seq<Bytes>) {
    && |frames| == |msgs|
    && forall i :: 0 <= i < |msgs| ==> Readable(c, msgs[i]) && frames[i] == FrameAt(c, start, msgs[i], i)
  }

  /** Arrival k of a run is deliverable when it comes. */
  predicate DeliverableAt(c: Suite, start: Bytes, st: RatchetState, msgs: seq<Message>, frames: seq<Bytes>, dk: Bytes,
                          order: seq<Arrival>, k: nat)
    requires k < |order| && |frames| == |msgs|
    requires forall j :: 0 <= j < |order| ==> order[j].seqno < |frames|
  {
    var n := order[k].seqno;
    Deliverable(ReceiverAt(c, st, frames, dk, order, k), n, BodyOf(c, start, msgs[n], n))
  }

  /** Delivery k of a run, when it is deliverable. */
  lemma RunStep(c: Suite, start: Bytes, st: RatchetState, msgs: seq<Message>, frames: seq<Bytes>, dk: Bytes,
                order: seq<Arrival>, k: nat)
    requires c.Lawful() && Batch(c, start, msgs, frames) && Labelled(frames, order) && k < |order|
    requires Tracks(c, start, ReceiverAt(c, st, frames, dk, order, k))
    requires DeliverableAt(c, start, st, msgs, frames, dk, order, k)
    ensures Delivery(c, st, frames, dk, order, k).result == Ok(msgs[order[k].seqno].plaintext)
    ensures var at, next := ReceiverAt(c, st, frames, dk, order, k), ReceiverAt(c, st, frames, dk, order, k + 1);
            && Tracks(c, start, next) && next.recvNumber == Max(at.recvNumber, order[k].seqno + 1)
            && (Complete(at) && order[k].seqno < MAX_SKIPPED_KEYS ==> Complete(next))
  {
    ReceiverUnfolds(c, st, frames, dk, order, k);
    hide Tracks, Decrypt, ChainAt, BodyOf, FrameAt, Readable, Deliverable, Complete, ReceiverAt, Delivery;
    var a := order[k];
    DeliveryReturns(c, start, ReceiverAt(c, st, frames, dk, order, k), msgs[a.seqno], dk, a.seqno, a.pick);
  }

  lemma {:induction false} TrackedRun(c: Suite, start: Bytes, st: RatchetState, msgs: seq<Message>,
                                      frames: seq<Bytes>, dk: Bytes, order: seq<Arrival>, k: nat)
    requires c.Lawful() && Tracks(c, start, st) && st.recvNumber == 0
    requires Batch(c, start, msgs, frames) && Labelled(frames, order) && k <= |order|
    requires forall j :: 0 <= j < k ==> DeliverableAt(c, start, st, msgs, frames, dk, order, j)
    ensures var at := ReceiverAt(c, st, frames, dk, order, k);
            Tracks(c, start, at) && at.recvNumber == Reached(order, k)
    decreases k
  {
    hide Tracks, Decrypt, Readable, FrameAt, DeliverableAt, Delivery;
    if k > 0 {
      TrackedRun(c, start, st, msgs, frames, dk, order, k - 1);
      hide ReceiverAt;
      RunStep(c, start, st, msgs, frames, dk, order, k - 1);
    }
  }

  /** Any delivery run of honest frames whose every arrival is deliverable when it comes gives back every
      plaintext, and leaves the chain at the step after the greatest index delivered. */
  lemma DeliverableRun(c: Suite, start: Bytes, st: RatchetState, msgs: seq<Message>,
                       frames: seq<Bytes>, dk: Bytes, order: seq<Arrival>, k: nat)
    requires c.Lawful() && Tracks(c, start, st) && st.recvNumber == 0
    requires Batch(c, start, msgs, frames) && Labelled(frames, order) && k <= |order|
    requires forall j :: 0 <= j < k ==> DeliverableAt(c, start, st, msgs, frames, dk, order, j)
    ensures var at := ReceiverAt(c, st, frames, dk, order, k);
            Tracks(c, start, at) && at.recvNumber == Reached(order, k)
    ensures forall j :: 0 <= j < k ==> Delivery(c, st, frames, dk, order, j).result == Ok(msgs[order[j].seqno].plaintext)
  {
    hide Tracks, Decrypt, Readable, FrameAt, DeliverableAt, Delivery, ReceiverAt, Reached;
    TrackedRun(c, start, st, msgs, frames, dk, order, k);
    forall j | 0 <= j < k
      ensures Delivery(c, st, frames, dk, order, j).result == Ok(msgs[order[j].seqno].plaintext)
    {
      TrackedRun(c, start, st, msgs, frames, dk, order, j);
      RunStep(c, start, st, msgs, frames, dk, order, j);
    }
  }

  /** The frames that move the chain, the ones not overtaken by a later index, do not look like KEM frames. */
  ghost predicate LeadersCarried(c: Suite, start: Bytes, msgs: seq<Message>, order: seq<Arrival>)
    requires forall j :: 0 <= j < |order| ==> order[j].seqno < |msgs|
  {
    forall j :: 0 <= j < |order| && order[j].seqno >= Reached(order, j) ==>
      !LooksLikeKem(BodyOf(c, start, msgs[order[j].seqno], order[j].seqno))
  }

  lemma {:induction false} CompleteRun(c: Suite, start: Bytes, st: RatchetState, msgs: seq<Message>,
                                       frames: seq<Bytes>, dk: Bytes, order: seq<Arrival>, k: nat)
    requires c.Lawful() && Tracks(c, start, st) && Complete(st) && st.recvNumber == 0
    requires Batch(c, start, msgs, frames) && Labelled(frames, order) && k <= |order|
    requires forall j :: 0 <= j < |order| ==> order[j].seqno < MAX_SKIPPED_KEYS
    requires LeadersCarried(c, start, msgs, order)
    ensures var at := ReceiverAt(c, st, frames, dk, order, k);
            Complete(at) && Tracks(c, start, at) && at.recvNumber == Reached(order, k)
    ensures k < |order| ==> DeliverableAt(c, start, st, msgs, frames, dk, order, k)
    decreases k
  {
    hide Tracks, Readable, FrameAt, Delivery, LeadersCarried, DeliverableAt, Complete, ReceiverAt;
    if k > 0 {
      CompleteRun(c, start, st, msgs, frames, dk, order, k - 1);
      RunStep(c, start, st, msgs, frames, dk, order, k - 1);
    } else {
      ReceiverStarts(c, st, frames, dk, order);
    }
    CompleteDelivers(c, start, st, msgs, frames, dk, order, k);
  }

  lemma CompleteDelivers(c: Suite, start: Bytes, st: RatchetState, msgs: seq<Message>,
                         frames: seq<Bytes>, dk: Bytes, order: seq<Arrival>, k: nat)
    requires Labelled(frames, order) && |frames| == |msgs| && k <= |order|
    requires forall j :: 0 <= j < |order| ==> order[j].seqno < MAX_SKIPPED_KEYS
    requires LeadersCarried(c, start, msgs, order)
    requires Complete(ReceiverAt(c, st, frames, dk, order, k))
    requires ReceiverAt(c, st, frames, dk, order, k).recvNumber == Reached(order, k)
    ensures k < |order| ==> DeliverableAt(c, start, st, msgs, frames, dk, order, k)
  {
    hide ReceiverAt, BodyOf, LooksLikeKem, Reached;
  }

  /** Two fresh sessions with opposite roles and one secret: a batch of encrypt_first frames, of which only indices
      below 1024 are delivered, is given back in full, in any order and with any repeats, whatever eviction
      would pick; after each delivery the receive chain is at the step after the greatest index so far. */
  lemma BatchInAnyOrder(c: Suite, isInitiator: bool, secret: Bytes, msgs: seq<Message>, dk: Bytes,
                        order: seq<Arrival>, k: nat)
    requires c.Lawful() && |secret| >= 32
    requires forall i :: 0 <= i < |msgs| ==> Readable(c, msgs[i])
    requires forall j :: 0 <= j < |order| ==> order[j].seqno < |msgs| && order[j].seqno < 1024
    requires LeadersCarried(c, NewSession(c, isInitiator, false, secret).value.sendChainKey, msgs, order)
    requires k <= |order|
    ensures var sender := NewSession(c, isInitiator, false, secret).value;
            var receiver := NewSession(c, !isInitiator, false, secret).value;
            var frames := SendBatch(c, sender, msgs).1;
            var at := ReceiverAt(c, receiver, frames, dk, order, k);
            && at.recvNumber == Reached(order, k)
            && at.recvChainKey == ChainAt(c, sender.sendChainKey, Reached(order, k))
            && forall j :: 0 <= j < k ==> Delivery(c, receiver, frames, dk, order, j).result == Ok(msgs[order[j].seqno].plaintext)
  {
    hide Decrypt, ChainAt, LinearFrame, Readable, SendBatch, ReceiverAt, Delivery, LeadersCarried, DeliverableAt;
    var sender := NewSession(c, isInitiator, false, secret).value;
    var receiver := NewSession(c, !isInitiator, false, secret).value;
    FreshPair(c, isInitiator, secret);
    BatchFrames(c, sender, msgs);
    hide NewSession;
    var frames := SendBatch(c, sender, msgs).1;
    forall j | 0 <= j < k
      ensures DeliverableAt(c, sender.sendChainKey, receiver, msgs, frames, dk, order, j)
    {
      CompleteRun(c, sender.sendChainKey, receiver, msgs, frames, dk, order, j);
    }
    DeliverableRun(c, sender.sendChainKey, receiver, msgs, frames, dk, order, k);
  }
}
