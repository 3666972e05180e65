/** The keys of a pair of Double Ratchet sessions are all different, and what a self session opens (crypto/src/lib.rs).
    Message keys and chains are written out here as derivations, not through the session's own functions. */
module KeySeparation {
  import opened Primitives
  import opened DoubleRatchet
  import opened Wrappers
  import opened TwoWay
  import opened KeyChains
  import BatchDelivery
  import DeliveryOutcomes

  const ROOT: string := "add-double-ratchet-v1-root"
  const CHAINS: string := "add-double-ratchet-v1-chains"
  const STEP: string := "add-double-ratchet-v1-step"

  lemma LabelsDiffer()
    ensures ROOT != STEP && CHAINS != STEP
  {
    assert ROOT[22] != STEP[22] && CHAINS[22] != STEP[22];
  }

  // ----- A pair of sessions

  /** One direction of a system; the other party's KEM key. */
  function Way(s: System, fromAlice: bool): Direction { if fromAlice then s.toBob else s.toAlice }

  function KemKey(c: Suite, p: Parties, fromAlice: bool): Bytes {
    c.publicKey(if fromAlice then p.bobKem else p.aliceKem)
  }

  /** What the step for message i takes in: the chain key, and the KEM secret when there is one. */
  function StepInput(c: Suite, ek: Bytes, d: Direction, i: nat): Bytes
    requires i < |d.sent| < |d.chains|
  {
    d.chains[i] + if d.sent[i].random.Some? then c.encaps(ek, d.sent[i].random.value).1 else []
  }

  /** Key i of a direction. */
  function FrameKey(c: Suite, ek: Bytes, d: Direction, i: nat): Bytes
    requires i < |d.sent| < |d.chains|
  {
    c.hkdf(StepInput(c, ek, d, i), STEP).0
  }

  function StepsOf(c: Suite, ek: Bytes, d: Direction): set<(Bytes, string)>
    requires |d.sent| < |d.chains|
  {
    set i | 0 <= i < |d.sent| :: (StepInput(c, ek, d, i), STEP)
  }

  /** All derivations made from the secret and in both directions. */
  function UsedBy(c: Suite, p: Parties, secret: Bytes, s: System): set<(Bytes, string)>
    requires |s.toBob.sent| < |s.toBob.chains| && |s.toAlice.sent| < |s.toAlice.chains|
  {
    {(secret, ROOT), (secret, CHAINS)}
      + StepsOf(c, KemKey(c, p, true), s.toBob) + StepsOf(c, KemKey(c, p, false), s.toAlice)
  }

  /** Frame i of a direction is its nonce and the text sealed under `key`, and then the KEM part if there is one. */
  ghost predicate SealedUnder(c: Suite, d: Direction, i: nat, key: Bytes)
    requires i < |d.sent| == |d.frames|
  {
    d.sent[i].nonce + c.seal(key, d.sent[i].nonce, d.sent[i].plaintext) <= d.frames[i]
  }

  /** The recorded chain of a direction, from the half of the derived chain keys it began with. */
  ghost predicate Recorded(c: Suite, p: Parties, secret: Bytes, s: System, fromAlice: bool) {
    var d, ek := Way(s, fromAlice), KemKey(c, p, fromAlice);
    var (first, second) := c.hkdf(secret, CHAINS);
    && |d.sent| == |d.frames| && |d.chains| == |d.sent| + 1
    && d.chains[0] == (if fromAlice then first else second)
    && forall i :: 0 <= i < |d.sent| ==>
         && d.chains[i + 1] == c.hkdf(StepInput(c, ek, d, i), STEP).1
         && SealedUnder(c, d, i, FrameKey(c, ek, d, i))
  }

  lemma {:induction false} FirstChains(c: Suite, p: Parties, s: System, events: seq<Event>)
    requires c.Lawful() && Linked(c, p, s) && Runs(c, p, s, events)
    ensures var after := After(c, p, s, events);
            && |after.toBob.chains| > 0 && after.toBob.chains[0] == s.toBob.chains[0]
            && |after.toAlice.chains| > 0 && after.toAlice.chains[0] == s.toAlice.chains[0]
    decreases |events|
  {
    if events != [] {
      StepKeeps(c, p, s, events[0]);
      FirstChainsStep(c, p, s, events[0]);
      hide Linked, Step, Enabled;
      FirstChains(c, p, Step(c, p, s, events[0]), events[1..]);
    }
  }

  lemma FirstChainsStep(c: Suite, p: Parties, s: System, e: Event)
    requires Linked(c, p, s) && Enabled(c, s, e)
    ensures var after := Step(c, p, s, e);
            && |after.toBob.chains| > 0 && after.toBob.chains[0] == s.toBob.chains[0]
            && |after.toAlice.chains| > 0 && after.toAlice.chains[0] == s.toAlice.chains[0]
  {
    hide Decrypt, Honest, FrameOf, NextChain;
  }

  lemma HonestSealed(c: Suite, ek: Bytes, d: Direction, i: nat)
    requires i < |d.sent| == |d.frames| && |d.chains| == |d.sent| + 1 && Honest(c, ek, d, i)
    ensures d.chains[i + 1] == c.hkdf(StepInput(c, ek, d, i), STEP).1
    ensures SealedUnder(c, d, i, FrameKey(c, ek, d, i))
  {
    assert d.chains[i] + [] == d.chains[i];
  }

  /** In every run of a fresh pair, both directions are recorded chains, from different halves. */
  lemma RunRecorded(c: Suite, p: Parties, secret: Bytes, events: seq<Event>, fromAlice: bool)
    requires c.Lawful() && |secret| >= 32 && Runs(c, p, Fresh(c, secret), events)
    ensures Recorded(c, p, secret, After(c, p, Fresh(c, secret), events), fromAlice)
  {
    var pair := Fresh(c, secret);
    assert Linked(c, p, pair);
    RunKeeps(c, p, pair, events);
    FirstChains(c, p, pair, events);
    var s := After(c, p, pair, events);
    var d, ek := Way(s, fromAlice), KemKey(c, p, fromAlice);
    hide After, Runs, Honest, FrameKey, StepInput, SealedUnder;
    forall i | 0 <= i < |d.sent|
      ensures d.chains[i + 1] == c.hkdf(StepInput(c, ek, d, i), STEP).1
      ensures SealedUnder(c, d, i, FrameKey(c, ek, d, i))
    {
      HonestSealed(c, ek, d, i);
    }
  }

  function ChainOf(c: Suite, ek: Bytes, d: Direction): Chain
    requires |d.sent| < |d.chains|
  {
    Chain(d.chains, seq(|d.sent|, i requires 0 <= i < |d.sent| => StepInput(c, ek, d, i)))
  }

  lemma ChainFollows(c: Suite, ek: Bytes, d: Direction, used: set<(Bytes, string)>)
    requires c.HalvesSized() && |d.chains| == |d.sent| + 1 && |d.chains[0]| == 32 && StepsOf(c, ek, d) <= used
    requires forall i :: 0 <= i < |d.sent| ==> d.chains[i + 1] == c.hkdf(StepInput(c, ek, d, i), STEP).1
    ensures Follows(c, STEP, used, ChainOf(c, ek, d))
  {
    forall k | 0 <= k < |d.sent|
      ensures (StepInput(c, ek, d, k), STEP) in used
      ensures |d.chains[k]| == 32 && d.chains[k] <= StepInput(c, ek, d, k)
    {
      assert (StepInput(c, ek, d, k), STEP) in StepsOf(c, ek, d);
      if k > 0 {
        assert d.chains[k - 1 + 1] == c.hkdf(StepInput(c, ek, d, k - 1), STEP).1;
      }
    }
  }

  lemma RecordedFollows(c: Suite, p: Parties, secret: Bytes, s: System, fromAlice: bool)
    requires c.HalvesSized() && Recorded(c, p, secret, s, true) && Recorded(c, p, secret, s, false)
    requires c.Apart(UsedBy(c, p, secret, s))
    ensures var d, ek, used := Way(s, fromAlice), KemKey(c, p, fromAlice), UsedBy(c, p, secret, s);
            && Follows(c, STEP, used, ChainOf(c, ek, d))
            && NotDerived(c, STEP, used, d.chains[0])
  {
    hide FrameKey, SealedUnder, StepInput, NotDerived, Follows, Suite.Apart, StepsOf;
    StartNotDerived(c, secret, UsedBy(c, p, secret, s), fromAlice);
    ChainFollows(c, KemKey(c, p, fromAlice), Way(s, fromAlice), UsedBy(c, p, secret, s));
  }

  lemma StartNotDerived(c: Suite, secret: Bytes, used: set<(Bytes, string)>, first: bool)
    requires c.Apart(used) && (secret, CHAINS) in used
    ensures var halves := c.hkdf(secret, CHAINS);
            NotDerived(c, STEP, used, if first then halves.0 else halves.1)
  {
    LabelsDiffer();
    var start := (secret, CHAINS);
    forall a | a in used && a.1 == STEP
      ensures c.hkdf(a.0, a.1).1 != (if first then c.hkdf(start.0, start.1).0 else c.hkdf(start.0, start.1).1)
    {
      StepsMeet(c, used, a, start);
      StepsMeet(c, used, start, a);
    }
  }

  /** In every run of a fresh pair, whatever is sent in either direction and with either kind of frame: each frame is
      sealed under its FrameKey, and no two frames, of one direction or of both, have one key; nor is any of them the
      root key. */
  lemma KeysApart(c: Suite, p: Parties, secret: Bytes, events: seq<Event>,
                  fromAlice: bool, i: nat, otherFromAlice: bool, j: nat)
    requires c.Lawful() && c.HalvesSized() && |secret| >= 32 && Runs(c, p, Fresh(c, secret), events)
    requires var s := After(c, p, Fresh(c, secret), events);
             && |s.toBob.sent| < |s.toBob.chains| && |s.toAlice.sent| < |s.toAlice.chains|
             && c.Apart(UsedBy(c, p, secret, s))
             && i < |Way(s, fromAlice).sent| && j < |Way(s, otherFromAlice).sent|
    ensures var s := After(c, p, Fresh(c, secret), events);
            var key := FrameKey(c, KemKey(c, p, fromAlice), Way(s, fromAlice), i);
            && |Way(s, fromAlice).sent| == |Way(s, fromAlice).frames| && SealedUnder(c, Way(s, fromAlice), i, key)
            && (key == FrameKey(c, KemKey(c, p, otherFromAlice), Way(s, otherFromAlice), j) <==>
                fromAlice == otherFromAlice && i == j)
            && key != NewSession(c, true, false, secret).value.rootKey
  {
    var s := After(c, p, Fresh(c, secret), events);
    var used := UsedBy(c, p, secret, s);
    RunRecorded(c, p, secret, events, true);
    RunRecorded(c, p, secret, events, false);
    RecordedFollows(c, p, secret, s, fromAlice);
    RecordedFollows(c, p, secret, s, otherFromAlice);
    hide After, Runs, Follows, NotDerived, SealedUnder, Fresh;
    RootApart(c, p, secret, s, fromAlice, i);
    FrameKeysMeet(c, p, secret, s, fromAlice, i, otherFromAlice, j);
  }

  lemma RootApart(c: Suite, p: Parties, secret: Bytes, s: System, fromAlice: bool, i: nat)
    requires |s.toBob.sent| < |s.toBob.chains| && |s.toAlice.sent| < |s.toAlice.chains| && |secret| >= 32
    requires c.Apart(UsedBy(c, p, secret, s)) && i < |Way(s, fromAlice).sent|
    ensures FrameKey(c, KemKey(c, p, fromAlice), Way(s, fromAlice), i) != NewSession(c, true, false, secret).value.rootKey
  {
    var root := (secret, ROOT);
    var step := (StepInput(c, KemKey(c, p, fromAlice), Way(s, fromAlice), i), STEP);
    assert step in StepsOf(c, KemKey(c, p, fromAlice), Way(s, fromAlice));
    StepsMeet(c, UsedBy(c, p, secret, s), root, step);
    LabelsDiffer();
  }

  lemma FrameKeysMeet(c: Suite, p: Parties, secret: Bytes, s: System, x: bool, i: nat, y: bool, j: nat)
    requires Recorded(c, p, secret, s, true) && Recorded(c, p, secret, s, false)
    requires c.Apart(UsedBy(c, p, secret, s)) && i < |Way(s, x).sent| && j < |Way(s, y).sent|
    requires Follows(c, STEP, UsedBy(c, p, secret, s), ChainOf(c, KemKey(c, p, x), Way(s, x)))
    requires Follows(c, STEP, UsedBy(c, p, secret, s), ChainOf(c, KemKey(c, p, y), Way(s, y)))
    requires NotDerived(c, STEP, UsedBy(c, p, secret, s), Way(s, x).chains[0])
    requires NotDerived(c, STEP, UsedBy(c, p, secret, s), Way(s, y).chains[0])
    ensures FrameKey(c, KemKey(c, p, x), Way(s, x), i) == FrameKey(c, KemKey(c, p, y), Way(s, y), j) ==> x == y && i == j
  {
    hide Follows, NotDerived, StepInput, SealedUnder;
    var used := UsedBy(c, p, secret, s);
    var a, b := ChainOf(c, KemKey(c, p, x), Way(s, x)), ChainOf(c, KemKey(c, p, y), Way(s, y));
    if FrameKey(c, KemKey(c, p, x), Way(s, x), i) == FrameKey(c, KemKey(c, p, y), Way(s, y), j) {
      KeysMeet(c, STEP, used, a, b, i, j);
      var start := (secret, CHAINS);
      StepsMeet(c, used, start, start);
    }
  }

  // ----- The hypotheses can be met

  /** 32 equal bytes. */
  function Fill(n: nat): (r: Bytes)
    ensures |r| == 32
  {
    seq(32, _ => n % 256)
  }

  /** Which fills the halves of a derivation are. */
  function Halves(ikm: Bytes, info: string): (nat, nat) {
    if info == CHAINS then (1, 2) else if info == ROOT then (7, 8) else if ikm == Fill(1) then (3, 5) else (4, 6)
  }

  /** A lawful suite whose HKDF halves are sized and whose first derivations do not collide. */
  function FillSuite(): Suite {
    DeliveryOutcomes.KeyedSuite([0, 0]).(hkdf := (ikm: Bytes, info: string) =>
      (Fill(Halves(ikm, info).0), Fill(Halves(ikm, info).1)))
  }

  lemma FillsDiffer(m: nat, n: nat)
    requires m < 256 && n < 256 && Fill(m) == Fill(n)
    ensures m == n
  {
    assert Fill(m)[0] == m && Fill(n)[0] == n;
  }

  lemma HalvesApart(secret: Bytes, a: (Bytes, string), b: (Bytes, string))
    requires {a, b} <= {(secret, ROOT), (secret, CHAINS), (Fill(1), STEP), (Fill(2), STEP)}
    ensures Halves(a.0, a.1).0 == Halves(b.0, b.1).0 || Halves(a.0, a.1).1 == Halves(b.0, b.1).1 ==> a == b
    ensures Halves(a.0, a.1).0 != Halves(b.0, b.1).1
    ensures Halves(a.0, a.1).0 < 256 && Halves(a.0, a.1).1 < 256
  {
    assert a in {a, b} && b in {a, b};
    LabelsDiffer();
    if Fill(1) == Fill(2) {
      FillsDiffer(1, 2);
    }
  }

  lemma FillApart(secret: Bytes)
    ensures FillSuite().Apart({(secret, ROOT), (secret, CHAINS), (Fill(1), STEP), (Fill(2), STEP)})
  {
    var c, used := FillSuite(), {(secret, ROOT), (secret, CHAINS), (Fill(1), STEP), (Fill(2), STEP)};
    forall a, b | a in used && b in used
      ensures c.hkdf(a.0, a.1).0 == c.hkdf(b.0, b.1).0 ==> a == b
      ensures c.hkdf(a.0, a.1).1 == c.hkdf(b.0, b.1).1 ==> a == b
      ensures c.hkdf(a.0, a.1).0 != c.hkdf(b.0, b.1).1
    {
      HalvesApart(secret, a, b);
      HalvesApart(secret, b, a);
      FillPairApart(Halves(a.0, a.1), Halves(b.0, b.1));
    }
  }

  lemma FillPairApart(m: (nat, nat), n: (nat, nat))
    requires m.0 < 256 && m.1 < 256 && n.0 < 256 && n.1 < 256
    ensures Fill(m.0) == Fill(n.0) ==> m.0 == n.0
    ensures Fill(m.1) == Fill(n.1) ==> m.1 == n.1
    ensures Fill(m.0) == Fill(n.1) ==> m.0 == n.1
  {
    assert Fill(m.0)[0] == m.0 && Fill(m.1)[0] == m.1 && Fill(n.0)[0] == n.0 && Fill(n.1)[0] == n.1;
  }

  /** A linear message each way. */
  lemma OneEachWay(c: Suite, p: Parties, secret: Bytes, m: Outgoing)
    requires |secret| >= 32 && |m.nonce| == NONCE_SIZE && c.utf8(m.plaintext) && |m.plaintext| >= 2 && m.random.None?
    requires forall key :: !LooksLikeKem(c.seal(key, m.nonce, m.plaintext))
    ensures var events := [AliceSends(m), BobSends(m)];
            && Runs(c, p, Fresh(c, secret), events)
            && var s := After(c, p, Fresh(c, secret), events);
               && s.toBob.sent == [m] == s.toAlice.sent && |s.toBob.chains| == 2 == |s.toAlice.chains|
               && (s.toBob.chains[0], s.toAlice.chains[0]) == c.hkdf(secret, CHAINS)
  {
    hide FrameOf, NextChain, LooksLikeKem;
    var pair, events := Fresh(c, secret), [AliceSends(m), BobSends(m)];
    var one := Step(c, p, pair, AliceSends(m));
    assert Enabled(c, pair, events[0]) && Enabled(c, one, events[1]);
    var two := Step(c, p, one, BobSends(m));
    assert events[1..] == [BobSends(m)] && events[1..][1..] == [];
    assert Runs(c, p, two, []) && Runs(c, p, one, [BobSends(m)]) && Runs(c, p, pair, events);
    assert After(c, p, two, []) == two && After(c, p, one, [BobSends(m)]) == two;
  }

  /** One message each way, under which all hypotheses of KeysApart hold. */
  lemma KeysApartMet(secret: Bytes, p: Parties)
    requires |secret| >= 32
    ensures var c := FillSuite();
            var m := Outgoing([104, 105], DeliveryOutcomes.Zeros(NONCE_SIZE), None);
            var events := [AliceSends(m), BobSends(m)];
            && c.Lawful() && c.HalvesSized() && Runs(c, p, Fresh(c, secret), events)
            && var s := After(c, p, Fresh(c, secret), events);
               && |s.toBob.sent| == 1 < |s.toBob.chains| && |s.toAlice.sent| == 1 < |s.toAlice.chains|
               && c.Apart(UsedBy(c, p, secret, s))
  {
    var c := FillSuite();
    var m := Outgoing([104, 105], DeliveryOutcomes.Zeros(NONCE_SIZE), None);
    FillLawful(m.plaintext, m.nonce);
    hide Suite.Apart, Suite.Lawful, Suite.HalvesSized, Runs, After, Fresh;
    OneEachWay(c, p, secret, m);
    FillApart(secret);
    var s := After(c, p, Fresh(c, secret), [AliceSends(m), BobSends(m)]);
    UsedOnce(c, p, secret, s, m);
    assert c.hkdf(secret, CHAINS) == (Fill(1), Fill(2));
  }

  lemma FillLawful(text: Bytes, nonce: Bytes)
    requires |text| == 2
    ensures FillSuite().Lawful() && FillSuite().HalvesSized() && FillSuite().utf8(text)
    ensures forall key :: !LooksLikeKem(FillSuite().seal(key, nonce, text))
  {
    DeliveryOutcomes.KeyedLawful([0, 0]);
  }

  lemma UsedOnce(c: Suite, p: Parties, secret: Bytes, s: System, m: Outgoing)
    requires s.toBob.sent == [m] == s.toAlice.sent && |s.toBob.chains| == 2 == |s.toAlice.chains| && m.random.None?
    ensures UsedBy(c, p, secret, s)
            == {(secret, ROOT), (secret, CHAINS), (s.toBob.chains[0], STEP), (s.toAlice.chains[0], STEP)}
  {
    assert StepInput(c, KemKey(c, p, true), s.toBob, 0) == s.toBob.chains[0];
    assert StepInput(c, KemKey(c, p, false), s.toAlice, 0) == s.toAlice.chains[0];
    assert StepsOf(c, KemKey(c, p, true), s.toBob) == {(s.toBob.chains[0], STEP)};
    assert StepsOf(c, KemKey(c, p, false), s.toAlice) == {(s.toAlice.chains[0], STEP)};
  }

  // ----- Self sessions

  /** The chain key after k linear steps, written out. */
  function StepChain(c: Suite, start: Bytes, k: nat): Bytes
    decreases k
  {
    if k == 0 then start else c.hkdf(StepChain(c, start, k - 1), STEP).1
  }

  function StepKey(c: Suite, start: Bytes, k: nat): Bytes { c.hkdf(StepChain(c, start, k), STEP).0 }

  function SelfUsed(c: Suite, secret: Bytes, most: nat): set<(Bytes, string)> {
    {(secret, CHAINS)} + set k: nat | k <= most :: (StepChain(c, c.hkdf(secret, CHAINS).0, k), STEP)
  }

  lemma {:induction false} StepChainIs(c: Suite, start: Bytes, k: nat)
    ensures StepChain(c, start, k) == BatchDelivery.ChainAt(c, start, k)
    decreases k
  {
    if k > 0 {
      StepChainIs(c, start, k - 1);
    }
  }

  lemma StepKeysMeet(c: Suite, secret: Bytes, most: nat, i: nat, j: nat)
    requires c.HalvesSized() && c.Apart(SelfUsed(c, secret, most)) && i <= most && j <= most
    ensures StepKey(c, c.hkdf(secret, CHAINS).0, i) == StepKey(c, c.hkdf(secret, CHAINS).0, j) <==> i == j
  {
    var start, used := c.hkdf(secret, CHAINS).0, SelfUsed(c, secret, most);
    hide Suite.Apart;
    var chain := Chain(seq(most + 2, k requires 0 <= k < most + 2 => StepChain(c, start, k)),
                       seq(most + 1, k requires 0 <= k < most + 1 => StepChain(c, start, k)));
    forall k: nat | k <= most
      ensures (chain.inputs[k], STEP) in used && |chain.keys[k]| == 32
      ensures chain.keys[k] == chain.inputs[k] && chain.keys[k + 1] == c.hkdf(chain.inputs[k], STEP).1
    {
      assert (StepChain(c, start, k), STEP) in used;
      if k > 0 {
        assert StepChain(c, start, k) == c.hkdf(StepChain(c, start, k - 1), STEP).1;
      }
    }
    assert Follows(c, STEP, used, chain);
    StartNotDerived(c, secret, used, true);
    hide Follows, NotDerived, SelfUsed, StepChain;
    if StepKey(c, start, i) == StepKey(c, start, j) {
      KeysMeet(c, STEP, used, chain, chain, i, j);
    }
  }

  lemma {:induction false} SelfSends(c: Suite, st: RatchetState, msgs: seq<BatchDelivery.Message>)
    requires st.selfMode && st.recvChainKey == st.sendChainKey
    ensures var after := BatchDelivery.SendBatch(c, st, msgs).0;
            && after.selfMode && after.recvChainKey == after.sendChainKey
            && after.recvNumber == st.recvNumber && after.skipped == st.skipped
    decreases |msgs|
  {
    hide MessageKey, LinearFrame;
    if msgs != [] {
      SelfSends(c, st, msgs[..|msgs| - 1]);
    }
  }

  /** The chain key of a self session that has sent some messages, and the frame another sends at its place. */
  lemma SelfPlace(c: Suite, secret: Bytes, msgs: seq<BatchDelivery.Message>)
    requires |secret| >= 32
    ensures var start := c.hkdf(secret, CHAINS).0;
            var (st, frames) := BatchDelivery.SendBatch(c, NewSession(c, true, true, secret).value, msgs);
            && st.selfMode && st.recvNumber == 0 && st.skipped == map[] && st.recvChainKey == StepChain(c, start, |msgs|)
            && forall i :: 0 <= i < |msgs| ==>
                 frames[i] == LinearFrame(c, StepChain(c, start, i), msgs[i].nonce, msgs[i].plaintext)
  {
    var self := NewSession(c, true, true, secret).value;
    assert self.sendChainKey == c.hkdf(secret, CHAINS).0 && self.recvNumber == 0 && self.skipped == map[];
    SelfSends(c, self, msgs);
    BatchDelivery.BatchFrames(c, self, msgs);
    hide NewSession, LinearFrame, BatchDelivery.SendBatch;
    forall i: nat
      ensures StepChain(c, self.sendChainKey, i) == BatchDelivery.ChainAt(c, self.sendChainKey, i)
    {
      StepChainIs(c, self.sendChainKey, i);
    }
  }

  /** Two self sessions on one secret, or one with itself: after sending some messages, a session gives back linear
      message i of the other exactly when it has sent i messages itself (and the text is long enough, its frame does
      not look like a KEM frame, and the label is within the window). */
  lemma SelfOpensExactly(c: Suite, secret: Bytes, ours: seq<BatchDelivery.Message>, theirs: seq<BatchDelivery.Message>,
                         i: nat, most: nat, dk: Bytes, seqno: u64, pick: Pick)
    requires c.Lawful() && c.KeepsSizes() && c.HalvesSized() && |secret| >= 32
    requires i < |theirs| && BatchDelivery.Sendable(c, theirs[i]) && i <= most && |ours| <= most
    requires c.Apart(SelfUsed(c, secret, most))
    requires var start := c.hkdf(secret, CHAINS).0;
             c.Separates(StepKey(c, start, i), StepKey(c, start, |ours|), theirs[i].nonce, theirs[i].plaintext)
    ensures var self := NewSession(c, true, true, secret).value;
            var st, frame := BatchDelivery.SendBatch(c, self, ours).0, BatchDelivery.SendBatch(c, self, theirs).1[i];
            && |frame| >= NONCE_SIZE
            && (Decrypt(c, st, frame, dk, seqno, pick).result == Ok(theirs[i].plaintext) <==>
                && |theirs[i].plaintext| >= 2 && !LooksLikeKem(frame[NONCE_SIZE..])
                && seqno <= 1024 && i == |ours|)
  {
    hide Suite.Apart, Decrypt, LooksLikeKem, NewSession, BatchDelivery.SendBatch, LinearFrame;
    var start, m := c.hkdf(secret, CHAINS).0, theirs[i];
    SelfPlace(c, secret, ours);
    SelfPlace(c, secret, theirs);
    StepKeysMeet(c, secret, most, i, |ours|);
    var ck := StepChain(c, start, i);
    var st := BatchDelivery.SendBatch(c, NewSession(c, true, true, secret).value, ours).0;
    DeliveryOutcomes.LinearParts(c, ck, m);
    assert DeliveryOutcomes.SealKey(c, ck) == StepKey(c, start, i);
    assert DeliveryOutcomes.SealKey(c, st.recvChainKey) == StepKey(c, start, |ours|);
    hide StepKey, StepChain, DeliveryOutcomes.SealKey;
    DeliveryOutcomes.SeparateExact(c, ck, st, m, dk, seqno, pick);
  }

  /** Of two fresh self sessions on one secret, each opens the other's first frame with decrypt_first. */
  lemma SelfFirstFrame(c: Suite, secret: Bytes, m: BatchDelivery.Message, pick: Pick)
    requires c.Lawful() && |secret| >= 32 && BatchDelivery.Sendable(c, m)
    ensures var self := NewSession(c, true, true, secret).value;
            DecryptFirst(c, self, LinearFrame(c, self.sendChainKey, m.nonce, m.plaintext), pick).result == Ok(m.plaintext)
  {
    var self := NewSession(c, true, true, secret).value;
    assert self.recvChainKey == self.sendChainKey && self.recvNumber == 0;
    hide NewSession, Store;
    DeliveryOutcomes.LinearParts(c, self.sendChainKey, m);
    SkipToUnfolds(c, self, 0, pick);
    var key := MessageKey(c, self.sendChainKey).0;
    assert c.open(key, m.nonce, c.seal(key, m.nonce, m.plaintext)) == Some(m.plaintext);
  }
}
