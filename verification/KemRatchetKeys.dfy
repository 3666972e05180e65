/** The keys of a KEM-ratchet run are all different, and depend on the combined secret (crypto-pq/src/ratchet_pq.rs).
    Keys are written out here as derivations, not through the ratchet's own functions. */
module KemRatchetKeys {
  import opened Primitives
  import opened Wrappers
  import opened KemRatchet
  import opened KeyChains
  import KeySeparation

  const STEP: string := "add-pq-ratchet-msg-key-v1"

  /** The chain key before message n: the second half of each step, taken on the chain key and the combined secret. */
  function ChainNo(c: Suite, start: Bytes, combined: Bytes, n: nat): Bytes
    decreases n
  {
    if n == 0 then start else c.hkdf(ChainNo(c, start, combined, n - 1) + combined, STEP).1
  }

  /** The key of message n: the first half. */
  function KeyNo(c: Suite, start: Bytes, combined: Bytes, n: nat): Bytes {
    c.hkdf(ChainNo(c, start, combined, n) + combined, STEP).0
  }

  /** The derivations for the first n messages. */
  function UsedBy(c: Suite, start: Bytes, combined: Bytes, n: nat): set<(Bytes, string)> {
    set k: nat | k < n :: (ChainNo(c, start, combined, k) + combined, STEP)
  }

  lemma {:induction false} ChainNoIs(c: Suite, start: Bytes, combined: Bytes, n: nat)
    ensures ChainNo(c, start, combined, n) == ChainAt(c, start, combined, n)
    decreases n
  {
    if n > 0 {
      ChainNoIs(c, start, combined, n - 1);
    }
  }

  lemma KeyNoIs(c: Suite, start: Bytes, combined: Bytes, n: nat)
    ensures KeyNo(c, start, combined, n) == KeyAt(c, start, combined, n)
  {
    ChainNoIs(c, start, combined, n);
  }

  function ChainOf(c: Suite, start: Bytes, combined: Bytes, n: nat): Chain {
    Chain(seq(n + 1, k requires 0 <= k < n + 1 => ChainNo(c, start, combined, k)),
          seq(n, k requires 0 <= k < n => ChainNo(c, start, combined, k) + combined))
  }

  lemma ChainFollows(c: Suite, start: Bytes, combined: Bytes, n: nat)
    requires c.HalvesSized() && |start| == 32
    ensures Follows(c, STEP, UsedBy(c, start, combined, n), ChainOf(c, start, combined, n))
  {
    forall k: nat | k < n
      ensures |ChainNo(c, start, combined, k)| == 32
      ensures (ChainNo(c, start, combined, k) + combined, STEP) in UsedBy(c, start, combined, n)
    {
      if k > 0 {
        assert ChainNo(c, start, combined, k) == c.hkdf(ChainNo(c, start, combined, k - 1) + combined, STEP).1;
      }
    }
  }

  /** In a run of sends, when no two derived halves collide and no step yields the first chain key: message i is sealed
      under its own key, and no two messages have one key. */
  lemma SendKeysApart(c: Suite, root: Key, start: Bytes, recv: Bytes, combined: Bytes, texts: seq<Text>, i: nat, j: nat)
    requires c.HalvesSized() && |start| == 32 && i < |texts| && j < |texts|
    requires c.Apart(UsedBy(c, start, combined, |texts|))
    requires NotDerived(c, STEP, UsedBy(c, start, combined, |texts|), start)
    ensures var out := SendAll(c, FreshChains(root, start, recv), combined, texts).1;
            && |out| == |texts| && out[i].Ok?
            && out[i].value.ciphertext == c.seal(KeyNo(c, start, combined, i), out[i].value.nonce, texts[i].plaintext)
            && (KeyNo(c, start, combined, i) == KeyNo(c, start, combined, j) <==> i == j)
  {
    hide SendAll, MixedNonce, KeyAt;
    SendAllKeys(c, root, start, recv, combined, texts, i);
    KeyNoIs(c, start, combined, i);
    KeysNoApart(c, start, combined, |texts|, i, j);
  }

  lemma KeysNoApart(c: Suite, start: Bytes, combined: Bytes, n: nat, i: nat, j: nat)
    requires c.HalvesSized() && |start| == 32 && i < n && j < n
    requires c.Apart(UsedBy(c, start, combined, n)) && NotDerived(c, STEP, UsedBy(c, start, combined, n), start)
    ensures KeyNo(c, start, combined, i) == KeyNo(c, start, combined, j) <==> i == j
  {
    hide Suite.Apart, NotDerived, Follows, UsedBy;
    ChainFollows(c, start, combined, n);
    var chain := ChainOf(c, start, combined, n);
    assert chain.keys[0] == start;
    hide ChainNo;
    if KeyNo(c, start, combined, i) == KeyNo(c, start, combined, j) {
      KeysMeet(c, STEP, UsedBy(c, start, combined, n), chain, chain, i, j);
    }
  }

  /** Two sides whose combined secrets differ, at equal length, have no key in common, at any indices and whatever the
      chain keys they began with. */
  lemma CombinedMatters(c: Suite, start: Bytes, combined: Bytes, otherStart: Bytes, other: Bytes, n: nat, i: nat, j: nat)
    requires |combined| == |other| && combined != other && i < n && j < n
    requires c.Apart(UsedBy(c, start, combined, n) + UsedBy(c, otherStart, other, n))
    ensures KeyNo(c, start, combined, i) != KeyNo(c, otherStart, other, j)
  {
    hide ChainNo;
    var used := UsedBy(c, start, combined, n) + UsedBy(c, otherStart, other, n);
    var a, b := (ChainNo(c, start, combined, i) + combined, STEP), (ChainNo(c, otherStart, other, j) + other, STEP);
    StepsMeet(c, used, a, b);
    EndsDiffer(ChainNo(c, start, combined, i), combined, ChainNo(c, otherStart, other, j), other);
  }

  lemma EndsDiffer(a: Bytes, s: Bytes, b: Bytes, t: Bytes)
    requires |s| == |t| && s != t
    ensures a + s != b + t
  {
    assert (a + s)[|a|..] == s && (b + t)[|b|..] == t;
  }

  /** A receiver with a combined secret of its own, after any run of decrypt calls, at an index within the window: it
      opens a ciphertext with its own key for the index, and fails to authenticate exactly when that key does not open
      it. */
  lemma ReceivesUnderOwnKey(c: Suite, root: Key, start: Bytes, other: Bytes, combined: Bytes, calls: seq<Call>,
                            i: nat, nonce: Bytes, ciphertext: Bytes)
    requires var s := AfterCalls(c, FreshChains(root, other, start), combined, calls);
             i - s.recvSeq <= 1024 && s.recvSeq - i <= 1024
    ensures var s := AfterCalls(c, FreshChains(root, other, start), combined, calls);
            var text := c.open(KeyNo(c, start, combined, i), nonce, ciphertext);
            Decrypted(c, s, i, combined, nonce, ciphertext).1 == if text.Some? then Ok(text.value) else Err(AuthFailure)
  {
    hide KeyFor, KeyAt, AfterCalls, Receiving;
    RunKeepsWindow(c, root, other, start, combined, calls);
    KeyForExactly(c, start, combined, AfterCalls(c, FreshChains(root, other, start), combined, calls), i);
    KeyNoIs(c, start, combined, i);
  }

  // ----- The hypotheses can be met

  /** Which fills the halves of a derivation are. */
  function Halves(ikm: Bytes): (nat, nat) {
    if ikm == KeySeparation.Fill(1) + KeySeparation.Fill(2) then (3, 5) else (4, 6)
  }

  /** A suite with sized halves under which two messages have different keys. */
  function TwoStepSuite(): Suite {
    KeySeparation.FillSuite().(hkdf := (ikm: Bytes, info: string) =>
      (KeySeparation.Fill(Halves(ikm).0), KeySeparation.Fill(Halves(ikm).1)))
  }

  lemma TwoStepLawful()
    ensures TwoStepSuite().Lawful() && TwoStepSuite().HalvesSized()
  {
    KeySeparation.FillLawful([104, 105], []);
  }

  lemma TwoStepUsed(start: Bytes, combined: Bytes)
    requires start == KeySeparation.Fill(1) && combined == KeySeparation.Fill(2)
    ensures UsedBy(TwoStepSuite(), start, combined, 2)
            == {(start + combined, STEP), (KeySeparation.Fill(5) + combined, STEP)}
    ensures start + combined != KeySeparation.Fill(5) + combined
  {
    var next := KeySeparation.Fill(5);
    assert ChainNo(TwoStepSuite(), start, combined, 1) == next;
    if start + combined == next + combined {
      SamePrefix(start, next, start + combined);
      KeySeparation.FillsDiffer(1, 5);
    }
  }

  lemma HalvesMeet(start: Bytes, combined: Bytes, x: Bytes, a: (Bytes, string), b: (Bytes, string))
    requires start == KeySeparation.Fill(1) && combined == KeySeparation.Fill(2) && x != start + combined
    requires {a, b} <= {(start + combined, STEP), (x, STEP)}
    ensures Halves(a.0) == Halves(b.0) ==> a == b
  {
    assert a in {a, b} && b in {a, b};
    hide KeySeparation.Fill;
  }

  lemma TwoStepApart(start: Bytes, combined: Bytes, x: Bytes)
    requires start == KeySeparation.Fill(1) && combined == KeySeparation.Fill(2) && x != start + combined
    ensures TwoStepSuite().Apart({(start + combined, STEP), (x, STEP)})
    ensures NotDerived(TwoStepSuite(), STEP, {(start + combined, STEP), (x, STEP)}, start)
  {
    var c, used := TwoStepSuite(), {(start + combined, STEP), (x, STEP)};
    hide KeySeparation.Fill;
    forall a, b | a in used && b in used
      ensures c.hkdf(a.0, a.1).0 == c.hkdf(b.0, b.1).0 ==> a == b
      ensures c.hkdf(a.0, a.1).1 == c.hkdf(b.0, b.1).1 ==> a == b
      ensures c.hkdf(a.0, a.1).0 != c.hkdf(b.0, b.1).1
      ensures c.hkdf(a.0, a.1).1 != start
    {
      KeySeparation.FillPairApart(Halves(a.0), Halves(b.0));
      KeySeparation.FillPairApart((1, 1), Halves(a.0));
      HalvesMeet(start, combined, x, a, b);
    }
  }

  /** Two messages, for which all hypotheses of SendKeysApart hold. */
  lemma SendKeysApartMet()
    ensures var c, start, combined := TwoStepSuite(), KeySeparation.Fill(1), KeySeparation.Fill(2);
            && c.Lawful() && c.HalvesSized() && |start| == 32
            && c.Apart(UsedBy(c, start, combined, 2)) && NotDerived(c, STEP, UsedBy(c, start, combined, 2), start)
  {
    var start, combined := KeySeparation.Fill(1), KeySeparation.Fill(2);
    hide Suite.Apart, NotDerived, UsedBy, TwoStepSuite, Suite.Lawful, Suite.HalvesSized;
    TwoStepLawful();
    TwoStepUsed(start, combined);
    TwoStepApart(start, combined, KeySeparation.Fill(5) + combined);
  }
}
