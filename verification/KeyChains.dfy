/** Chains of HKDF steps, as both ratchets use them: when no two halves that were derived collide, no key occurs twice.
    Stated on the derivations themselves. */
module KeyChains {
  import opened Primitives

  /** The successive chain keys, and the input of the step taken at each. */
  datatype Chain = Chain(keys: seq<Bytes>, inputs: seq<Bytes>)

  /** Each step's input begins with the chain key, and the second half of its output is the next chain key. */
  ghost predicate Follows(c: Suite, info: string, used: set<(Bytes, string)>, chain: Chain) {
    && |chain.keys| == |chain.inputs| + 1
    && forall k :: 0 <= k < |chain.inputs| ==>
         && (chain.inputs[k], info) in used
         && |chain.keys[k]| == 32 && chain.keys[k] <= chain.inputs[k]
         && chain.keys[k + 1] == c.hkdf(chain.inputs[k], info).1
  }

  /** A chain key that no step yields. */
  ghost predicate NotDerived(c: Suite, info: string, used: set<(Bytes, string)>, key: Bytes) {
    forall a :: a in used && a.1 == info ==> c.hkdf(a.0, a.1).1 != key
  }

  lemma StepsMeet(c: Suite, used: set<(Bytes, string)>, a: (Bytes, string), b: (Bytes, string))
    requires c.Apart(used) && a in used && b in used
    ensures c.hkdf(a.0, a.1).1 == c.hkdf(b.0, b.1).1 ==> a == b
    ensures c.hkdf(a.0, a.1).0 == c.hkdf(b.0, b.1).0 ==> a == b
    ensures c.hkdf(a.0, a.1).0 != c.hkdf(b.0, b.1).1
  {}

  lemma SamePrefix(a: Bytes, b: Bytes, whole: Bytes)
    requires a <= whole && b <= whole && |a| == |b|
    ensures a == b
  {}

  lemma KeyNotStart(c: Suite, info: string, used: set<(Bytes, string)>, chain: Chain, i: nat, start: Bytes)
    requires Follows(c, info, used, chain) && NotDerived(c, info, used, start) && 0 < i < |chain.keys|
    ensures chain.keys[i] != start
  {
    var a := (chain.inputs[i - 1], info);
    assert a in used && chain.keys[i - 1 + 1] == c.hkdf(a.0, a.1).1;
  }

  /** Two chains from keys that no step yields share a key only at the same place, having begun alike. */
  lemma {:induction false} ChainsMeet(c: Suite, info: string, used: set<(Bytes, string)>, a: Chain, b: Chain, i: nat, j: nat)
    requires c.Apart(used) && Follows(c, info, used, a) && Follows(c, info, used, b)
    requires NotDerived(c, info, used, a.keys[0]) && NotDerived(c, info, used, b.keys[0])
    requires i < |a.keys| && j < |b.keys| && a.keys[i] == b.keys[j]
    ensures i == j && a.keys[0] == b.keys[0]
    decreases i
  {
    hide Suite.Apart;
    if i > 0 {
      KeyNotStart(c, info, used, a, i, b.keys[0]);
    }
    if j > 0 {
      KeyNotStart(c, info, used, b, j, a.keys[0]);
    }
    hide NotDerived;
    if i > 0 && j > 0 {
      StepsMeet(c, used, (a.inputs[i - 1], info), (b.inputs[j - 1], info));
      SamePrefix(a.keys[i - 1], b.keys[j - 1], a.inputs[i - 1]);
      ChainsMeet(c, info, used, a, b, i - 1, j - 1);
    }
  }

  /** So two steps yield one message key only at the same place of chains that began alike. */
  lemma KeysMeet(c: Suite, info: string, used: set<(Bytes, string)>, a: Chain, b: Chain, i: nat, j: nat)
    requires c.Apart(used) && Follows(c, info, used, a) && Follows(c, info, used, b)
    requires NotDerived(c, info, used, a.keys[0]) && NotDerived(c, info, used, b.keys[0])
    requires i < |a.inputs| && j < |b.inputs|
    requires c.hkdf(a.inputs[i], info).0 == c.hkdf(b.inputs[j], info).0
    ensures i == j && a.keys[0] == b.keys[0]
  {
    StepsMeet(c, used, (a.inputs[i], info), (b.inputs[j], info));
    hide Suite.Apart;
    SamePrefix(a.keys[i], b.keys[j], a.inputs[i]);
    ChainsMeet(c, info, used, a, b, i, j);
  }
}
