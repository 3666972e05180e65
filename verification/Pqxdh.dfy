/** Session key derivation of the PQXDH handshake (crypto-pq/src/pqxdh.rs). */
module Pqxdh {
  import opened Primitives

  const SS_SIZE: nat := 32
  const SESSION_KEY_SIZE: nat := 32
  const IV_SIZE: nat := 12

  /** HKDF with an explicit salt: (salt, ikm, info, length) to output. */
  type Kdf = (Bytes, Bytes, string, nat) -> Bytes

  datatype SessionKeys = SessionKeys(sendKey: Bytes, recvKey: Bytes, sendIv: Bytes, recvIv: Bytes)

  /** Lexicographic order on byte strings. */
  predicate Less(a: Bytes, b: Bytes) {
    b != [] && (a == [] || a[0] < b[0] || (a[0] == b[0] && Less(a[1..], b[1..])))
  }

  lemma {:induction false} LessTotal(a: Bytes, b: Bytes)
    ensures a == b || Less(a, b) || Less(b, a)
    ensures !(Less(a, b) && Less(b, a))
  {
    if a != [] && b != [] && a[0] == b[0] {
      LessTotal(a[1..], b[1..]);
      assert a == [a[0]] + a[1..] && b == [b[0]] + b[1..];
    }
  }

  /** For equal lengths: at the first place where they differ, the smaller has the smaller byte. */
  lemma {:induction false} LessExact(a: Bytes, b: Bytes) returns (i: nat)
    requires |a| == |b| && a != b
    ensures i < |a| && a[..i] == b[..i] && a[i] != b[i]
    ensures Less(a, b) <==> a[i] < b[i]
  {
    if a[0] != b[0] {
      i := 0;
    } else {
      assert a == [a[0]] + a[1..] && b == [b[0]] + b[1..];
      var j := LessExact(a[1..], b[1..]);
      i := j + 1;
      assert a[..i] == [a[0]] + a[1..][..j] && b[..i] == [b[0]] + b[1..][..j];
    }
  }

  /** The two secrets in ascending order. */
  function Canonical(first: Bytes, second: Bytes): Bytes {
    if Less(second, first) then second + first else first + second
  }

  lemma CanonicalSymmetric(a: Bytes, b: Bytes)
    ensures Canonical(a, b) == Canonical(b, a)
  {
    LessTotal(a, b);
  }

  /** It is the two secrets, the smaller first. */
  lemma CanonicalAscends(a: Bytes, b: Bytes)
    requires |a| == |b|
    ensures var both := Canonical(a, b);
            && |both| == 2 * |a| && !Less(both[|a|..], both[..|a|])
            && ((both[..|a|], both[|a|..]) == (a, b) || (both[..|a|], both[|a|..]) == (b, a))
  {
    LessTotal(a, b);
    assert (a + b)[..|a|] == a && (a + b)[|a|..] == b && (b + a)[..|a|] == b && (b + a)[|a|..] == a;
  }

  /** Which pairs of secrets are one to the handshake. */
  lemma CanonicalExact(a: Bytes, b: Bytes, x: Bytes, y: Bytes)
    requires |a| == |b| == |x| == |y|
    ensures Canonical(a, b) == Canonical(x, y) <==> (a, b) == (x, y) || (a, b) == (y, x)
  {
    CanonicalAscends(a, b);
    CanonicalAscends(x, y);
    CanonicalSymmetric(a, b);
    hide Canonical, Less;
  }

  function Derived(kdf: Kdf, first: Bytes, second: Bytes, nonce: Bytes, isInitiator: bool): SessionKeys {
    var master := kdf(nonce, Canonical(first, second), "add-pqxdh-master-v1", 64);
    var forward := kdf(master, nonce + [1], "add-pqxdh-send-v1", SESSION_KEY_SIZE);
    var backward := kdf(master, nonce + [2], "add-pqxdh-recv-v1", SESSION_KEY_SIZE);
    var sendIv := kdf(master, Label("add-pqxdh-iv-send-v1"), "", IV_SIZE);
    var recvIv := kdf(master, Label("add-pqxdh-iv-recv-v1"), "", IV_SIZE);
    SessionKeys(if isInitiator then forward else backward, if isInitiator then backward else forward, sendIv, recvIv)
  }

  /** The bytes of an ASCII label. */
  function Label(s: string): Bytes {
    seq(|s|, i requires 0 <= i < |s| => s[i] as int % 256)
  }

  /** Fills the 64-byte buffer with both secrets and swaps its halves when they are out of order. */
  method CombineSorted(first: Bytes, second: Bytes) returns (combined: array<byte>)
    requires |first| == |second| == SS_SIZE
    ensures fresh(combined) && combined[..] == Canonical(first, second)
  {
    hide Less;
    combined := new byte[2 * SS_SIZE](_ => 0);
    forall i | 0 <= i < SS_SIZE {
      combined[i] := first[i];
    }
    forall i | 0 <= i < SS_SIZE {
      combined[SS_SIZE + i] := second[i];
    }
    assert combined[..] == first + second;
    if Less(second, first) {
      for i := 0 to SS_SIZE
        invariant forall j :: 0 <= j < i ==> combined[j] == second[j] && combined[SS_SIZE + j] == first[j]
        invariant forall j :: i <= j < SS_SIZE ==> combined[j] == first[j] && combined[SS_SIZE + j] == second[j]
      {
        combined[i], combined[SS_SIZE + i] := combined[SS_SIZE + i], combined[i];
      }
      assert combined[..] == second + first;
    }
  }

  method DeriveSessionKeys(kdf: Kdf, first: Bytes, second: Bytes, nonce: Bytes, isInitiator: bool)
    returns (keys: SessionKeys)
    requires |first| == |second| == SS_SIZE
    ensures keys == Derived(kdf, first, second, nonce, isInitiator)
  {
    hide Less, Label;
    var combined := CombineSorted(first, second);
    var master := kdf(nonce, combined[..], "add-pqxdh-master-v1", 64);
    var saltInitiator := nonce + [1];
    var saltResponder := nonce + [2];
    var forward := kdf(master, saltInitiator, "add-pqxdh-send-v1", SESSION_KEY_SIZE);
    var backward := kdf(master, saltResponder, "add-pqxdh-recv-v1", SESSION_KEY_SIZE);
    var sendKey, recvKey := backward, forward;
    if isInitiator {
      sendKey, recvKey := forward, backward;
    }
    var sendIv := kdf(master, Label("add-pqxdh-iv-send-v1"), "", IV_SIZE);
    var recvIv := kdf(master, Label("add-pqxdh-iv-recv-v1"), "", IV_SIZE);
    keys := SessionKeys(sendKey, recvKey, sendIv, recvIv);
  }

  /** The two roles agree crosswise, although each passes the two secrets in its own order. */
  lemma RolesAgree(kdf: Kdf, ourSecret: Bytes, theirSecret: Bytes, nonce: Bytes)
    ensures var initiator := Derived(kdf, ourSecret, theirSecret, nonce, true);
            var responder := Derived(kdf, theirSecret, ourSecret, nonce, false);
            initiator.sendKey == responder.recvKey && initiator.recvKey == responder.sendKey
  {
    CanonicalSymmetric(ourSecret, theirSecret);
  }

  // ----- Different keys

  /** The arguments of the five derivations of a handshake, in the order master, forward, backward and the two IVs. */
  function Derivations(kdf: Kdf, first: Bytes, second: Bytes, nonce: Bytes): seq<(Bytes, Bytes, string, nat)> {
    var ikm := if Less(second, first) then second + first else first + second;
    var master := kdf(nonce, ikm, "add-pqxdh-master-v1", 64);
    [(nonce, ikm, "add-pqxdh-master-v1", 64),
     (master, nonce + [1], "add-pqxdh-send-v1", 32),
     (master, nonce + [2], "add-pqxdh-recv-v1", 32),
     (master, Label("add-pqxdh-iv-send-v1"), "", 12),
     (master, Label("add-pqxdh-iv-recv-v1"), "", 12)]
  }

  function Output(kdf: Kdf, a: (Bytes, Bytes, string, nat)): Bytes { kdf(a.0, a.1, a.2, a.3) }

  /** Among the derivations of two handshakes no two outputs collide. */
  ghost predicate Apart(kdf: Kdf, used: seq<(Bytes, Bytes, string, nat)>) {
    forall i, j :: 0 <= i < |used| && 0 <= j < |used| && Output(kdf, used[i]) == Output(kdf, used[j]) ==> used[i] == used[j]
  }

  lemma KeysAre(kdf: Kdf, first: Bytes, second: Bytes, nonce: Bytes, isInitiator: bool)
    ensures var keys, d := Derived(kdf, first, second, nonce, isInitiator), Derivations(kdf, first, second, nonce);
            && (keys.sendKey, keys.recvKey)
               == (if isInitiator then (Output(kdf, d[1]), Output(kdf, d[2])) else (Output(kdf, d[2]), Output(kdf, d[1])))
            && keys.sendIv == Output(kdf, d[3]) && keys.recvIv == Output(kdf, d[4])
  {
    hide Label, Less;
  }

  /** The two direction keys of a handshake differ, and so do its two IVs.  The IVs are not exchanged between the roles as
      the keys are: both sides call the same one the send IV, so what one side sends with the other does not receive with. */
  lemma DirectionsApart(kdf: Kdf, first: Bytes, second: Bytes, nonce: Bytes, isInitiator: bool)
    requires Apart(kdf, Derivations(kdf, first, second, nonce))
    ensures var ours := Derived(kdf, first, second, nonce, isInitiator);
            var theirs := Derived(kdf, second, first, nonce, !isInitiator);
            && ours.sendKey != ours.recvKey && ours.sendKey == theirs.recvKey
            && ours.sendIv == theirs.sendIv && ours.sendIv != theirs.recvIv
  {
    var d := Derivations(kdf, first, second, nonce);
    KeysAre(kdf, first, second, nonce, isInitiator);
    KeysAre(kdf, second, first, nonce, !isInitiator);
    LessTotal(first, second);
    LabelsDiffer();
    hide Derived, Less, Label;
    assert d[1] != d[2] by {
      assert d[1].1[|nonce|] != d[2].1[|nonce|];
    }
    assert d[3] != d[4];
  }

  lemma LabelsDiffer()
    ensures Label("add-pqxdh-iv-send-v1") != Label("add-pqxdh-iv-recv-v1")
  {
    assert Label("add-pqxdh-iv-send-v1")[13] == 's' as int % 256;
    assert Label("add-pqxdh-iv-recv-v1")[13] == 'r' as int % 256;
  }

  /** Handshakes with another nonce, or with other secrets than the same two in either order, share no key in any
      direction: the keys depend on both secrets and on the nonce. */
  lemma HandshakesApart(kdf: Kdf, a: Bytes, b: Bytes, nonce: Bytes, x: Bytes, y: Bytes, other: Bytes, one: bool, two: bool)
    requires |a| == |b| == |x| == |y| == SS_SIZE && |nonce| == |other|
    requires Apart(kdf, Derivations(kdf, a, b, nonce) + Derivations(kdf, x, y, other))
    requires nonce != other || ((a, b) != (x, y) && (a, b) != (y, x))
    ensures var ours, theirs := Derived(kdf, a, b, nonce, one), Derived(kdf, x, y, other, two);
            && ours.sendKey != theirs.sendKey && ours.sendKey != theirs.recvKey
            && ours.recvKey != theirs.sendKey && ours.recvKey != theirs.recvKey
            && ours.sendIv != theirs.sendIv && ours.recvIv != theirs.recvIv
  {
    CanonicalExact(a, b, x, y);
    KeysAre(kdf, a, b, nonce, one);
    KeysAre(kdf, x, y, other, two);
    var d, e := Derivations(kdf, a, b, nonce), Derivations(kdf, x, y, other);
    assert (d + e)[0] == d[0] && (d + e)[5] == e[0] && d[0] != e[0];
    assert Output(kdf, d[0]) != Output(kdf, e[0]);
    forall i, j | 1 <= i < 5 && 1 <= j < 5
      ensures Output(kdf, d[i]) != Output(kdf, e[j])
    {
      assert (d + e)[i] == d[i] && (d + e)[5 + j] == e[j];
      assert d[i].0 == Output(kdf, d[0]) && e[j].0 == Output(kdf, e[0]);
    }
    hide Derived, Derivations;
  }

  // ----- The hypotheses can be met

  /** A derivation function whose outputs begin with a tag of their own. */
  function TaggedKdf(): Kdf {
    (salt: Bytes, ikm: Bytes, info: string, length: nat) =>
      if info == "add-pqxdh-master-v1" then [0] + salt + ikm
      else if info == "add-pqxdh-send-v1" then [1] + salt
      else if info == "add-pqxdh-recv-v1" then [2] + salt
      else if ikm == Label("add-pqxdh-iv-send-v1") then [3] + salt
      else [4] + salt
  }

  lemma TaggedOutputs(first: Bytes, second: Bytes, nonce: Bytes, k: nat)
    requires k < 5
    ensures var d, kdf := Derivations(TaggedKdf(), first, second, nonce), TaggedKdf();
            Output(kdf, d[k]) == if k == 0 then [0] + nonce + d[0].1 else [k] + ([0] + nonce + d[0].1)
  {
    LabelsDiffer();
    hide Label, Less;
    assert "add-pqxdh-send-v1" != "add-pqxdh-master-v1" && "add-pqxdh-recv-v1" != "add-pqxdh-master-v1"
      && "add-pqxdh-recv-v1" != "add-pqxdh-send-v1" by {
      assert "add-pqxdh-recv-v1"[10] != "add-pqxdh-send-v1"[10];
    }
  }

  /** Any two handshakes meet the hypotheses under it. */
  lemma TaggedApart(a: Bytes, b: Bytes, nonce: Bytes, x: Bytes, y: Bytes, other: Bytes)
    requires |nonce| == |other|
    ensures Apart(TaggedKdf(), Derivations(TaggedKdf(), a, b, nonce) + Derivations(TaggedKdf(), x, y, other))
  {
    var kdf := TaggedKdf();
    var used := Derivations(kdf, a, b, nonce) + Derivations(kdf, x, y, other);
    forall i, j | 0 <= i < |used| && 0 <= j < |used| && Output(kdf, used[i]) == Output(kdf, used[j])
      ensures used[i] == used[j]
    {
      var p, q := if i < 5 then (a, b, nonce) else (x, y, other), if j < 5 then (a, b, nonce) else (x, y, other);
      TaggedMeet(p, q, if i < 5 then i else i - 5, if j < 5 then j else j - 5);
    }
  }

  lemma TaggedMeet(p: (Bytes, Bytes, Bytes), q: (Bytes, Bytes, Bytes), i: nat, j: nat)
    requires i < 5 && j < 5 && |p.2| == |q.2|
    requires var kdf := TaggedKdf();
             Output(kdf, Derivations(kdf, p.0, p.1, p.2)[i]) == Output(kdf, Derivations(kdf, q.0, q.1, q.2)[j])
    ensures var kdf := TaggedKdf(); Derivations(kdf, p.0, p.1, p.2)[i] == Derivations(kdf, q.0, q.1, q.2)[j]
  {
    var kdf := TaggedKdf();
    var d, e := Derivations(kdf, p.0, p.1, p.2), Derivations(kdf, q.0, q.1, q.2);
    TaggedOutputs(p.0, p.1, p.2, i);
    TaggedOutputs(q.0, q.1, q.2, j);
    TaggedOutputs(p.0, p.1, p.2, 0);
    TaggedOutputs(q.0, q.1, q.2, 0);
    var m, n := [0] + p.2 + d[0].1, [0] + q.2 + e[0].1;
    assert Output(kdf, d[i])[0] == i && Output(kdf, e[j])[0] == j;
    assert m == n by {
      assert ([i] + m)[1..] == m && ([j] + n)[1..] == n;
    }
    assert m[1..1 + |p.2|] == p.2 && n[1..1 + |q.2|] == q.2;
    assert m[1 + |p.2|..] == d[0].1 && n[1 + |q.2|..] == e[0].1;
  }
}
