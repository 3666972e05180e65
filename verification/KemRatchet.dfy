/** The chains and key table of the KEM ratchet, and its wrapper (crypto-pq/src/ratchet_pq.rs). */
module KemRatchet {
  import opened Primitives
  import opened Wrappers

  const MAX_SKIPPED_KEYS: nat := 1024
  const MAX_SKIP_AHEAD: nat := 1024

  datatype PqError = GapTooLarge | MissingKey | AuthFailure

  type PqResult<+T> = Result<T, PqError>

  datatype Entry = Entry(seqno: nat, key: Bytes)

  type Table = seq<Entry>

  type Key = k: Bytes | |k| == 32 witness seq(32, _ => 0)
  type Nonce = n: Bytes | |n| == NONCE_SIZE witness seq(NONCE_SIZE, _ => 0)

  /** The ratcheting part of a KemRatchetState. */
  datatype Chains = Chains(
    rootKey: Key,
    sendChainKey: Bytes,
    recvChainKey: Bytes,
    table: Table,
    sendSeq: nat,
    recvSeq: nat)

  /** A state before its first message. */
  function FreshChains(root: Key, send: Bytes, recv: Bytes): Chains { Chains(root, send, recv, [], 0, 0) }

  /** Message key and next chain key. */
  function MessageKey(c: Suite, chainKey: Bytes, combined: Bytes): (Bytes, Bytes) {
    c.hkdf(chainKey + combined, "add-pq-ratchet-msg-key-v1")
  }

  // ----- The key table

  predicate Present(table: Table, seqno: nat) {
    exists i :: 0 <= i < |table| && table[i].seqno == seqno
  }

  /** The key of the first entry for `seqno`. */
  function Lookup(table: Table, seqno: nat): Option<Bytes> {
    if table == [] then None
    else if table[0].seqno == seqno then Some(table[0].key)
    else Lookup(table[1..], seqno)
  }

  predicate Sorted(table: Table) {
    forall i, j :: 0 <= i < j < |table| ==> table[i].seqno <= table[j].seqno
  }

  function Insert(e: Entry, table: Table): (r: Table)
    requires Sorted(table)
    ensures Sorted(r) && r != []
    ensures r[0] == e || (table != [] && r[0] == table[0])
  {
    if table == [] || e.seqno <= table[0].seqno then [e] + table
    else [table[0]] + Insert(e, table[1..])
  }

  /** Stable sort by index. */
  function SortBySeq(table: Table): (r: Table)
    ensures Sorted(r)
  {
    if table == [] then [] else Insert(table[0], SortBySeq(table[1..]))
  }

  lemma {:induction false} InsertKeepsEntries(e: Entry, table: Table)
    requires Sorted(table)
    ensures multiset(Insert(e, table)) == multiset(table) + multiset{e}
  {
    if table == [] || e.seqno <= table[0].seqno {
    } else {
      assert table == [table[0]] + table[1..];
      InsertKeepsEntries(e, table[1..]);
    }
  }

  /** Sorting neither drops nor invents an entry. */
  lemma {:induction false} SortKeepsEntries(table: Table)
    ensures multiset(SortBySeq(table)) == multiset(table) && |SortBySeq(table)| == |table|
  {
    if table != [] {
      assert table == [table[0]] + table[1..];
      SortKeepsEntries(table[1..]);
      InsertKeepsEntries(table[0], SortBySeq(table[1..]));
    }
    assert |multiset(SortBySeq(table))| == |SortBySeq(table)|;
  }

  lemma {:induction false} SortedStays(table: Table)
    requires Sorted(table)
    ensures SortBySeq(table) == table
  {
    if table != [] {
      SortedStays(table[1..]);
      assert table == [table[0]] + table[1..];
    }
  }

  function PrunedTable(table: Table): Table {
    SortKeepsEntries(table);
    if |table| > MAX_SKIPPED_KEYS then SortBySeq(table)[1..] else table
  }

  function Stored(table: Table, seqno: nat, key: Bytes): Table {
    if Present(table, seqno) then table else PrunedTable(table + [Entry(seqno, key)])
  }

  lemma {:induction false} LookupAppend(table: Table, e: Entry, seqno: nat)
    ensures Lookup(table + [e], seqno)
            == if Lookup(table, seqno).Some? then Lookup(table, seqno)
               else if e.seqno == seqno then Some(e.key)
               else None
  {
    if table == [] {
      assert table + [e] == [e];
    } else {
      assert (table + [e])[1..] == table[1..] + [e];
      LookupAppend(table[1..], e, seqno);
    }
  }

  lemma {:induction false} PresentExact(table: Table, seqno: nat)
    ensures Present(table, seqno) <==> Lookup(table, seqno).Some?
  {
    if table != [] {
      PresentExact(table[1..], seqno);
      assert table == [table[0]] + table[1..];
      if Present(table[1..], seqno) {
        var i :| 0 <= i < |table[1..]| && table[1..][i].seqno == seqno;
        assert table[i + 1].seqno == seqno;
      }
      if Present(table, seqno) && table[0].seqno != seqno {
        var i :| 0 <= i < |table| && table[i].seqno == seqno;
        assert table[1..][i - 1].seqno == seqno;
      }
    }
  }

  /** Storing a key in any table: an index that is there keeps its key; with room, the new index gets its key and every
      other index keeps its own; in a full table an entry of least index makes room. */
  lemma StoredLooksUp(table: Table, seqno: nat, key: Bytes, i: nat) returns (dropped: Entry)
    requires |table| <= 1024
    ensures Lookup(table, seqno).Some? ==> Stored(table, seqno, key) == table
    ensures Lookup(table, seqno).None? && |table| < 1024 ==>
              Lookup(Stored(table, seqno, key), i) == if i == seqno then Some(key) else Lookup(table, i)
    ensures Lookup(table, seqno).None? && |table| == 1024 ==>
              && multiset(Stored(table, seqno, key)) + multiset{dropped} == multiset(table) + multiset{Entry(seqno, key)}
              && forall e <- Stored(table, seqno, key) :: dropped.seqno <= e.seqno
  {
    hide Lookup, SortBySeq, Present;
    PresentExact(table, seqno);
    var longer := table + [Entry(seqno, key)];
    LookupAppend(table, Entry(seqno, key), i);
    SortKeepsEntries(longer);
    var sorted := SortBySeq(longer);
    dropped := sorted[0];
    assert sorted == [dropped] + sorted[1..];
    assert multiset(longer) == multiset(table) + multiset{Entry(seqno, key)};
  }

  // ----- The operations, as functions

  function AdvancedSend(c: Suite, s: Chains, combined: Bytes): Chains {
    var (mk, ck) := MessageKey(c, s.sendChainKey, combined);
    s.(table := Stored(s.table, s.sendSeq, mk), sendChainKey := ck, sendSeq := s.sendSeq + 1)
  }

  function AdvancedRecv(c: Suite, s: Chains, combined: Bytes): Chains {
    var (mk, ck) := MessageKey(c, s.recvChainKey, combined);
    s.(table := Stored(s.table, s.recvSeq, mk), recvChainKey := ck, recvSeq := s.recvSeq + 1)
  }

  function AdvancedPast(c: Suite, s: Chains, seqno: nat, combined: Bytes): Chains
    decreases seqno + 1 - s.recvSeq
  {
    if s.recvSeq <= seqno then AdvancedPast(c, AdvancedRecv(c, s, combined), seqno, combined) else s
  }

  /** The key a receiving call works with: gap check, advance, table lookup. */
  function KeyFor(c: Suite, s: Chains, seqno: nat, combined: Bytes): (Chains, PqResult<Bytes>) {
    if seqno - s.recvSeq > MAX_SKIP_AHEAD then (s, Err(GapTooLarge))
    else
      var after := AdvancedPast(c, s, seqno, combined);
      (after, if Lookup(after.table, seqno).Some? then Ok(Lookup(after.table, seqno).value) else Err(MissingKey))
  }

  function Decrypted(c: Suite, s: Chains, seqno: nat, combined: Bytes, nonce: Bytes, ciphertext: Bytes):
    (Chains, PqResult<Bytes>)
  {
    var (after, key) := KeyFor(c, s, seqno, combined);
    match key
    case Err(e) => (after, Err(e))
    case Ok(k) =>
      var pt := c.open(k, nonce, ciphertext);
      (after, if pt.Some? then Ok(pt.value) else Err(AuthFailure))
  }

  function Pow2(n: nat): nat { if n == 0 then 1 else 2 * Pow2(n - 1) }

  /** The exclusive or of the low n bits of two numbers. */
  function XorBits(a: nat, b: nat, n: nat): (r: nat)
    ensures r < Pow2(n)
  {
    if n == 0 then 0 else (a % 2 + b % 2) % 2 + 2 * XorBits(a / 2, b / 2, n - 1)
  }

  function XorByte(a: byte, b: byte): byte {
    assert Pow2(8) == 256;
    XorBits(a, b, 8)
  }

  /** The nonce sent for a random draw: the root key's first byte is mixed into its first two bytes. */
  function MixedNonce(random: Nonce, root: Key): Nonce {
    [XorByte(random[0], root[0]), XorByte(random[1], root[0])] + random[2..]
  }

  /** Mixing twice gives the draw back, so distinct draws are sent as distinct nonces. */
  lemma MixTwice(random: Nonce, root: Key)
    ensures MixedNonce(MixedNonce(random, root), root) == random
  {
    hide XorByte;
    XorByteTwice(random[0], root[0]);
    XorByteTwice(random[1], root[0]);
  }

  lemma XorBitsUnfolds(a: nat, b: nat, n: nat)
    requires n > 0
    ensures XorBits(a, b, n) == (a % 2 + b % 2) % 2 + 2 * XorBits(a / 2, b / 2, n - 1)
    ensures a < Pow2(n) ==> a / 2 < Pow2(n - 1)
  {}

  lemma BitTwice(a: nat, b: nat, rest: nat)
    ensures var bit := (a % 2 + b % 2) % 2;
            (bit + 2 * rest) % 2 == bit && (bit + 2 * rest) / 2 == rest && (bit + b % 2) % 2 == a % 2
  {}

  lemma {:induction false} XorBitsTwice(a: nat, b: nat, n: nat)
    requires a < Pow2(n)
    ensures XorBits(XorBits(a, b, n), b, n) == a
  {
    hide XorBits;
    if n == 0 {
      XorBitsNothing(a, b);
      XorBitsNothing(XorBits(a, b, n), b);
    } else {
      var rest := XorBits(a / 2, b / 2, n - 1);
      XorBitsUnfolds(a, b, n);
      XorBitsUnfolds(XorBits(a, b, n), b, n);
      hide Pow2;
      XorBitsTwice(a / 2, b / 2, n - 1);
      BitTwice(a, b, rest);
    }
  }

  lemma XorBitsNothing(a: nat, b: nat)
    ensures XorBits(a, b, 0) == 0
  {}

  /** Bit k of a number. */
  function BitOf(a: nat, k: nat): nat { if k == 0 then a % 2 else BitOf(a / 2, k - 1) }

  /** Bit by bit: the mixed byte has a bit exactly where one of the two bytes has it and the other has not. */
  lemma {:induction false} XorBitsAt(a: nat, b: nat, n: nat, k: nat)
    requires k < n
    ensures BitOf(XorBits(a, b, n), k) == 1 <==> BitOf(a, k) != BitOf(b, k)
    decreases n
  {
    hide XorBits, BitOf;
    XorBitsUnfolds(a, b, n);
    BitTwice(a, b, XorBits(a / 2, b / 2, n - 1));
    BitUnfolds(a, k);
    BitUnfolds(b, k);
    BitUnfolds(XorBits(a, b, n), k);
    if k > 0 {
      XorBitsAt(a / 2, b / 2, n - 1, k - 1);
    }
  }

  lemma BitUnfolds(a: nat, k: nat)
    ensures k == 0 ==> BitOf(a, k) == a % 2
    ensures k > 0 ==> BitOf(a, k) == BitOf(a / 2, k - 1)
  {}

  /** The nonce that is sent: its first two bytes differ from the draw exactly in the bits of the root key's first byte,
      and the other ten are those drawn. */
  lemma MixedBits(random: Nonce, root: Key, i: nat, k: nat)
    requires i < NONCE_SIZE && k < 8
    ensures i < 2 ==> (BitOf(MixedNonce(random, root)[i], k) == 1 <==> BitOf(random[i], k) != BitOf(root[0], k))
    ensures i >= 2 ==> MixedNonce(random, root)[i] == random[i]
  {
    hide XorBits, BitOf;
    if i < 2 {
      XorBitsAt(random[i], root[0], 8, k);
    }
  }

  lemma XorByteTwice(a: byte, e: byte)
    ensures XorByte(XorByte(a, e), e) == a
  {
    assert Pow2(8) == 256;
    hide XorBits;
    XorBitsTwice(a, e, 8);
  }

  /** What is sent for a text. */
  datatype Sealed = Sealed(ciphertext: Bytes, nonce: Nonce)

  function SealedUnder(c: Suite, key: Bytes, plaintext: Bytes, nonce: Nonce): Sealed {
    Sealed(c.seal(key, nonce, plaintext), nonce)
  }

  function Encrypted(c: Suite, s: Chains, plaintext: Bytes, combined: Bytes, random: Nonce): (Chains, PqResult<Sealed>) {
    var after := AdvancedSend(c, s, combined);
    var key := Lookup(after.table, after.sendSeq - 1);
    (after, if key.Some? then Ok(SealedUnder(c, key.value, plaintext, MixedNonce(random, s.rootKey))) else Err(MissingKey))
  }

  lemma AdvanceUnfolds(c: Suite, s: Chains, seqno: nat, combined: Bytes)
    ensures s.recvSeq > seqno ==> AdvancedPast(c, s, seqno, combined) == s
    ensures s.recvSeq <= seqno ==>
              AdvancedPast(c, s, seqno, combined) == AdvancedPast(c, AdvancedRecv(c, s, combined), seqno, combined)
  {
    hide Stored;
  }

  // ----- The objects

  class KemRatchetState {
    const suite: Suite
    var rootKey: Key
    var sendChainKey: Bytes
    var recvChainKey: Bytes
    var skipped: Table
    var sendSeq: nat
    var recvSeq: nat

    ghost function Value(): Chains
      reads this
    {
      Chains(rootKey, sendChainKey, recvChainKey, skipped, sendSeq, recvSeq)
    }

    constructor (c: Suite, root: Key, send: Bytes, recv: Bytes)
      ensures suite == c && Value() == FreshChains(root, send, recv)
    {
      suite := c;
      rootKey := root;
      sendChainKey, recvChainKey := send, recv;
      skipped, sendSeq, recvSeq := [], 0, 0;
    }

    method PruneSkippedKeys()
      modifies this
      ensures Value() == old(Value()).(table := PrunedTable(old(skipped)))
    {
      if |skipped| > MAX_SKIPPED_KEYS {
        SortKeepsEntries(skipped);
        skipped := SortBySeq(skipped);
        skipped := skipped[1..];
      }
    }

    method StoreSkippedKey(seqno: nat, key: Bytes)
      modifies this
      ensures Value() == old(Value()).(table := Stored(old(skipped), seqno, key))
    {
      hide SortBySeq, PrunedTable;
      for i := 0 to |skipped|
        invariant forall j :: 0 <= j < i ==> skipped[j].seqno != seqno
        invariant Value() == old(Value())
      {
        if skipped[i].seqno == seqno {
          return;
        }
      }
      skipped := skipped + [Entry(seqno, key)];
      PruneSkippedKeys();
    }

    method GetMessageKey(seqno: nat) returns (key: Option<Bytes>)
      ensures key == Lookup(skipped, seqno)
    {
      var i := 0;
      while i < |skipped|
        invariant 0 <= i <= |skipped|
        invariant Lookup(skipped, seqno) == Lookup(skipped[i..], seqno)
      {
        if skipped[i].seqno == seqno {
          return Some(skipped[i].key);
        }
        i := i + 1;
      }
      return None;
    }

    method AdvanceSendChain(combined: Bytes)
      modifies this
      ensures Value() == AdvancedSend(suite, old(Value()), combined)
    {
      hide Stored;
      var (msgKey, newChain) := MessageKey(suite, sendChainKey, combined);
      StoreSkippedKey(sendSeq, msgKey);
      sendChainKey := newChain;
      sendSeq := sendSeq + 1;
    }

    method AdvanceRecvChain(combined: Bytes)
      modifies this
      ensures Value() == AdvancedRecv(suite, old(Value()), combined)
    {
      hide Stored;
      var (msgKey, newChain) := MessageKey(suite, recvChainKey, combined);
      StoreSkippedKey(recvSeq, msgKey);
      recvChainKey := newChain;
      recvSeq := recvSeq + 1;
    }

    /** The catch-up loop both receiving calls share. */
    method AdvancePast(seqno: nat, combined: Bytes)
      modifies this
      ensures Value() == AdvancedPast(suite, old(Value()), seqno, combined)
    {
      hide AdvancedPast;
      ghost var target := AdvancedPast(suite, Value(), seqno, combined);
      while recvSeq <= seqno
        invariant AdvancedPast(suite, Value(), seqno, combined) == target
        decreases seqno + 1 - recvSeq
      {
        AdvanceUnfolds(suite, Value(), seqno, combined);
        AdvanceRecvChain(combined);
      }
      AdvanceUnfolds(suite, Value(), seqno, combined);
    }

    method EncryptMessage(plaintext: Bytes, combined: Bytes, random: Nonce) returns (r: PqResult<Sealed>)
      modifies this
      ensures (Value(), r) == Encrypted(suite, old(Value()), plaintext, combined, random)
    {
      hide Stored, Lookup, XorByte;
      AdvanceSendChain(combined);
      var key := GetMessageKey(sendSeq - 1);
      if key.None? {
        return Err(MissingKey);
      }
      var nonce, epochByte := random, rootKey[0];
      nonce := nonce[0 := XorByte(nonce[0], epochByte)];
      nonce := nonce[1 := XorByte(nonce[1], epochByte)];
      assert nonce == MixedNonce(random, rootKey);
      r := Ok(Sealed(suite.seal(key.value, nonce, plaintext), nonce));
    }

    method DecryptMessage(seqno: nat, combined: Bytes, nonce: Bytes, ciphertext: Bytes) returns (r: PqResult<Bytes>)
      modifies this
      ensures (Value(), r) == Decrypted(suite, old(Value()), seqno, combined, nonce, ciphertext)
    {
      hide AdvancedPast, Lookup;
      if seqno - recvSeq > MAX_SKIP_AHEAD {
        return Err(GapTooLarge);
      }
      AdvancePast(seqno, combined);
      var key := GetMessageKey(seqno);
      if key.None? {
        return Err(MissingKey);
      }
      var pt := suite.open(key.value, nonce, ciphertext);
      r := if pt.Some? then Ok(pt.value) else Err(AuthFailure);
    }
  }

  /** The compatibility wrapper: its decrypt_message hands out the message key instead of decrypting. */
  class PqDoubleRatchet {
    const inner: KemRatchetState

    constructor (state: KemRatchetState)
      ensures inner == state
    {
      inner := state;
    }

    method DecryptMessage(seqno: nat, combined: Bytes) returns (r: PqResult<Bytes>)
      modifies inner
      ensures (inner.Value(), r) == KeyFor(inner.suite, old(inner.Value()), seqno, combined)
    {
      hide AdvancedPast, Lookup;
      if seqno - inner.recvSeq > MAX_SKIP_AHEAD {
        return Err(GapTooLarge);
      }
      inner.AdvancePast(seqno, combined);
      var key := inner.GetMessageKey(seqno);
      r := if key.Some? then Ok(key.value) else Err(MissingKey);
    }
  }

  // ----- The key window of a one-directional session

  function ChainAt(c: Suite, start: Bytes, combined: Bytes, n: nat): Bytes
    decreases n
  {
    if n == 0 then start else MessageKey(c, ChainAt(c, start, combined, n - 1), combined).1
  }

  function KeyAt(c: Suite, start: Bytes, combined: Bytes, n: nat): Bytes {
    MessageKey(c, ChainAt(c, start, combined, n), combined).0
  }

  /** The keys of the last min(n, 1024) indices before n, in order. */
  function Window(c: Suite, start: Bytes, combined: Bytes, n: nat): Table {
    var size := if n < MAX_SKIPPED_KEYS then n else MAX_SKIPPED_KEYS;
    seq(size, i requires 0 <= i < size => Entry(n - size + i, KeyAt(c, start, combined, n - size + i)))
  }

  lemma StoreNext(c: Suite, start: Bytes, combined: Bytes, n: nat)
    ensures Stored(Window(c, start, combined, n), n, KeyAt(c, start, combined, n)) == Window(c, start, combined, n + 1)
  {
    hide KeyAt, SortBySeq;
    var longer := Window(c, start, combined, n) + [Entry(n, KeyAt(c, start, combined, n))];
    if n >= MAX_SKIPPED_KEYS {
      SortedStays(longer);
    }
  }

  lemma {:induction false} LookupAt(table: Table, i: nat, seqno: nat)
    requires i <= |table|
    requires forall j :: 0 <= j < i ==> table[j].seqno != seqno
    ensures Lookup(table, seqno)
            == if i == |table| then None
               else if table[i].seqno == seqno then Some(table[i].key)
               else Lookup(table[i + 1..], seqno)
  {
    if i > 0 {
      LookupAt(table[1..], i - 1, seqno);
    }
  }

  lemma LookupWindow(c: Suite, start: Bytes, combined: Bytes, n: nat, seqno: nat)
    ensures Lookup(Window(c, start, combined, n), seqno)
            == if seqno < n <= seqno + MAX_SKIPPED_KEYS then Some(KeyAt(c, start, combined, seqno)) else None
  {
    hide KeyAt, Lookup;
    var w := Window(c, start, combined, n);
    if seqno < n <= seqno + MAX_SKIPPED_KEYS {
      LookupAt(w, seqno - (n - |w|), seqno);
    } else {
      LookupAt(w, |w|, seqno);
    }
  }

  /** The receiving side is at step recvSeq of the chain and its table is exactly the window. */
  ghost predicate Receiving(c: Suite, start: Bytes, combined: Bytes, s: Chains) {
    s.recvChainKey == ChainAt(c, start, combined, s.recvSeq) && s.table == Window(c, start, combined, s.recvSeq)
  }

  lemma {:induction false} AdvanceKeepsWindow(c: Suite, start: Bytes, combined: Bytes, s: Chains, seqno: nat)
    requires Receiving(c, start, combined, s)
    ensures var after := AdvancedPast(c, s, seqno, combined);
            && Receiving(c, start, combined, after)
            && after.recvSeq == if s.recvSeq <= seqno then seqno + 1 else s.recvSeq
    decreases seqno + 1 - s.recvSeq
  {
    hide AdvancedPast, Stored, Window;
    AdvanceUnfolds(c, s, seqno, combined);
    if s.recvSeq <= seqno {
      StoreNext(c, start, combined, s.recvSeq);
      AdvanceKeepsWindow(c, start, combined, AdvancedRecv(c, s, combined), seqno);
    }
  }

  /** In the window invariant, a receiving call gets the sender's key for `seqno` exactly when the index is at most
      1024 ahead and at most 1024 behind; the other two answers say on which side it fell out.  The invariant is
      kept in every case. */
  lemma KeyForExactly(c: Suite, start: Bytes, combined: Bytes, s: Chains, seqno: nat)
    requires Receiving(c, start, combined, s)
    ensures var (after, r) := KeyFor(c, s, seqno, combined);
            && Receiving(c, start, combined, after)
            && (r == Ok(KeyAt(c, start, combined, seqno)) <==>
                seqno - s.recvSeq <= MAX_SKIP_AHEAD && s.recvSeq - seqno <= MAX_SKIPPED_KEYS)
            && (r.Ok? ==> r.value == KeyAt(c, start, combined, seqno))
            && (seqno - s.recvSeq > MAX_SKIP_AHEAD ==> r == Err(GapTooLarge) && after == s)
            && (s.recvSeq - seqno > MAX_SKIPPED_KEYS ==> r == Err(MissingKey) && after == s)
  {
    hide AdvancedPast, Window, Lookup, KeyAt, ChainAt;
    if seqno - s.recvSeq <= MAX_SKIP_AHEAD {
      AdvanceKeepsWindow(c, start, combined, s, seqno);
      AdvanceUnfolds(c, s, seqno, combined);
      LookupWindow(c, start, combined, AdvancedPast(c, s, seqno, combined).recvSeq, seqno);
    }
  }

  /** One decrypt call of a run; the ciphertext may be anything. */
  datatype Call = Call(seqno: nat, nonce: Bytes, ciphertext: Bytes)

  function AfterCalls(c: Suite, s: Chains, combined: Bytes, calls: seq<Call>): Chains
    decreases |calls|
  {
    if calls == [] then s
    else
      var last := calls[|calls| - 1];
      var before := AfterCalls(c, s, combined, calls[..|calls| - 1]);
      Decrypted(c, before, last.seqno, combined, last.nonce, last.ciphertext).0
  }

  /** After any run of decrypt calls, rejected ciphertexts included, the table holds exactly the keys of the last
      min(recvSeq, 1024) indices. */
  lemma {:induction false} RunKeepsWindow(c: Suite, root: Key, send: Bytes, start: Bytes, combined: Bytes, calls: seq<Call>)
    ensures Receiving(c, start, combined, AfterCalls(c, FreshChains(root, send, start), combined, calls))
    decreases |calls|
  {
    hide KeyFor;
    if calls == [] {
      assert Window(c, start, combined, 0) == [];
    } else {
      hide Receiving;
      var last := |calls| - 1;
      RunKeepsWindow(c, root, send, start, combined, calls[..last]);
      var before := AfterCalls(c, FreshChains(root, send, start), combined, calls[..last]);
      KeyForExactly(c, start, combined, before, calls[last].seqno);
    }
  }

  // ----- The sending side

  ghost predicate Sending(c: Suite, start: Bytes, combined: Bytes, s: Chains) {
    s.sendChainKey == ChainAt(c, start, combined, s.sendSeq) && s.table == Window(c, start, combined, s.sendSeq)
  }

  /** A sender that only sends seals message n under key n of its chain. */
  lemma EncryptUsesNextKey(c: Suite, start: Bytes, combined: Bytes, s: Chains, plaintext: Bytes, random: Nonce)
    requires Sending(c, start, combined, s)
    ensures var (after, r) := Encrypted(c, s, plaintext, combined, random);
            && r == Ok(SealedUnder(c, KeyAt(c, start, combined, s.sendSeq), plaintext, MixedNonce(random, s.rootKey)))
            && Sending(c, start, combined, after) && after.sendSeq == s.sendSeq + 1 && after.rootKey == s.rootKey
  {
    hide Stored, Window, Lookup, MixedNonce;
    StoreNext(c, start, combined, s.sendSeq);
    LookupWindow(c, start, combined, s.sendSeq + 1, s.sendSeq);
  }

  datatype Text = Text(plaintext: Bytes, random: Nonce)

  /** What is sent for a text under `key`. */
  function SealedText(c: Suite, root: Key, key: Bytes, text: Text): Sealed {
    SealedUnder(c, key, text.plaintext, MixedNonce(text.random, root))
  }

  /** The sender after encrypting `texts` in order, and its ciphertexts. */
  function SendAll(c: Suite, s: Chains, combined: Bytes, texts: seq<Text>): (Chains, seq<PqResult<Sealed>>)
    decreases |texts|
  {
    if texts == [] then (s, [])
    else
      var last := |texts| - 1;
      var (before, out) := SendAll(c, s, combined, texts[..last]);
      var (after, r) := Encrypted(c, before, texts[last].plaintext, combined, texts[last].random);
      (after, out + [r])
  }

  lemma SendAllUnfolds(c: Suite, s: Chains, combined: Bytes, texts: seq<Text>)
    ensures texts == [] ==> SendAll(c, s, combined, texts) == (s, [])
    ensures texts != [] ==>
              var last := |texts| - 1;
              var before := SendAll(c, s, combined, texts[..last]);
              var e := Encrypted(c, before.0, texts[last].plaintext, combined, texts[last].random);
              SendAll(c, s, combined, texts) == (e.0, before.1 + [e.1])
  {
    hide Encrypted;
  }

  lemma {:induction false} SendAllState(c: Suite, root: Key, start: Bytes, recv: Bytes, combined: Bytes, texts: seq<Text>)
    ensures var (after, out) := SendAll(c, FreshChains(root, start, recv), combined, texts);
            Sending(c, start, combined, after) && after.sendSeq == |texts| == |out| && after.rootKey == root
    decreases |texts|
  {
    var s := FreshChains(root, start, recv);
    SendAllUnfolds(c, s, combined, texts);
    hide SendAll, Encrypted, MessageKey;
    if texts == [] {
      assert Window(c, start, combined, 0) == [];
    } else {
      hide Sending;
      var last := |texts| - 1;
      SendAllState(c, root, start, recv, combined, texts[..last]);
      EncryptUsesNextKey(c, start, combined, SendAll(c, s, combined, texts[..last]).0, texts[last].plaintext, texts[last].random);
    }
  }

  lemma SendLastKey(c: Suite, root: Key, start: Bytes, recv: Bytes, combined: Bytes, texts: seq<Text>)
    requires texts != []
    ensures var out := SendAll(c, FreshChains(root, start, recv), combined, texts).1;
            var last := |texts| - 1;
            |out| == |texts| && out[last] == Ok(SealedText(c, root, KeyAt(c, start, combined, last), texts[last]))
  {
    var s, last := FreshChains(root, start, recv), |texts| - 1;
    SendAllUnfolds(c, s, combined, texts);
    SendAllState(c, root, start, recv, combined, texts[..last]);
    hide SendAll, Encrypted, KeyAt, Sending;
    EncryptUsesNextKey(c, start, combined, SendAll(c, s, combined, texts[..last]).0, texts[last].plaintext, texts[last].random);
  }

  /** Ciphertext i of a sender's run is sealed under key i of its chain, with the mixed nonce. */
  lemma {:induction false} SendAllKeys(c: Suite, root: Key, start: Bytes, recv: Bytes, combined: Bytes, texts: seq<Text>, i: nat)
    requires i < |texts|
    ensures var out := SendAll(c, FreshChains(root, start, recv), combined, texts).1;
            |out| == |texts| && out[i] == Ok(SealedText(c, root, KeyAt(c, start, combined, i), texts[i]))
    decreases |texts|
  {
    hide SendAll, Encrypted, KeyAt, Sending;
    var last := |texts| - 1;
    if i < last {
      SendAllUnfolds(c, FreshChains(root, start, recv), combined, texts);
      SendAllState(c, root, start, recv, combined, texts);
      SendAllKeys(c, root, start, recv, combined, texts[..last], i);
    } else {
      SendLastKey(c, root, start, recv, combined, texts);
    }
  }

  /** End to end in one direction: after any run of decrypt calls, the ciphertext of message i, given under its own
      index, decrypts to its text exactly when i is within the window; and the wrapper hands out the key that the
      sender used exactly then. */
  lemma WindowDelivery(c: Suite, root: Key, peerRoot: Key, start: Bytes, other: Bytes, combined: Bytes,
                       texts: seq<Text>, calls: seq<Call>, i: nat)
    requires c.Lawful() && i < |texts|
    ensures var out := SendAll(c, FreshChains(root, start, other), combined, texts).1;
            var s := AfterCalls(c, FreshChains(peerRoot, other, start), combined, calls);
            var inWindow := i - s.recvSeq <= 1024 && s.recvSeq - i <= 1024;
            && |out| == |texts| && out[i].Ok?
            && (Decrypted(c, s, i, combined, out[i].value.nonce, out[i].value.ciphertext).1 == Ok(texts[i].plaintext)
                <==> inWindow)
            && (KeyFor(c, s, i, combined).1 == Ok(KeyAt(c, start, combined, i)) <==> inWindow)
  {
    hide KeyFor, KeyAt, SendAll, AfterCalls, Receiving, Sending, MixedNonce;
    SendAllKeys(c, root, start, other, combined, texts, i);
    RunKeepsWindow(c, peerRoot, other, start, combined, calls);
    var s := AfterCalls(c, FreshChains(peerRoot, other, start), combined, calls);
    KeyForExactly(c, start, combined, s, i);
    var key, nonce := KeyAt(c, start, combined, i), MixedNonce(texts[i].random, root);
    assert c.open(key, nonce, c.seal(key, nonce, texts[i].plaintext)) == Some(texts[i].plaintext);
  }
}
