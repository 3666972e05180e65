/** Bins of the blind contact registry and the masked response scan (crypto/src/pir.rs). */
module Pir {
  import opened Wrappers

  const PIR_ENTRY_SIZE: nat := 224
  const PIR_MAX_ENTRIES_PER_BIN: nat := 18
  const PIR_BIN_SIZE: nat := PIR_ENTRY_SIZE * PIR_MAX_ENTRIES_PER_BIN
  const HASH_SIZE: nat := 32

  /** A contact entry: its hash and its padded bytes. */
  datatype ContactEntry = ContactEntry(hash: seq<bv8>, bytes: seq<bv8>)

  function Zeros(n: nat): (z: seq<bv8>)
    ensures |z| == n && IsZero(z)
  {
    seq(n, _ => 0)
  }

  predicate IsZero(s: seq<bv8>) {
    forall i :: 0 <= i < |s| ==> s[i] == 0
  }

  /** PirContactEntry::new: the hash, as much metadata as fits, zero padding. */
  function NewEntry(hash: seq<bv8>, metadata: seq<bv8>): (e: ContactEntry)
    requires |hash| == HASH_SIZE
    ensures |e.bytes| == PIR_ENTRY_SIZE && e.bytes[..HASH_SIZE] == hash == e.hash
    ensures forall j :: 32 <= j < 224 ==> e.bytes[j] == if j - 32 < |metadata| then metadata[j - 32] else 0
    ensures !IsZero(hash) ==> !IsZero(e.bytes)
  {
    var room := PIR_ENTRY_SIZE - HASH_SIZE;
    var meta := if |metadata| < room then metadata else metadata[..room];
    var bytes := hash + meta + Zeros(room - |meta|);
    assert bytes[..HASH_SIZE] == hash;
    assert !IsZero(hash) ==> exists i :: 0 <= i < |hash| && bytes[i] != 0;
    ContactEntry(hash, bytes)
  }

  function FromBytes(bytes: seq<bv8>): ContactEntry
    requires |bytes| == PIR_ENTRY_SIZE
  {
    ContactEntry(bytes[..HASH_SIZE], bytes)
  }

  // ----- Bins

  function Slot(bin: seq<bv8>, i: nat): (s: seq<bv8>)
    requires (i + 1) * PIR_ENTRY_SIZE <= |bin|
    ensures |s| == PIR_ENTRY_SIZE
  {
    bin[i * PIR_ENTRY_SIZE..(i + 1) * PIR_ENTRY_SIZE]
  }

  /** The first all-zero slot from i on, or 18. */
  function FirstEmpty(bin: seq<bv8>, i: nat): (k: nat)
    requires |bin| == PIR_BIN_SIZE && i <= PIR_MAX_ENTRIES_PER_BIN
    ensures i <= k <= PIR_MAX_ENTRIES_PER_BIN
    decreases PIR_MAX_ENTRIES_PER_BIN - i
  {
    if i == PIR_MAX_ENTRIES_PER_BIN || IsZero(Slot(bin, i)) then i else FirstEmpty(bin, i + 1)
  }

  function Overwritten(bin: seq<bv8>, i: nat, entry: seq<bv8>): (r: seq<bv8>)
    requires |bin| == PIR_BIN_SIZE && i < PIR_MAX_ENTRIES_PER_BIN && |entry| == PIR_ENTRY_SIZE
    ensures |r| == |bin|
  {
    bin[..i * PIR_ENTRY_SIZE] + entry + bin[(i + 1) * PIR_ENTRY_SIZE..]
  }

  /** add_entry on one bin: the new contents, and whether there was room. */
  function Added(bin: seq<bv8>, entry: seq<bv8>): (r: (seq<bv8>, bool))
    requires |bin| == PIR_BIN_SIZE && |entry| == PIR_ENTRY_SIZE
    ensures |r.0| == PIR_BIN_SIZE
  {
    var i := FirstEmpty(bin, 0);
    if i < PIR_MAX_ENTRIES_PER_BIN then (Overwritten(bin, i, entry), true) else (bin, false)
  }

  method SlotIsZero(bin: array<bv8>, i: nat) returns (zero: bool)
    requires bin.Length == PIR_BIN_SIZE && i < PIR_MAX_ENTRIES_PER_BIN
    ensures zero <==> IsZero(Slot(bin[..], i))
  {
    var from := i * PIR_ENTRY_SIZE;
    ghost var slot := Slot(bin[..], i);
    for j := 0 to PIR_ENTRY_SIZE
      invariant forall k :: 0 <= k < j ==> slot[k] == 0
    {
      assert slot[j] == bin[from + j];
      if bin[from + j] != 0 {
        return false;
      }
    }
    return true;
  }

  method WriteSlot(bin: array<bv8>, i: nat, entry: seq<bv8>)
    requires bin.Length == PIR_BIN_SIZE && i < PIR_MAX_ENTRIES_PER_BIN && |entry| == PIR_ENTRY_SIZE
    modifies bin
    ensures bin[..] == Overwritten(old(bin[..]), i, entry)
  {
    var from := i * PIR_ENTRY_SIZE;
    for j := 0 to PIR_ENTRY_SIZE
      invariant forall k :: 0 <= k < j ==> bin[from + k] == entry[k]
      invariant forall k :: 0 <= k < bin.Length && !(from <= k < from + j) ==> bin[k] == old(bin[k])
    {
      bin[from + j] := entry[j];
    }
    assert bin[..from] == old(bin[..])[..from];
    assert bin[from..from + PIR_ENTRY_SIZE] == entry;
    assert bin[from + PIR_ENTRY_SIZE..] == old(bin[..])[from + PIR_ENTRY_SIZE..];
    assert bin[..] == bin[..from] + bin[from..from + PIR_ENTRY_SIZE] + bin[from + PIR_ENTRY_SIZE..];
  }

  /** Overwrites the first all-zero slot in place. */
  method AddToBin(bin: array<bv8>, entry: seq<bv8>) returns (ok: bool)
    requires bin.Length == PIR_BIN_SIZE && |entry| == PIR_ENTRY_SIZE
    modifies bin
    ensures (bin[..], ok) == Added(old(bin[..]), entry)
  {
    hide Slot, Overwritten, IsZero;
    var i := 0;
    while i < PIR_MAX_ENTRIES_PER_BIN
      invariant i <= PIR_MAX_ENTRIES_PER_BIN && bin[..] == old(bin[..])
      invariant FirstEmpty(old(bin[..]), i) == FirstEmpty(old(bin[..]), 0)
    {
      var zero := SlotIsZero(bin, i);
      if zero {
        WriteSlot(bin, i, entry);
        return true;
      }
      i := i + 1;
    }
    return false;
  }

  // ----- The registry

  /** The bins of a registry by index. */
  type Bins = map<nat, seq<bv8>>

  datatype Call = Call(bin: nat, entry: ContactEntry)

  ghost predicate WellSized(bins: Bins) {
    forall i :: i in bins ==> |bins[i]| == PIR_BIN_SIZE
  }

  /** A bin's bytes; one never written counts as zeros. */
  function BinOf(bins: Bins, i: nat): seq<bv8> { if i in bins then bins[i] else Zeros(PIR_BIN_SIZE) }

  /** add_entry on a registry. */
  function Stepped(bins: Bins, call: Call): (r: (Bins, bool))
    requires WellSized(bins) && |call.entry.bytes| == PIR_ENTRY_SIZE
    ensures WellSized(r.0)
  {
    var (after, ok) := Added(BinOf(bins, call.bin), call.entry.bytes);
    (bins[call.bin := after], ok)
  }

  class PirRegistry {
    var bins: map<nat, array<bv8>>

    ghost predicate Valid()
      reads this
    {
      && (forall i :: i in bins ==> bins[i].Length == PIR_BIN_SIZE)
      && forall i, j :: i in bins && j in bins && i != j ==> bins[i] != bins[j]
    }

    ghost function Contents(): (s: Bins)
      requires Valid()
      reads this, bins.Values
      ensures WellSized(s)
    {
      map i | i in bins :: bins[i][..]
    }

    constructor ()
      ensures Valid() && Contents() == map[]
    {
      bins := map[];
    }

    method AddEntry(binIndex: nat, entry: ContactEntry) returns (ok: bool)
      requires Valid() && |entry.bytes| == PIR_ENTRY_SIZE
      modifies this, bins.Values
      ensures Valid() && (Contents(), ok) == Stepped(old(Contents()), Call(binIndex, entry))
    {
      hide Added;
      ghost var before := Contents();
      if binIndex !in bins {
        var bin := new bv8[PIR_BIN_SIZE](_ => 0);
        assert bin[..] == Zeros(PIR_BIN_SIZE);
        bins := bins[binIndex := bin];
      }
      assert bins[binIndex][..] == BinOf(before, binIndex);
      ok := AddToBin(bins[binIndex], entry.bytes);
      assert Contents() == before[binIndex := bins[binIndex][..]];
    }
  }

  // ----- Responses

  function Smaller(a: nat, b: nat): nat { if a < b then a else b }

  function XorApply(data: seq<bv8>, mask: seq<bv8>): (r: seq<bv8>)
    ensures |r| == Smaller(|data|, |mask|)
  {
    seq(Smaller(|data|, |mask|), i requires 0 <= i < Smaller(|data|, |mask|) => data[i] ^ mask[i])
  }

  /** The first whole chunk from i on whose hash is the target. */
  function FirstMatch(data: seq<bv8>, target: seq<bv8>, i: nat): Option<ContactEntry>
    decreases |data| - i * PIR_ENTRY_SIZE
  {
    if (i + 1) * PIR_ENTRY_SIZE > |data| then None
    else if Slot(data, i)[..HASH_SIZE] == target then Some(FromBytes(Slot(data, i)))
    else FirstMatch(data, target, i + 1)
  }

  method ProcessResponse(binData: seq<bv8>, mask: seq<bv8>, target: seq<bv8>) returns (r: Option<ContactEntry>)
    ensures r == FirstMatch(XorApply(binData, mask), target, 0)
  {
    hide XorApply;
    var masked := XorApply(binData, mask);
    var from, i := 0, 0;
    while from < |masked|
      invariant from == i * PIR_ENTRY_SIZE
      invariant FirstMatch(masked, target, i) == FirstMatch(masked, target, 0)
      decreases |masked| - from
    {
      var end := Smaller(from + PIR_ENTRY_SIZE, |masked|);
      var chunk := masked[from..end];
      if |chunk| == PIR_ENTRY_SIZE {
        assert chunk == Slot(masked, i);
        if chunk[..HASH_SIZE] == target {
          return Some(FromBytes(chunk));
        }
      }
      i := i + 1;
      from := from + PIR_ENTRY_SIZE;
    }
    return None;
  }

  // ----- What a bin holds

  /** The bin is exactly the entries in order, followed by zeros. */
  ghost predicate BinHolds(bin: seq<bv8>, entries: seq<seq<bv8>>) {
    && |bin| == PIR_BIN_SIZE && |entries| <= PIR_MAX_ENTRIES_PER_BIN
    && (forall i :: 0 <= i < |entries| ==> |entries[i]| == PIR_ENTRY_SIZE && Slot(bin, i) == entries[i])
    && forall i :: |entries| <= i < PIR_MAX_ENTRIES_PER_BIN ==> IsZero(Slot(bin, i))
  }

  lemma OverwrittenSlots(bin: seq<bv8>, i: nat, entry: seq<bv8>, k: nat)
    requires |bin| == PIR_BIN_SIZE && i < PIR_MAX_ENTRIES_PER_BIN && |entry| == PIR_ENTRY_SIZE
    requires k < PIR_MAX_ENTRIES_PER_BIN
    ensures Slot(Overwritten(bin, i, entry), k) == if k == i then entry else Slot(bin, k)
  {
    var r := Overwritten(bin, i, entry);
    if k == i {
      assert r[i * PIR_ENTRY_SIZE..(i + 1) * PIR_ENTRY_SIZE] == entry;
    } else {
      forall j | 0 <= j < PIR_ENTRY_SIZE
        ensures Slot(r, k)[j] == Slot(bin, k)[j]
      {
        assert k < i ==> k * PIR_ENTRY_SIZE + j < i * PIR_ENTRY_SIZE;
      }
    }
  }

  lemma {:induction false} FirstEmptyIs(bin: seq<bv8>, i: nat, k: nat)
    requires |bin| == PIR_BIN_SIZE && i <= k <= PIR_MAX_ENTRIES_PER_BIN
    requires forall j :: i <= j < k ==> !IsZero(Slot(bin, j))
    requires k < PIR_MAX_ENTRIES_PER_BIN ==> IsZero(Slot(bin, k))
    ensures FirstEmpty(bin, i) == k
    decreases k - i
  {
    hide IsZero, Slot;
    if i < k {
      FirstEmptyIs(bin, i + 1, k);
    }
  }

  /** Adding an entry appends it while fewer than 18 are present, and is refused after that. */
  lemma AddAppends(bin: seq<bv8>, entries: seq<seq<bv8>>, entry: seq<bv8>)
    requires BinHolds(bin, entries) && (forall i :: 0 <= i < |entries| ==> !IsZero(entries[i]))
    requires |entry| == PIR_ENTRY_SIZE
    ensures var (after, ok) := Added(bin, entry);
            && (ok <==> |entries| < PIR_MAX_ENTRIES_PER_BIN)
            && (ok ==> BinHolds(after, entries + [entry]))
            && (!ok ==> after == bin)
  {
    hide Slot, Overwritten, IsZero, FirstEmpty;
    FirstEmptyIs(bin, 0, |entries|);
    if |entries| < PIR_MAX_ENTRIES_PER_BIN {
      forall k: nat | k < PIR_MAX_ENTRIES_PER_BIN
        ensures Slot(Overwritten(bin, |entries|, entry), k) == if k == |entries| then entry else Slot(bin, k)
      {
        OverwrittenSlots(bin, |entries|, entry, k);
      }
    }
  }

  /** A bin after a sequence of add_entry calls, starting from no bin, and the answers. */
  function AddAll(entries: seq<ContactEntry>): (r: (seq<bv8>, seq<bool>))
    requires forall i :: 0 <= i < |entries| ==> |entries[i].bytes| == PIR_ENTRY_SIZE
    ensures |r.0| == PIR_BIN_SIZE && |r.1| == |entries|
    decreases |entries|
  {
    if entries == [] then (Zeros(PIR_BIN_SIZE), [])
    else
      var (bin, oks) := AddAll(entries[..|entries| - 1]);
      var (after, ok) := Added(bin, entries[|entries| - 1].bytes);
      (after, oks + [ok])
  }

  function BytesOf(entries: seq<ContactEntry>): (b: seq<seq<bv8>>)
    ensures |b| == |entries|
  {
    seq(|entries|, i requires 0 <= i < |entries| => entries[i].bytes)
  }

  /** The entries a bin accepted: the first 18. */
  function Kept(entries: seq<ContactEntry>): seq<ContactEntry> {
    entries[..Smaller(|entries|, PIR_MAX_ENTRIES_PER_BIN)]
  }

  /** An entry as PirContactEntry::new builds it, with a nonzero hash. */
  ghost predicate ProperEntry(e: ContactEntry) {
    |e.bytes| == PIR_ENTRY_SIZE && e.bytes[..HASH_SIZE] == e.hash && !IsZero(e.bytes)
  }

  ghost predicate Proper(entries: seq<ContactEntry>) {
    forall i :: 0 <= i < |entries| ==> ProperEntry(entries[i])
  }

  /** After any calls with proper entries the bin is exactly the first 18 in order, zeros after them; call k succeeds
      exactly when fewer than 18 entries came before it. */
  lemma {:induction false} BinLayout(entries: seq<ContactEntry>)
    requires Proper(entries)
    ensures var (bin, oks) := AddAll(entries);
            && BinHolds(bin, BytesOf(Kept(entries)))
            && forall k :: 0 <= k < |entries| ==> (oks[k] <==> k < PIR_MAX_ENTRIES_PER_BIN)
    decreases |entries|
  {
    hide IsZero, Slot, Added;
    if entries == [] {
      EmptyBin();
    } else {
      var init := entries[..|entries| - 1];
      BinLayout(init);
      var bin := AddAll(init).0;
      AddAppends(bin, BytesOf(Kept(init)), entries[|entries| - 1].bytes);
      if |init| < PIR_MAX_ENTRIES_PER_BIN {
        assert BytesOf(Kept(entries)) == BytesOf(Kept(init)) + [entries[|entries| - 1].bytes];
      } else {
        assert Kept(entries) == Kept(init);
      }
    }
  }

  lemma EmptyBin()
    ensures BinHolds(Zeros(PIR_BIN_SIZE), [])
  {
    forall i: nat | i < PIR_MAX_ENTRIES_PER_BIN
      ensures IsZero(Slot(Zeros(PIR_BIN_SIZE), i))
    {
      forall j | 0 <= j < PIR_ENTRY_SIZE
        ensures Slot(Zeros(PIR_BIN_SIZE), i)[j] == 0
      {
        assert Slot(Zeros(PIR_BIN_SIZE), i)[j] == Zeros(PIR_BIN_SIZE)[i * PIR_ENTRY_SIZE + j];
      }
    }
  }

  lemma XorTwice(data: seq<bv8>, mask: seq<bv8>)
    requires |data| <= |mask|
    ensures XorApply(XorApply(data, mask), mask) == data
  {
    var r := XorApply(XorApply(data, mask), mask);
    forall i | 0 <= i < |data|
      ensures r[i] == data[i]
    {
      XorCancels(data[i], mask[i]);
    }
  }

  /** One mask turns given data into a given answer of the same length: so a masked bin shows nothing of its contents
      to those who do not know the mask. */
  lemma OneMaskFits(data: seq<bv8>, mask: seq<bv8>, answer: seq<bv8>)
    requires |data| == |mask| == |answer|
    ensures XorApply(data, mask) == answer <==> mask == XorApply(data, answer)
  {
    hide XorApply;
    XorBack(data, mask);
    XorBack(data, answer);
  }

  lemma XorBack(data: seq<bv8>, mask: seq<bv8>)
    requires |data| == |mask|
    ensures XorApply(data, XorApply(data, mask)) == mask
  {
    var r := XorApply(data, XorApply(data, mask));
    forall i | 0 <= i < |data|
      ensures r[i] == mask[i]
    {
      XorCancelsLeft(data[i], mask[i]);
    }
  }

  lemma XorCancelsLeft(a: bv8, m: bv8)
    ensures a ^ (a ^ m) == m
  {}

  /** A mask changes a byte exactly in the bits it has. */
  lemma MaskedBits(data: seq<bv8>, mask: seq<bv8>, i: nat, bit: bv8)
    requires i < |data| == |mask| && bit in {1, 2, 4, 8, 16, 32, 64, 128}
    ensures XorApply(data, mask)[i] & bit == data[i] & bit <==> mask[i] & bit == 0
  {
    BitChanges(data[i], mask[i], bit);
  }

  lemma BitChanges(a: bv8, m: bv8, bit: bv8)
    ensures (a ^ m) & bit == a & bit <==> m & bit == 0
  {}

  lemma XorCancels(a: bv8, m: bv8)
    ensures (a ^ m) ^ m == a
  {}

  /** The earliest entry with the hash, or none. */
  function Earliest(entries: seq<ContactEntry>, target: seq<bv8>, i: nat): Option<ContactEntry>
    requires i <= |entries|
    decreases |entries| - i
  {
    if i == |entries| then None
    else if entries[i].hash == target then Some(entries[i])
    else Earliest(entries, target, i + 1)
  }

  lemma {:induction false} ScanFinds(bin: seq<bv8>, entries: seq<ContactEntry>, target: seq<bv8>, i: nat)
    requires Proper(entries) && BinHolds(bin, BytesOf(entries))
    requires |target| == HASH_SIZE && !IsZero(target)
    requires i <= PIR_MAX_ENTRIES_PER_BIN
    ensures FirstMatch(bin, target, i) == if i < |entries| then Earliest(entries, target, i) else None
    decreases PIR_MAX_ENTRIES_PER_BIN - i
  {
    hide Slot;
    if i < PIR_MAX_ENTRIES_PER_BIN {
      ScanFinds(bin, entries, target, i + 1);
      if i < |entries| {
        assert Slot(bin, i) == BytesOf(entries)[i];
      } else {
        var s := Slot(bin, i);
        assert forall j :: 0 <= j < HASH_SIZE ==> s[..HASH_SIZE][j] == s[j];
      }
    }
  }

  /** A lookup of a nonzero hash in a bin of proper entries, masked and unmasked with one mask: the earliest accepted
      entry with that hash, or none exactly when there is none. */
  lemma MaskedLookup(entries: seq<ContactEntry>, mask: seq<bv8>, target: seq<bv8>)
    requires Proper(entries) && |mask| >= PIR_BIN_SIZE && |target| == HASH_SIZE && !IsZero(target)
    ensures FirstMatch(XorApply(XorApply(AddAll(entries).0, mask), mask), target, 0) == Earliest(Kept(entries), target, 0)
  {
    hide FirstMatch, XorApply, AddAll, IsZero, Earliest;
    BinLayout(entries);
    XorTwice(AddAll(entries).0, mask);
    ScanFinds(AddAll(entries).0, Kept(entries), target, 0);
    NothingEarliest(target);
  }

  // ----- Runs of a registry

  ghost predicate ProperCalls(calls: seq<Call>) {
    forall k :: 0 <= k < |calls| ==> ProperEntry(calls[k].entry)
  }

  /** A new registry after a sequence of add_entry calls to any bins, and the answers. */
  function RegistryAfter(calls: seq<Call>): (r: (Bins, seq<bool>))
    requires forall k :: 0 <= k < |calls| ==> |calls[k].entry.bytes| == PIR_ENTRY_SIZE
    ensures WellSized(r.0) && |r.1| == |calls|
    decreases |calls|
  {
    if calls == [] then (map[], [])
    else
      var (bins, oks) := RegistryAfter(calls[..|calls| - 1]);
      var (after, ok) := Stepped(bins, calls[|calls| - 1]);
      (after, oks + [ok])
  }

  /** The entries among the first n calls that were meant for bin i. */
  function SentTo(calls: seq<Call>, n: nat, i: nat): (e: seq<ContactEntry>)
    requires n <= |calls|
  {
    if n == 0 then []
    else
      var before := SentTo(calls, n - 1, i);
      if calls[n - 1].bin == i then before + [calls[n - 1].entry] else before
  }

  lemma {:induction false} SentToProper(calls: seq<Call>, n: nat, i: nat)
    requires ProperCalls(calls) && n <= |calls|
    ensures Proper(SentTo(calls, n, i))
  {
    if n > 0 {
      SentToProper(calls, n - 1, i);
    }
  }

  lemma {:induction false} SentToPrefix(calls: seq<Call>, n: nat, i: nat)
    requires n < |calls|
    ensures SentTo(calls[..|calls| - 1], n, i) == SentTo(calls, n, i)
  {
    if n > 0 {
      SentToPrefix(calls, n - 1, i);
    }
  }

  lemma AddAllNext(entries: seq<ContactEntry>, e: ContactEntry)
    requires Proper(entries) && ProperEntry(e)
    ensures AddAll(entries + [e]).0 == Added(AddAll(entries).0, e.bytes).0
  {
    assert (entries + [e])[..|entries|] == entries;
  }

  /** Each bin of a registry is what its own calls alone would have made of it. */
  lemma {:induction false} BinsAreSeparate(calls: seq<Call>, i: nat)
    requires ProperCalls(calls)
    ensures var bins, sent := RegistryAfter(calls).0, SentTo(calls, |calls|, i);
            && (i in bins <==> sent != [])
            && Proper(sent) && BinOf(bins, i) == AddAll(sent).0
    decreases |calls|
  {
    SentToProper(calls, |calls|, i);
    RegistryUnfolds(calls);
    if calls != [] {
      hide RegistryAfter, AddAll, ProperEntry, Added;
      var n := |calls| - 1;
      BinsAreSeparate(calls[..n], i);
      SentToPrefix(calls, n, i);
      SentToProper(calls, n, i);
      if calls[n].bin == i {
        AddAllNext(SentTo(calls, n, i), calls[n].entry);
      }
    }
  }

  lemma RegistryUnfolds(calls: seq<Call>)
    requires ProperCalls(calls)
    ensures calls == [] ==> RegistryAfter(calls).0 == map[]
    ensures calls != [] ==>
              var n := |calls| - 1;
              RegistryAfter(calls).0 == Stepped(RegistryAfter(calls[..n]).0, calls[n]).0
  {
    hide Added, IsZero;
  }

  /** What a registry holds after any calls to any bins, however interleaved. */
  lemma RegistryLayout(calls: seq<Call>, i: nat)
    requires ProperCalls(calls)
    ensures var bins, sent := RegistryAfter(calls).0, SentTo(calls, |calls|, i);
            (i in bins <==> sent != []) && BinHolds(BinOf(bins, i), BytesOf(Kept(sent)))
  {
    hide RegistryAfter, AddAll, BinHolds;
    BinsAreSeparate(calls, i);
    BinLayout(SentTo(calls, |calls|, i));
  }

  /** Call k succeeds exactly when fewer than 18 earlier calls went to its bin. */
  lemma {:induction false} RegistryAnswers(calls: seq<Call>, k: nat)
    requires ProperCalls(calls) && k < |calls|
    ensures RegistryAfter(calls).1[k] <==> |SentTo(calls, k, calls[k].bin)| < 18
    decreases |calls|
  {
    var n := |calls| - 1;
    hide ProperEntry, Added, AddAll, SentTo, Proper;
    SentToPrefix(calls, k, calls[k].bin);
    if k < n {
      RegistryAnswers(calls[..n], k);
    } else {
      BinsAreSeparate(calls[..n], calls[n].bin);
      AddAllAnswers(SentTo(calls, n, calls[n].bin), calls[n].entry);
    }
  }

  lemma AddAllAnswers(entries: seq<ContactEntry>, e: ContactEntry)
    requires Proper(entries) && ProperEntry(e)
    ensures Added(AddAll(entries).0, e.bytes).1 <==> |entries| < PIR_MAX_ENTRIES_PER_BIN
  {
    hide Added, AddAll, Slot, IsZero, BinHolds;
    BinLayout(entries);
    AddAppends(AddAll(entries).0, BytesOf(Kept(entries)), e.bytes);
  }

  /** Looking a nonzero hash up in any bin of a registry, the bin masked and unmasked with one mask: the earliest
      accepted entry with that hash among those sent to the bin, or none. */
  lemma RegistryLookup(calls: seq<Call>, i: nat, mask: seq<bv8>, target: seq<bv8>)
    requires ProperCalls(calls) && |mask| >= PIR_BIN_SIZE && |target| == HASH_SIZE && !IsZero(target)
    ensures var bin := BinOf(RegistryAfter(calls).0, i);
            FirstMatch(XorApply(XorApply(bin, mask), mask), target, 0)
            == Earliest(Kept(SentTo(calls, |calls|, i)), target, 0)
  {
    hide FirstMatch, XorApply, AddAll, IsZero, Earliest, Kept, SentTo, RegistryAfter;
    BinsAreSeparate(calls, i);
    MaskedLookup(SentTo(calls, |calls|, i), mask, target);
  }

  lemma NothingEarliest(target: seq<bv8>)
    ensures Earliest([], target, 0) == None
  {}

  /** What Earliest finds: an entry with the hash, with none before it; nothing exactly when no entry has the hash. */
  lemma {:induction false} EarliestIs(entries: seq<ContactEntry>, target: seq<bv8>, i: nat)
    requires i <= |entries|
    ensures var r := Earliest(entries, target, i);
            && (r.None? <==> forall j :: i <= j < |entries| ==> entries[j].hash != target)
            && (r.Some? ==> exists j :: i <= j < |entries| && entries[j] == r.value && r.value.hash == target
                              && forall k :: i <= k < j ==> entries[k].hash != target)
    decreases |entries| - i
  {
    if i < |entries| {
      EarliestIs(entries, target, i + 1);
    }
  }

  /** An all-zero entry is accepted without leaving a trace. */
  lemma ZeroEntryVanishes(bin: seq<bv8>, entry: seq<bv8>)
    requires |bin| == PIR_BIN_SIZE && |entry| == PIR_ENTRY_SIZE && IsZero(entry)
    ensures Added(bin, entry).0 == bin
  {
    var i := FirstEmpty(bin, 0);
    FirstEmptyZero(bin, 0);
    if i < PIR_MAX_ENTRIES_PER_BIN {
      assert Slot(bin, i) == entry;
      assert bin == bin[..i * PIR_ENTRY_SIZE] + Slot(bin, i) + bin[(i + 1) * PIR_ENTRY_SIZE..];
    }
  }

  lemma {:induction false} FirstEmptyZero(bin: seq<bv8>, i: nat)
    requires |bin| == PIR_BIN_SIZE && i <= PIR_MAX_ENTRIES_PER_BIN
    ensures var k := FirstEmpty(bin, i); k < PIR_MAX_ENTRIES_PER_BIN ==> IsZero(Slot(bin, k))
    decreases PIR_MAX_ENTRIES_PER_BIN - i
  {
    if i < PIR_MAX_ENTRIES_PER_BIN {
      FirstEmptyZero(bin, i + 1);
    }
  }
}
