/** The wire format of KEM ratchet messages (crypto-pq/src/ratchet_pq.rs, crypto-pq/src/hybrid_kem.rs). */
module RatchetWire {
  import opened Primitives
  import opened Wrappers

  const X25519_CT_SIZE: nat := 32
  const MLKEM768_PK_SIZE: nat := 1184
  const MLKEM768_CT_SIZE: nat := 1088
  const COMBINED_CT_SIZE: nat := X25519_CT_SIZE + MLKEM768_CT_SIZE

  datatype WireError = InvalidKeyLength(expected: nat, got: nat) | VersionNotUtf8

  type WireResult<+T> = Result<T, WireError>

  datatype HybridCiphertext = HybridCiphertext(x25519Ct: Bytes, mlkemCt: Bytes)

  datatype KemRatchetMessage = KemRatchetMessage(
    version: Bytes, x25519Pk: Bytes, mlkemEncKey: Bytes, hybridCt: Option<HybridCiphertext>, seqno: u64, epoch: u64)

  // ----- Big-endian integers

  function Pow256(k: nat): nat { if k == 0 then 1 else 256 * Pow256(k - 1) }

  function BeBytes(n: nat, k: nat): (b: Bytes)
    ensures |b| == k
  {
    if k == 0 then [] else BeBytes(n / 256, k - 1) + [n % 256]
  }

  function BeValue(b: Bytes): nat {
    if b == [] then 0 else BeValue(b[..|b| - 1]) * 256 + b[|b| - 1] as int
  }

  lemma {:induction false} BeValueOfBytes(n: nat, k: nat)
    requires n < Pow256(k)
    ensures BeValue(BeBytes(n, k)) == n
    decreases k
  {
    if k > 0 {
      BeValueOfBytes(n / 256, k - 1);
      var b := BeBytes(n, k);
      assert b[..k - 1] == BeBytes(n / 256, k - 1);
    }
  }

  lemma {:induction false} BeBytesOfValue(b: Bytes)
    ensures BeBytes(BeValue(b), |b|) == b && BeValue(b) < Pow256(|b|)
    decreases |b|
  {
    if b != [] {
      var init, last := b[..|b| - 1], b[|b| - 1];
      BeBytesOfValue(init);
      assert BeValue(b) / 256 == BeValue(init) && BeValue(b) % 256 == last;
      assert b == init + [last];
    }
  }

  lemma U64Fits()
    ensures Pow256(8) == U64_LIMIT
  {}

  // ----- The hybrid ciphertext

  function CtBytes(ct: HybridCiphertext): Bytes { ct.x25519Ct + ct.mlkemCt }

  method CtToBytes(ct: HybridCiphertext) returns (r: Bytes)
    requires |ct.x25519Ct| == X25519_CT_SIZE && |ct.mlkemCt| == MLKEM768_CT_SIZE
    ensures r == CtBytes(ct) && |r| == COMBINED_CT_SIZE
  {
    var buf := new byte[COMBINED_CT_SIZE](_ => 0);
    forall i | 0 <= i < X25519_CT_SIZE {
      buf[i] := ct.x25519Ct[i];
    }
    forall i | 0 <= i < MLKEM768_CT_SIZE {
      buf[X25519_CT_SIZE + i] := ct.mlkemCt[i];
    }
    assert buf[..][..X25519_CT_SIZE] == ct.x25519Ct;
    assert buf[..][X25519_CT_SIZE..] == ct.mlkemCt;
    r := buf[..];
  }

  function CtFromBytes(bytes: Bytes): (r: WireResult<HybridCiphertext>)
    ensures r.Ok? <==> |bytes| == COMBINED_CT_SIZE
    ensures r.Ok? ==> CtBytes(r.value) == bytes && |r.value.x25519Ct| == X25519_CT_SIZE
  {
    if |bytes| != COMBINED_CT_SIZE then Err(InvalidKeyLength(COMBINED_CT_SIZE, |bytes|))
    else Ok(HybridCiphertext(bytes[..X25519_CT_SIZE], bytes[X25519_CT_SIZE..]))
  }

  // ----- Messages

  /** What the field types of a message guarantee: UTF-8 text, fixed-size arrays, and a ciphertext whose ML-KEM part
      has its fixed size (any other size panics in to_bytes). */
  predicate Typed(m: KemRatchetMessage, utf8: Bytes -> bool) {
    && utf8(m.version) && |m.x25519Pk| == 32
    && (m.hybridCt.Some? ==>
          |m.hybridCt.value.x25519Ct| == X25519_CT_SIZE && |m.hybridCt.value.mlkemCt| == MLKEM768_CT_SIZE)
  }

  function Head(m: KemRatchetMessage): Bytes {
    [|m.version| % 256] + m.version + m.x25519Pk + m.mlkemEncKey
  }

  function Middle(ct: Option<HybridCiphertext>): Bytes { if ct.Some? then CtBytes(ct.value) else [] }

  /** The printed message. */
  function Wire(m: KemRatchetMessage): Bytes {
    Head(m) + Middle(m.hybridCt) + BeBytes(m.seqno, 8) + BeBytes(m.epoch, 8)
  }

  method ToWire(m: KemRatchetMessage, utf8: Bytes -> bool) returns (wire: Bytes)
    requires Typed(m, utf8)
    ensures wire == Wire(m)
  {
    wire := [|m.version| % 256];
    wire := wire + m.version;
    wire := wire + m.x25519Pk;
    wire := wire + m.mlkemEncKey;
    if m.hybridCt.Some? {
      var ct := CtToBytes(m.hybridCt.value);
      wire := wire + ct;
    } else {
      assert wire + [] == wire;
    }
    wire := wire + BeBytes(m.seqno, 8);
    wire := wire + BeBytes(m.epoch, 8);
  }

  /** Cuts n bytes off the front. */
  function Take(s: Bytes, n: nat): (r: WireResult<(Bytes, Bytes)>)
    ensures r.Ok? <==> n <= |s|
    ensures r.Ok? ==> s == r.value.0 + r.value.1 && |r.value.0| == n
  {
    if n > |s| then Err(InvalidKeyLength(n, |s|)) else Ok((s[..n], s[n..]))
  }

  /** The two counters after the keys; a short tail has epoch 0. */
  function ParseTail(version: Bytes, pk: Bytes, enc: Bytes, ct: Option<HybridCiphertext>, tail: Bytes):
    WireResult<KemRatchetMessage>
  {
    if |tail| < 8 then Err(InvalidKeyLength(8, |tail|))
    else
      BeBytesOfValue(tail[..8]); U64Fits();
      var seqno := BeValue(tail[..8]);
      if |tail| < 16 then Ok(KemRatchetMessage(version, pk, enc, ct, seqno, 0))
      else
        BeBytesOfValue(tail[8..16]);
        Ok(KemRatchetMessage(version, pk, enc, ct, seqno, BeValue(tail[8..16])))
  }

  /** Parsing, field by field from the front; the ciphertext is present when enough bytes remain for it. */
  function Parsed(wire: Bytes, utf8: Bytes -> bool): WireResult<KemRatchetMessage> {
    if wire == [] then Err(InvalidKeyLength(1, 0))
    else
      match Take(wire[1..], wire[0])
      case Err(e) => Err(e)
      case Ok((version, rest)) =>
        if !utf8(version) then Err(VersionNotUtf8)
        else
          match Take(rest, 32)
          case Err(e) => Err(e)
          case Ok((pk, rest)) =>
            match Take(rest, MLKEM768_PK_SIZE)
            case Err(e) => Err(e)
            case Ok((enc, rest)) =>
              match Take(rest, COMBINED_CT_SIZE)
              case Err(_) => ParseTail(version, pk, enc, None, rest)
              case Ok((ct, tail)) => ParseTail(version, pk, enc, Some(CtFromBytes(ct).value), tail)
  }

  method FromWire(wire: Bytes, utf8: Bytes -> bool) returns (r: WireResult<KemRatchetMessage>)
    ensures r == Parsed(wire, utf8)
  {
    hide ParseTail, BeValue;
    var offset := 0;
    if offset >= |wire| {
      return Err(InvalidKeyLength(1, 0));
    }
    var vlen := wire[offset] as int;
    offset := offset + 1;
    if offset + vlen > |wire| {
      return Err(InvalidKeyLength(vlen, |wire| - offset));
    }
    var version := wire[offset..offset + vlen];
    assert version == wire[1..][..vlen];
    if !utf8(version) {
      return Err(VersionNotUtf8);
    }
    offset := offset + vlen;
    assert wire[1..][vlen..] == wire[offset..];
    ghost var rest := wire[offset..];
    if offset + 32 > |wire| {
      return Err(InvalidKeyLength(32, |wire| - offset));
    }
    var x25519Pk := wire[offset..offset + 32];
    assert x25519Pk == rest[..32];
    offset := offset + 32;
    assert rest[32..] == wire[offset..];
    rest := wire[offset..];
    if offset + MLKEM768_PK_SIZE > |wire| {
      return Err(InvalidKeyLength(MLKEM768_PK_SIZE, |wire| - offset));
    }
    var mlkemEncKey := wire[offset..offset + MLKEM768_PK_SIZE];
    assert mlkemEncKey == rest[..MLKEM768_PK_SIZE];
    offset := offset + MLKEM768_PK_SIZE;
    assert rest[MLKEM768_PK_SIZE..] == wire[offset..];
    rest := wire[offset..];
    var hybridCt := None;
    if |wire| - offset >= COMBINED_CT_SIZE {
      assert wire[offset..offset + COMBINED_CT_SIZE] == rest[..COMBINED_CT_SIZE];
      hybridCt := Some(CtFromBytes(wire[offset..offset + COMBINED_CT_SIZE]).value);
      assert rest[COMBINED_CT_SIZE..] == wire[offset + COMBINED_CT_SIZE..];
      offset := offset + COMBINED_CT_SIZE;
    }
    r := CountersFromWire(wire, offset, version, x25519Pk, mlkemEncKey, hybridCt);
  }

  method CountersFromWire(wire: Bytes, start: nat, version: Bytes, pk: Bytes, enc: Bytes, ct: Option<HybridCiphertext>)
    returns (r: WireResult<KemRatchetMessage>)
    requires start <= |wire|
    ensures r == ParseTail(version, pk, enc, ct, wire[start..])
  {
    hide BeValue;
    ghost var tail := wire[start..];
    var offset := start;
    var remaining := |wire| - offset;
    if remaining < 8 {
      return Err(InvalidKeyLength(8, remaining));
    }
    assert wire[offset..offset + 8] == tail[..8];
    BeBytesOfValue(tail[..8]);
    U64Fits();
    var seqno: u64 := BeValue(wire[offset..offset + 8]);
    offset := offset + 8;
    var epoch: u64 := 0;
    if |wire| - offset >= 8 {
      assert wire[offset..offset + 8] == tail[8..16];
      BeBytesOfValue(tail[8..16]);
      epoch := BeValue(wire[offset..offset + 8]);
    }
    r := Ok(KemRatchetMessage(version, pk, enc, ct, seqno, epoch));
  }

  // ----- Printing and parsing together

  /** The bytes left for the two counters once a parsed message's other fields are taken off. */
  function TailLength(wire: Bytes, m: KemRatchetMessage): int {
    |wire| - |Head(m)| - |Middle(m.hybridCt)|
  }

  lemma TailReprints(version: Bytes, pk: Bytes, enc: Bytes, ct: Option<HybridCiphertext>, tail: Bytes)
    ensures var r := ParseTail(version, pk, enc, ct, tail);
            && (r.Ok? <==> |tail| >= 8)
            && (r.Ok? ==>
                  && r.value.version == version && r.value.x25519Pk == pk && r.value.mlkemEncKey == enc && r.value.hybridCt == ct
                  && BeBytes(r.value.seqno, 8) == tail[..8] && (|tail| < 16 ==> r.value.epoch == 0)
                  && (|tail| >= 16 ==> BeBytes(r.value.seqno, 8) + BeBytes(r.value.epoch, 8) == tail[..16]))
  {
    if |tail| >= 8 {
      BeBytesOfValue(tail[..8]);
    }
    if |tail| >= 16 {
      BeBytesOfValue(tail[8..16]);
      assert tail[..16] == tail[..8] + tail[8..16];
    }
  }

  lemma Regroup(a: byte, v: Bytes, pk: Bytes, enc: Bytes, mid: Bytes, tail: Bytes)
    ensures [a] + (v + (pk + (enc + (mid + tail)))) == ([a] + v + pk + enc) + mid + tail
  {}

  /** An accepted input cut into its fields and the tail the counters are read from. */
  lemma ParsedFields(wire: Bytes, utf8: Bytes -> bool)
    returns (version: Bytes, pk: Bytes, enc: Bytes, ct: Option<HybridCiphertext>, tail: Bytes)
    requires Parsed(wire, utf8).Ok?
    ensures Parsed(wire, utf8) == ParseTail(version, pk, enc, ct, tail)
    ensures |version| < 256 && utf8(version) && |pk| == 32 && |enc| == MLKEM768_PK_SIZE
    ensures ct.Some? ==> |ct.value.x25519Ct| == X25519_CT_SIZE && |CtBytes(ct.value)| == COMBINED_CT_SIZE
    ensures wire == [|version|] + (version + (pk + (enc + (Middle(ct) + tail))))
  {
    hide ParseTail;
    var (v, r1) := Take(wire[1..], wire[0]).value;
    var (p, r2) := Take(r1, 32).value;
    var (e, r3) := Take(r2, MLKEM768_PK_SIZE).value;
    version, pk, enc := v, p, e;
    assert wire == [wire[0]] + wire[1..];
    if |r3| >= COMBINED_CT_SIZE {
      var (bytes, rest) := Take(r3, COMBINED_CT_SIZE).value;
      ct, tail := Some(CtFromBytes(bytes).value), rest;
    } else {
      ct, tail := None, r3;
      assert [] + tail == tail;
    }
  }

  /** The fields before the counters, as parsed, are the bytes before the tail. */
  lemma ParsedSplit(wire: Bytes, utf8: Bytes -> bool) returns (m: KemRatchetMessage, tail: Bytes)
    requires Parsed(wire, utf8).Ok?
    ensures m == Parsed(wire, utf8).value
    ensures Typed(m, utf8) && |m.version| < 256 && |m.mlkemEncKey| == MLKEM768_PK_SIZE
    ensures wire == Head(m) + Middle(m.hybridCt) + tail
    ensures |tail| >= 8 && BeBytes(m.seqno, 8) == tail[..8] && (|tail| < 16 ==> m.epoch == 0)
    ensures |tail| >= 16 ==> BeBytes(m.seqno, 8) + BeBytes(m.epoch, 8) == tail[..16]
  {
    hide Parsed, ParseTail, BeBytes;
    m := Parsed(wire, utf8).value;
    var version, pk, enc, ct;
    version, pk, enc, ct, tail := ParsedFields(wire, utf8);
    TailReprints(version, pk, enc, ct, tail);
    Regroup(|version|, version, pk, enc, Middle(ct), tail);
  }

  /** What the parser accepts it could have printed: re-printing gives a prefix of the input exactly when both
      counters are there. */
  lemma ReprintExact(wire: Bytes, utf8: Bytes -> bool)
    requires Parsed(wire, utf8).Ok?
    ensures var m := Parsed(wire, utf8).value;
            && Typed(m, utf8) && |m.version| < 256 && |m.mlkemEncKey| == MLKEM768_PK_SIZE
            && (Wire(m) <= wire <==> TailLength(wire, m) >= 16)
  {
    hide Parsed, BeBytes, Typed;
    var m, tail := ParsedSplit(wire, utf8);
    hide Head, Middle;
    var front := Head(m) + Middle(m.hybridCt);
    if |tail| >= 16 {
      assert wire[..|front| + 16] == front + tail[..16];
      assert Wire(m) == front + tail[..16];
    }
  }

  /** The counters of an accepted input: the first always comes from the first eight bytes of its tail, most significant
      byte first, and the second is 0 when fewer than eight more are there. */
  lemma CountersRead(wire: Bytes, utf8: Bytes -> bool)
    requires Parsed(wire, utf8).Ok?
    ensures var m := Parsed(wire, utf8).value;
            var at := |wire| - TailLength(wire, m);
            && 0 <= at <= |wire| - 8
            && BeBytes(m.seqno, 8) == wire[at..at + 8]
            && (TailLength(wire, m) < 16 ==> m.epoch == 0)
            && (TailLength(wire, m) >= 16 ==> BeBytes(m.epoch, 8) == wire[at + 8..at + 16])
  {
    hide Parsed, BeBytes, Typed;
    var m, tail := ParsedSplit(wire, utf8);
    hide Head, Middle;
    var front := Head(m) + Middle(m.hybridCt);
    assert wire[|front|..|front| + 8] == tail[..8];
    if |tail| >= 16 {
      assert wire[|front| + 8..|front| + 16] == tail[8..16];
      assert (BeBytes(m.seqno, 8) + BeBytes(m.epoch, 8))[8..] == tail[..16][8..];
    }
  }

  /** The first byte of a counter is its most significant one. */
  lemma {:induction false} FirstByteCounts(a: byte, b: Bytes)
    ensures BeValue([a] + b) == a * Pow256(|b|) + BeValue(b)
    decreases |b|
  {
    if b == [] {
      assert [a] + b == [a];
    } else {
      var init, last := b[..|b| - 1], b[|b| - 1];
      FirstByteCounts(a, init);
      assert ([a] + b)[..|b|] == [a] + init;
      assert a * Pow256(|b|) == a * Pow256(|init|) * 256;
    }
  }

  /** How many bytes an input needs: a length byte and that many bytes of text, the two keys, the ciphertext if there
      are bytes enough for it, and one counter. */
  predicate LongEnough(wire: Bytes) {
    && |wire| >= 1
    && var rest := |wire| - 1 - wire[0] - 32 - 1184; if rest >= 1120 then rest >= 1128 else rest >= 8
  }

  /** The parser accepts exactly the inputs that are long enough and whose text is valid. */
  lemma AcceptsExactly(wire: Bytes, utf8: Bytes -> bool)
    ensures Parsed(wire, utf8).Ok? <==> LongEnough(wire) && utf8(wire[1..1 + wire[0]])
  {
    hide ParseTail;
    if wire != [] && 1 + wire[0] + 32 + 1184 <= |wire| {
      var v: nat := wire[0];
      var rest := wire[1 + v + 32 + 1184..];
      assert wire[1..][..v] == wire[1..1 + v];
      assert wire[1..][v..][32..][1184..] == rest;
      TailAccepts(rest);
    }
  }

  /** The refusals: text that is not valid, exactly when it is all there; else a field of which too few bytes remain. */
  lemma RefusesWith(wire: Bytes, utf8: Bytes -> bool)
    ensures Parsed(wire, utf8) == Err(VersionNotUtf8) <==>
              |wire| >= 1 && var v: nat := wire[0]; |wire| >= 1 + v && !utf8(wire[1..1 + v])
    ensures Parsed(wire, utf8).Err? && Parsed(wire, utf8).error.InvalidKeyLength? ==>
              Parsed(wire, utf8).error.got < Parsed(wire, utf8).error.expected
  {
    if wire != [] && 1 + wire[0] as int <= |wire| {
      var v: nat := wire[0];
      assert wire[1..][..v] == wire[1..1 + v];
    }
  }

  lemma TailAccepts(tail: Bytes)
    ensures forall v, pk, enc, ct :: ParseTail(v, pk, enc, ct, tail).Ok? <==> |tail| >= 8
    ensures |tail| >= 1120 ==> forall v, pk, enc, ct :: ParseTail(v, pk, enc, ct, tail[1120..]).Ok? <==> |tail| >= 1128
  {}

  /** Where the fields of a printed message are. */
  lemma WireLayout(m: KemRatchetMessage, utf8: Bytes -> bool)
    requires Typed(m, utf8) && |m.version| < 256 && |m.mlkemEncKey| == 1184
    ensures var wire, v := Wire(m), |m.version|;
            var ct := if m.hybridCt.Some? then 1120 else 0;
            && |wire| == 1 + v + 32 + 1184 + ct + 16
            && wire[0] == v && wire[1..1 + v] == m.version
            && wire[1 + v..33 + v] == m.x25519Pk && wire[33 + v..1217 + v] == m.mlkemEncKey
            && (m.hybridCt.Some? ==>
                  && wire[1217 + v..1249 + v] == m.hybridCt.value.x25519Ct
                  && wire[1249 + v..2337 + v] == m.hybridCt.value.mlkemCt)
            && BeValue(wire[1217 + v + ct..1225 + v + ct]) == m.seqno
            && BeValue(wire[1225 + v + ct..1233 + v + ct]) == m.epoch
  {
    hide BeBytes, BeValue;
    U64Fits();
    BeValueOfBytes(m.seqno, 8);
    BeValueOfBytes(m.epoch, 8);
    var wire, v := Wire(m), |m.version|;
    var ct := if m.hybridCt.Some? then 1120 else 0;
    assert wire[1..1 + v] == m.version;
    assert wire[1 + v..33 + v] == m.x25519Pk;
    assert wire[33 + v..1217 + v] == m.mlkemEncKey;
    if m.hybridCt.Some? {
      assert wire[1217 + v..1249 + v] == m.hybridCt.value.x25519Ct;
      assert wire[1249 + v..2337 + v] == m.hybridCt.value.mlkemCt;
    }
    assert wire[1217 + v + ct..1225 + v + ct] == BeBytes(m.seqno, 8);
    assert wire[1225 + v + ct..1233 + v + ct] == BeBytes(m.epoch, 8);
  }

  lemma TakeFront(a: Bytes, b: Bytes)
    ensures Take(a + b, |a|) == Ok((a, b))
  {
    assert (a + b)[..|a|] == a && (a + b)[|a|..] == b;
  }

  lemma TailParses(m: KemRatchetMessage)
    ensures ParseTail(m.version, m.x25519Pk, m.mlkemEncKey, m.hybridCt, BeBytes(m.seqno, 8) + BeBytes(m.epoch, 8)) == Ok(m)
  {
    hide BeBytes, BeValue;
    var a, b := BeBytes(m.seqno, 8), BeBytes(m.epoch, 8);
    assert (a + b)[..8] == a && (a + b)[8..16] == b;
    U64Fits();
    BeValueOfBytes(m.seqno, 8);
    BeValueOfBytes(m.epoch, 8);
  }

  lemma WireParses(m: KemRatchetMessage, utf8: Bytes -> bool)
    requires Typed(m, utf8) && |m.version| < 256 && |m.mlkemEncKey| == MLKEM768_PK_SIZE
    ensures Parsed(Wire(m), utf8) == Ok(m)
  {
    hide BeBytes, ParseTail, Take;
    var tail := BeBytes(m.seqno, 8) + BeBytes(m.epoch, 8);
    var r3 := Middle(m.hybridCt) + tail;
    var r2 := m.mlkemEncKey + r3;
    var r1 := m.x25519Pk + r2;
    assert Wire(m) == [|m.version| % 256] + (m.version + r1);
    assert Wire(m)[1..] == m.version + r1;
    TakeFront(m.version, r1);
    TakeFront(m.x25519Pk, r2);
    TakeFront(m.mlkemEncKey, r3);
    TailParses(m);
    if m.hybridCt.Some? {
      TakeFront(CtBytes(m.hybridCt.value), tail);
      CtRoundTrip(m.hybridCt.value);
    } else {
      assert r3 == tail;
    }
  }

  lemma CtRoundTrip(ct: HybridCiphertext)
    requires |ct.x25519Ct| == X25519_CT_SIZE && |ct.mlkemCt| == MLKEM768_CT_SIZE
    ensures CtFromBytes(CtBytes(ct)) == Ok(ct)
  {
    assert CtBytes(ct)[..X25519_CT_SIZE] == ct.x25519Ct && CtBytes(ct)[X25519_CT_SIZE..] == ct.mlkemCt;
  }

  /** Parsing undoes printing exactly for a version below 256 bytes and an encapsulation key of its fixed size. */
  lemma RoundTripExact(m: KemRatchetMessage, utf8: Bytes -> bool)
    requires Typed(m, utf8)
    ensures Parsed(Wire(m), utf8) == Ok(m) <==> |m.version| < 256 && |m.mlkemEncKey| == MLKEM768_PK_SIZE
  {
    hide Parsed, Wire;
    if |m.version| < 256 && |m.mlkemEncKey| == MLKEM768_PK_SIZE {
      WireParses(m, utf8);
    } else if Parsed(Wire(m), utf8).Ok? {
      var p, tail := ParsedSplit(Wire(m), utf8);
    }
  }
}
