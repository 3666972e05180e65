/** Constant-size message padding and its hex transport form (client/src/main.rs). */
module Padding {
  import opened Primitives
  import opened Wrappers

  // ----- Hex

  function HexDigit(n: nat): char
    requires n < 16
  {
    "0123456789abcdef"[n]
  }

  function DigitValue(ch: char): Option<nat> {
    if '0' <= ch <= '9' then Some(ch as nat - '0' as nat)
    else if 'a' <= ch <= 'f' then Some(ch as nat - 'a' as nat + 10)
    else if 'A' <= ch <= 'F' then Some(ch as nat - 'A' as nat + 10)
    else None
  }

  lemma DigitRoundTrip(n: nat)
    requires n < 16
    ensures DigitValue(HexDigit(n)) == Some(n)
  {}

  function HexEncode(b: Bytes): string {
    if b == [] then "" else [HexDigit(b[0] / 16), HexDigit(b[0] % 16)] + HexEncode(b[1..])
  }

  function HexDecode(s: string): Option<Bytes> {
    if s == "" then Some([])
    else if |s| == 1 || DigitValue(s[0]).None? || DigitValue(s[1]).None? || HexDecode(s[2..]).None? then None
    else
      DigitBound(s[0]); DigitBound(s[1]);
      Some([DigitValue(s[0]).value * 16 + DigitValue(s[1]).value] + HexDecode(s[2..]).value)
  }

  lemma DigitBound(ch: char)
    ensures DigitValue(ch).Some? ==> DigitValue(ch).value < 16
  {}

  lemma {:induction false} HexRoundTrip(b: Bytes)
    ensures HexDecode(HexEncode(b)) == Some(b)
  {
    hide HexDigit, DigitValue;
    if b != [] {
      DigitRoundTrip(b[0] / 16);
      DigitRoundTrip(b[0] % 16);
      HexRoundTrip(b[1..]);
      assert HexEncode(b)[2..] == HexEncode(b[1..]);
      assert b == [b[0]] + b[1..];
    }
  }

  /** Where the digits are: two lower-case ones for each byte, the high one first. */
  lemma {:induction false} HexAt(b: Bytes, i: nat)
    ensures |HexEncode(b)| == 2 * |b|
    ensures i < |b| ==> HexEncode(b)[2 * i] == "0123456789abcdef"[b[i] / 16]
    ensures i < |b| ==> HexEncode(b)[2 * i + 1] == "0123456789abcdef"[b[i] % 16]
    decreases |b|
  {
    if b != [] {
      HexAt(b[1..], if i > 0 then i - 1 else 0);
    }
  }

  predicate IsHexDigit(ch: char) { '0' <= ch <= '9' || 'a' <= ch <= 'f' || 'A' <= ch <= 'F' }

  /** Exactly the strings of an even number of hex digits, in either case, decode. */
  lemma {:induction false} HexDecodesExactly(s: string)
    ensures HexDecode(s).Some? <==> |s| % 2 == 0 && forall i :: 0 <= i < |s| ==> IsHexDigit(s[i])
    ensures HexDecode(s).Some? ==> |HexDecode(s).value| == |s| / 2
  {
    if |s| >= 2 {
      HexDecodesExactly(s[2..]);
      assert s == [s[0], s[1]] + s[2..];
    }
  }

  // ----- Buckets

  const MAX_BUCKET: nat := 65536

  /** The bucket for a message of n bytes and one header byte. */
  function Bucket(n: nat): nat {
    var total := n + 1;
    if total <= 256 then 256
    else if total <= 512 then 512
    else if total <= 1024 then 1024
    else if total <= 2048 then 2048
    else if total <= 4096 then 4096
    else if total <= 8192 then 8192
    else if total <= 16384 then 16384
    else if total <= 32768 then 32768
    else 65536
  }

  /** Padding bytes for a message of n bytes; negative when no bucket is large enough. */
  function PadLength(n: nat): int { Bucket(n) - n - 1 }

  /** pad_message_bucket before hex: header byte, message, fill.  The header keeps only the low byte of the padding
      length.  `fill` is the random padding. */
  function Padded(message: Bytes, fill: Bytes): Bytes { [|fill| % 256] + message + fill }

  datatype PadError = BadHex | Empty | BadLength

  type PadResult<+T> = Result<T, PadError>

  /** Decoding of bytes into text with replacement characters (from_utf8_lossy), on the byte level. */
  datatype Text = Text(valid: Bytes -> bool, lossy: Bytes -> Bytes)

  /** Valid text is kept; bytes after valid text become further text, and at least one byte of it. */
  ghost predicate Lawful(t: Text) {
    && (forall m: Bytes :: t.valid(m) ==> t.lossy(m) == m)
    && (forall m: Bytes, x: Bytes :: t.valid(m) ==> t.lossy(m + x) == m + t.lossy(x))
    && (forall x: Bytes :: x != [] ==> t.lossy(x) != [])
  }

  lemma LossyLaws(t: Text, m: Bytes, x: Bytes)
    requires Lawful(t) && t.valid(m)
    ensures t.lossy(m) == m
    ensures t.lossy(m + x) == m + t.lossy(x)
    ensures x != [] ==> t.lossy(x) != []
  {}

  function Unpadded(t: Text, hex: string): PadResult<Bytes> {
    match HexDecode(hex)
    case None => Err(BadHex)
    case Some(data) =>
      if data == [] then Err(Empty)
      else if |data| < data[0] as int + 1 then Err(BadLength)
      else Ok(t.lossy(data[1..|data| - data[0]]))
  }

  method PadMessageBucket(message: Bytes, random: nat -> byte) returns (hex: string)
    requires |message| < MAX_BUCKET
    ensures exists fill: Bytes :: |fill| == PadLength(|message|) && hex == HexEncode(Padded(message, fill))
    ensures |hex| == 2 * Pow2(SizeClass(|message|))
  {
    var padLen := Bucket(|message|) - |message| - 1;
    var result: Bytes := [padLen % 256];
    result := result + message;
    var padding: Bytes := seq(padLen, (i: nat) => random(i));
    result := result + padding;
    hex := HexEncode(result);
    assert result == Padded(message, padding);
    ConstantSize(message, padding);
  }

  method UnpadMessageBucket(t: Text, hex: string) returns (r: PadResult<Bytes>)
    ensures r == Unpadded(t, hex)
  {
    var data := HexDecode(hex);
    if data.None? {
      return Err(BadHex);
    }
    if data.value == [] {
      return Err(Empty);
    }
    var padLen := data.value[0] as int;
    if |data.value| < padLen + 1 {
      return Err(BadLength);
    }
    r := Ok(t.lossy(data.value[1..|data.value| - padLen]));
  }

  // ----- Constant size

  function Pow2(n: nat): nat { if n == 0 then 1 else 2 * Pow2(n - 1) }

  /** The least k from 8 on for which 2^k exceeds n. */
  function SizeClass(n: nat): (k: nat)
    ensures k >= 8 && Pow2(k) > n && (k == 8 || Pow2(k - 1) <= n)
  {
    ClassFrom(n, 8)
  }

  function ClassFrom(n: nat, k: nat): (r: nat)
    requires k == 8 || (k > 8 && Pow2(k - 1) <= n)
    ensures r >= 8 && Pow2(r) > n && (r == 8 || Pow2(r - 1) <= n)
    decreases n + 1 - Pow2(k)
  {
    Pow2Positive(k);
    if Pow2(k) > n then k else ClassFrom(n, k + 1)
  }

  lemma Pow2Positive(k: nat)
    ensures Pow2(k) >= 1
  {}

  lemma {:induction false} Pow2Monotone(j: nat, k: nat)
    requires j <= k
    ensures Pow2(j) <= Pow2(k)
    decreases k
  {
    if j < k {
      Pow2Monotone(j, k - 1);
      Pow2Positive(k - 1);
    }
  }

  lemma Powers()
    ensures Pow2(8) == 256 && Pow2(9) == 512 && Pow2(10) == 1024 && Pow2(11) == 2048 && Pow2(12) == 4096
    ensures Pow2(13) == 8192 && Pow2(14) == 16384 && Pow2(15) == 32768 && Pow2(16) == 65536
  {}

  /** The padded text has the size of its class: the smallest power of two from 2^8 to 2^16 above its length. */
  lemma ConstantSize(message: Bytes, fill: Bytes)
    requires |message| < 65536 && |fill| == PadLength(|message|)
    ensures 8 <= SizeClass(|message|) <= 16
    ensures |HexEncode(Padded(message, fill))| == 2 * Pow2(SizeClass(|message|))
  {
    HexAt(Padded(message, fill), 0);
    Powers();
    ClassIs(|message|, Bucket(|message|));
  }

  lemma ClassIs(n: nat, size: nat)
    requires n < 65536 && size == Bucket(n)
    ensures 8 <= SizeClass(n) <= 16 && Pow2(SizeClass(n)) == size
  {
    Powers();
    var k := SizeClass(n);
    if k > 16 {
      Pow2Monotone(16, k - 1);
    }
  }

  /** The output's length tells the size class of a text and no more. */
  lemma LengthShowsClass(a: Bytes, fillA: Bytes, b: Bytes, fillB: Bytes)
    requires |a| < 65536 && |fillA| == PadLength(|a|) && |b| < 65536 && |fillB| == PadLength(|b|)
    ensures |HexEncode(Padded(a, fillA))| == |HexEncode(Padded(b, fillB))| <==> SizeClass(|a|) == SizeClass(|b|)
  {
    hide SizeClass, PadLength, Padded, HexEncode;
    ConstantSize(a, fillA);
    ConstantSize(b, fillB);
    var j, k := SizeClass(|a|), SizeClass(|b|);
    if j < k {
      Pow2Monotone(j, k - 1);
      Pow2Positive(k - 1);
    } else if k < j {
      Pow2Monotone(k, j - 1);
      Pow2Positive(j - 1);
    }
  }

  // ----- Round trip

  /** What unpadding leaves of a padded message: the message and the padding the header byte does not count. */
  lemma UnpaddedIs(t: Text, message: Bytes, fill: Bytes)
    ensures Unpadded(t, HexEncode(Padded(message, fill))) == Ok(t.lossy(message + fill[..|fill| - |fill| % 256]))
  {
    hide HexEncode, HexDecode;
    var data := Padded(message, fill);
    HexRoundTrip(data);
    assert data[1..|data| - data[0]] == message + fill[..|fill| - |fill| % 256];
  }

  /** Each of the three refusals, by the string handed in. */
  lemma UnpadRefuses(t: Text, hex: string)
    ensures Unpadded(t, hex) == Err(BadHex) <==> |hex| % 2 == 1 || exists i :: 0 <= i < |hex| && !IsHexDigit(hex[i])
    ensures Unpadded(t, hex) == Err(Empty) <==> hex == ""
    ensures HexDecode(hex).Some? && hex != "" ==>
              (Unpadded(t, hex) == Err(BadLength) <==> |hex| / 2 <= HexDecode(hex).value[0])
  {
    HexDecodesExactly(hex);
  }

  /** For every text below 65536 bytes and every random fill, unpadding gives the text back exactly when its bucket
      leaves at most 255 padding bytes. */
  lemma PadRoundTripExact(t: Text, message: Bytes, fill: Bytes)
    requires Lawful(t) && t.valid(message)
    requires |message| < MAX_BUCKET && |fill| == PadLength(|message|)
    ensures Unpadded(t, HexEncode(Padded(message, fill))) == Ok(message) <==> PadLength(|message|) <= 255
  {
    hide HexEncode, Unpadded, Bucket, Lawful;
    UnpaddedIs(t, message, fill);
    var rest := fill[..|fill| - |fill| % 256];
    LossyLaws(t, message, rest);
    if |fill| <= 255 {
      assert rest == [] && message + rest == message;
    } else {
      assert rest != [];
      assert |message + t.lossy(rest)| > |message|;
    }
  }

  /** Which lengths those are: everything up to 511 bytes, and beyond that the top 256 lengths of each bucket. */
  lemma SafeLengths(n: nat)
    requires n < MAX_BUCKET
    ensures PadLength(n) >= 0
    ensures PadLength(n) <= 255 <==> n <= 511 || 768 <= n < 1024 || 1792 <= n < 2048 || 3840 <= n < 4096 || 7936 <= n < 8192
                                     || 16128 <= n < 16384 || 32512 <= n < 32768 || 65280 <= n
  {}

  /** A 512-byte text does not survive: 511 padding bytes, of which the header counts 255. */
  lemma LongTextCorrupted(t: Text, message: Bytes, fill: Bytes)
    requires Lawful(t) && t.valid(message) && |message| == 512 && |fill| == 511
    ensures Unpadded(t, HexEncode(Padded(message, fill))) == Ok(message + t.lossy(fill[..256]))
    ensures Unpadded(t, HexEncode(Padded(message, fill))) != Ok(message)
  {
    hide HexEncode, Unpadded, Lawful;
    UnpaddedIs(t, message, fill);
    LossyLaws(t, message, fill[..256]);
    PadRoundTripExact(t, message, fill);
  }
}
