/** 2-of-3 Shamir sharing of a key over GF(2^8) (crypto/src/snapshot_defense.rs). */
module Shamir {
  import opened Gf256
  import opened Wrappers

  /** One share: index `x` and one value byte per key byte. */
  datatype Shard = Shard(x: bv8, y: seq<bv8>)

  datatype SnapError =
    | InsufficientShards(have: nat)
    | KeyLength(got: nat)
    | NotEphemeral
    | StatFs
    | Persist

  type SnapResult<+T> = Result<T, SnapError>

  /** The point at `x` of the line with constant term `key` and slope `coeffs`, byte by byte. */
  function ShareAt(key: seq<bv8>, coeffs: seq<bv8>, x: bv8): (y: seq<bv8>)
    requires |key| == |coeffs|
    ensures |y| == |key|
  {
    seq(|key|, i requires 0 <= i < |key| => Add(key[i], Mul(coeffs[i], x)))
  }

  /** The share index handed to provider n. */
  function Index(n: nat): bv8 {
    if n == 0 then 1 else if n == 1 then 2 else if n == 2 then 3 else 4
  }

  function Split(key: seq<bv8>, coeffs: seq<bv8>): (shards: seq<Shard>)
    requires |key| == |coeffs|
    ensures |shards| == 3
  {
    seq(3, n requires 0 <= n < 3 => Shard(Index(n), ShareAt(key, coeffs, Index(n))))
  }

  /** Lagrange interpolation at 0 of one byte of two shares. */
  function InterpolateByte(ya: bv8, yb: bv8, xa: bv8, xb: bv8): bv8 {
    Add(Mul(ya, Div(xb, Add(xa, xb))), Mul(yb, Div(xa, Add(xa, xb))))
  }

  function Interpolate(a: Shard, b: Shard): (key: seq<bv8>)
    requires |a.y| == |b.y|
    ensures |key| == |a.y|
  {
    seq(|a.y|, i requires 0 <= i < |a.y| => InterpolateByte(a.y[i], b.y[i], a.x, b.x))
  }

  // ----- The source's two procedures

  method SplitKey(key: seq<bv8>, coeffs: seq<bv8>) returns (shards: seq<Shard>)
    requires |key| == |coeffs|
    ensures shards == Split(key, coeffs)
  {
    hide Mul, Add;
    shards := [];
    var x: bv8 := 1;
    while x <= 3
      invariant |shards| <= 3 && x == Index(|shards|)
      invariant shards == Split(key, coeffs)[..|shards|]
      decreases 4 - x
    {
      var y := [];
      ghost var target := ShareAt(key, coeffs, x);
      for i := 0 to |key|
        invariant y == target[..i]
      {
        var m := GfMul(coeffs[i], x);
        AddIs(key[i], m);
        assert target[i] == Add(key[i], m);
        y := y + [key[i] ^ m];
      }
      assert y == target;
      shards := shards + [Shard(x, y)];
      x := x + 1;
    }
  }

  lemma AddIs(a: bv8, b: bv8) ensures a ^ b == Add(a, b) {}

  method Reconstruct(shards: seq<Shard>) returns (r: SnapResult<seq<bv8>>)
    requires |shards| >= 2 ==> |shards[0].y| == |shards[1].y|
    ensures r == if |shards| < 2 then Err(InsufficientShards(|shards|)) else Ok(Interpolate(shards[0], shards[1]))
  {
    hide Mul, Add, Div;
    if |shards| < 2 {
      return Err(InsufficientShards(|shards|));
    }
    var a, b := shards[0], shards[1];
    var denom := a.x ^ b.x;
    AddIs(a.x, b.x);
    var lambdaA := GfDiv(b.x, denom);
    var lambdaB := GfDiv(a.x, denom);
    ghost var target := Interpolate(a, b);
    assert forall i :: 0 <= i < |a.y| ==>
             target[i] == Add(Mul(a.y[i], lambdaA), Mul(b.y[i], lambdaB));
    hide Interpolate;
    var secret := [];
    for i := 0 to |a.y|
      invariant secret == target[..i]
    {
      var u := GfMul(a.y[i], lambdaA);
      var v := GfMul(b.y[i], lambdaB);
      AddIs(u, v);
      secret := secret + [u ^ v];
    }
    assert secret == target;
    r := Ok(secret);
  }

  // ----- Interpolation of two points, on one line or on two lines through the same key

  /** How much of a slope difference leaks into the interpolated byte. */
  function Leak(xa: bv8, xb: bv8): bv8 { Mul(Mul(xa, xb), Inv(Add(xa, xb))) }

  lemma WeightsAddUp(s: bv8, xa: bv8, xb: bv8)
    requires xa != xb
    ensures Add(Mul(s, Div(xb, Add(xa, xb))), Mul(s, Div(xa, Add(xa, xb)))) == s
  {
    var d := Add(xa, xb);
    AddCancel(xa, xb);
    hide Mul, Add, Inverse;
    var la, lb := Div(xb, d), Div(xa, d);
    MulLaws(s, la, lb);
    assert Add(la, lb) == 1 by {
      Distributes(Inv(d), xb, xa);
      AddLaws(xa, xb, 0);
      InverseLaw(d, 0);
    }
    MulLaws(s, 1, 0);
  }

  lemma CrossTerm(c: bv8, x: bv8, z: bv8, i: bv8)
    ensures Mul(Mul(c, x), Mul(z, i)) == Mul(c, Mul(Mul(x, z), i))
  {
    hide Mul, Add;
    MulLaws(c, x, Mul(z, i));
    MulLaws(x, z, i);
  }

  /** Two points of two lines through the same key interpolate to the key plus a multiple of the slope difference. */
  lemma InterpolateMixedByte(s: bv8, c: bv8, e: bv8, xa: bv8, xb: bv8)
    requires xa != xb
    ensures InterpolateByte(Add(s, Mul(c, xa)), Add(s, Mul(e, xb)), xa, xb)
            == Add(s, Mul(Add(c, e), Leak(xa, xb)))
  {
    hide Mul, Add, Inv;
    var d := Add(xa, xb);
    var la, lb, k := Div(xb, d), Div(xa, d), Leak(xa, xb);
    Distributes(la, s, Mul(c, xa));
    Distributes(lb, s, Mul(e, xb));
    CrossTerm(c, xa, xb, Inv(d));
    CrossTerm(e, xb, xa, Inv(d));
    MulLaws(xa, xb, 0);
    AddInterchange(Mul(s, la), Mul(c, k), Mul(s, lb), Mul(e, k));
    WeightsAddUp(s, xa, xb);
    Distributes(k, c, e);
  }

  lemma NoZeroDivisors(a: bv8, b: bv8)
    requires Mul(a, b) == 0
    ensures a == 0 || b == 0
  {
    hide Mul, Add, Inverse;
    if a != 0 {
      InverseLaw(a, 0);
      MulLaws(Inverse(a), a, b);
      MulLaws(a, Inverse(a), 0);
      MulLaws(b, 1, 0);
      MulLaws(Inverse(a), 0, 0);
    }
  }

  lemma LeakNonzero(xa: bv8, xb: bv8)
    requires xa != xb && xa != 0 && xb != 0
    ensures Leak(xa, xb) != 0
  {
    AddCancel(xa, xb);
    hide Mul, Add, Inverse;
    if Leak(xa, xb) == 0 {
      NoZeroDivisors(Mul(xa, xb), Inv(Add(xa, xb)));
      InverseNonzero(Add(xa, xb));
      NoZeroDivisors(xa, xb);
    }
  }

  /** Shares of two lines through one key, at distinct nonzero points, give the key back exactly when the
      lines are the same. */
  lemma MixedByteExact(s: bv8, c: bv8, e: bv8, xa: bv8, xb: bv8)
    requires xa != xb && xa != 0 && xb != 0
    ensures InterpolateByte(Add(s, Mul(c, xa)), Add(s, Mul(e, xb)), xa, xb) == s <==> c == e
  {
    hide Mul, Add, Leak, InterpolateByte;
    var m := Mul(Add(c, e), Leak(xa, xb));
    InterpolateMixedByte(s, c, e, xa, xb);
    AddLaws(s, m, 0);
    AddKeeps(s, m);
    LeakNonzero(xa, xb);
    if m == 0 {
      NoZeroDivisors(Add(c, e), Leak(xa, xb));
      AddCancel(c, e);
    }
    if c == e {
      AddLaws(c, c, c);
      TimesZero(Leak(xa, xb));
    }
  }

  lemma AddKeeps(s: bv8, m: bv8)
    ensures Add(s, m) == s <==> m == 0
  {}

  lemma SameIndexByte(ya: bv8, yb: bv8, x: bv8)
    ensures InterpolateByte(ya, yb, x, x) == 0
  {
    AddLaws(x, x, x);
    AddLaws(0, 0, 0);
    hide Mul, Add;
    TimesZero(x); TimesZero(ya); TimesZero(yb);
  }

  /** Any two points of one line give the key back exactly when their indices differ (or the key is all zero). */
  lemma ReconstructExact(key: seq<bv8>, coeffs: seq<bv8>, xa: bv8, xb: bv8)
    requires |key| == |coeffs|
    ensures Interpolate(Shard(xa, ShareAt(key, coeffs, xa)), Shard(xb, ShareAt(key, coeffs, xb))) == key
            <==> xa != xb || forall i :: 0 <= i < |key| ==> key[i] == 0
  {
    hide Mul, Add, InterpolateByte;
    var r := Interpolate(Shard(xa, ShareAt(key, coeffs, xa)), Shard(xb, ShareAt(key, coeffs, xb)));
    forall i | 0 <= i < |key|
      ensures r[i] == if xa == xb then 0 else key[i]
    {
      if xa == xb {
        SameIndexByte(ShareAt(key, coeffs, xa)[i], ShareAt(key, coeffs, xa)[i], xa);
      } else {
        OneLineByte(key[i], coeffs[i], xa, xb);
      }
    }
  }

  lemma OneLineByte(s: bv8, c: bv8, xa: bv8, xb: bv8)
    requires xa != xb
    ensures InterpolateByte(Add(s, Mul(c, xa)), Add(s, Mul(c, xb)), xa, xb) == s
  {
    hide Mul, Add, Leak, InterpolateByte;
    InterpolateMixedByte(s, c, c, xa, xb);
    AddLaws(c, c, c);
    TimesZero(Leak(xa, xb));
    AddLaws(s, 0, 0);
  }

  /** Points of two lines through one key give the key back exactly when the two lines are one. */
  lemma ReconstructMixedExact(key: seq<bv8>, c: seq<bv8>, e: seq<bv8>, xa: bv8, xb: bv8)
    requires |key| == |c| == |e|
    requires xa != xb && xa != 0 && xb != 0
    ensures Interpolate(Shard(xa, ShareAt(key, c, xa)), Shard(xb, ShareAt(key, e, xb))) == key <==> c == e
  {
    hide Mul, Add, InterpolateByte;
    var r := Interpolate(Shard(xa, ShareAt(key, c, xa)), Shard(xb, ShareAt(key, e, xb)));
    forall i | 0 <= i < |key|
      ensures r[i] == key[i] <==> c[i] == e[i]
    {
      MixedByteExact(key[i], c[i], e[i], xa, xb);
    }
  }

  // ----- One share says nothing about the key

  lemma SlopeByte(s: bv8, y: bv8, x: bv8, c: bv8)
    requires x != 0
    ensures Add(s, Mul(c, x)) == y <==> c == Mul(Add(s, y), Inverse(x))
  {
    hide Mul, Add, Inverse;
    var t := Add(s, y);
    InverseLaw(x, 0);
    AddMoves(s, Mul(c, x), y);
    if c == Mul(t, Inverse(x)) {
      MulLaws(t, Inverse(x), x);
      MulLaws(x, Inverse(x), 0);
      MulLaws(t, 1, 0);
    }
    if Mul(c, x) == t {
      MulLaws(c, x, Inverse(x));
      MulLaws(c, 1, 0);
    }
  }

  lemma AddMoves(s: bv8, m: bv8, y: bv8)
    ensures Add(s, m) == y <==> m == Add(s, y)
  {
    hide Add;
    AddLaws(s, s, m);
    AddLaws(s, s, y);
    AddLaws(s, s, s);
    AddLaws(0, m, 0); AddLaws(0, y, 0);
    AddLaws(m, 0, 0); AddLaws(y, 0, 0);
  }

  /** The only slope vector for which `key` has the share `y` at `x`. */
  function SlopeThrough(key: seq<bv8>, y: seq<bv8>, x: bv8): (c: seq<bv8>)
    requires |key| == |y|
    ensures |c| == |key|
  {
    seq(|key|, i requires 0 <= i < |key| => Mul(Add(key[i], y[i]), Inverse(x)))
  }

  /** For every index, share value and candidate key exactly one coefficient vector explains the share. */
  lemma OneShareFitsEveryKey(key: seq<bv8>, y: seq<bv8>, x: bv8, coeffs: seq<bv8>)
    requires |key| == |y| == |coeffs| && x != 0
    ensures ShareAt(key, coeffs, x) == y <==> coeffs == SlopeThrough(key, y, x)
  {
    hide Mul, Add, Inverse;
    forall i | 0 <= i < |key|
      ensures ShareAt(key, coeffs, x)[i] == y[i] <==> coeffs[i] == SlopeThrough(key, y, x)[i]
    {
      SlopeByte(key[i], y[i], x, coeffs[i]);
    }
  }

  /** The shares are the points at 1, 2 and 3, in doublings instead of products; together they sum to the key. */
  lemma SharesAre(key: seq<bv8>, coeffs: seq<bv8>, i: nat)
    requires |key| == |coeffs| && i < |key|
    ensures var shards := Split(key, coeffs);
            && shards[0].x == 1 && shards[1].x == 2 && shards[2].x == 3
            && shards[0].y[i] == Add(key[i], coeffs[i])
            && shards[1].y[i] == Add(key[i], Xtime(coeffs[i]))
            && shards[2].y[i] == Add(key[i], Add(coeffs[i], Xtime(coeffs[i])))
            && Add(shards[0].y[i], Add(shards[1].y[i], shards[2].y[i])) == key[i]
  {
    hide Mul, Add, Xtime;
    TimesSmall(coeffs[i]);
    SharesSum(key[i], coeffs[i], Xtime(coeffs[i]));
  }

  lemma TimesSmall(c: bv8)
    ensures Mul(c, 1) == c && Mul(c, 2) == Xtime(c) && Mul(c, 3) == Add(c, Xtime(c))
  {
    assert Add(1, 2) == 3;
    hide Mul, Add, Xtime;
    MulLaws(c, 1, 2);
    MulLaws(c, 2, 2);
    XtimeIsTimesTwo(c);
  }

  lemma SharesSum(a: bv8, c: bv8, d: bv8)
    ensures Add(Add(a, c), Add(Add(a, d), Add(a, Add(c, d)))) == a
  {
    assert (a ^ c) ^ ((a ^ d) ^ (a ^ (c ^ d))) == a;
  }
}
