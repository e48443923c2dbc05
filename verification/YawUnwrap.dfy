/** The yaw receiver of Serial6050.cpp: an unbounded angle rebuilt from its residue modulo 255. */
module YawUnwrap {
  import opened Bits

  /** The change between two residues that is least in magnitude. */
  function Change(prev: Byte, data: Byte): (d: int)
    ensures -127 <= d <= 127
  {
    (data - prev + 127) % 255 - 127
  }

  /** The angle rebuilt from all bytes so far: the first byte, plus every change since. */
  function Unwrapped(bytes: seq<Byte>): int {
    if bytes == [] then 0
    else if |bytes| == 1 then bytes[0]
    else Unwrapped(bytes[..|bytes| - 1]) + Change(bytes[|bytes| - 2], bytes[|bytes| - 1])
  }

  class Yaw {
    var data: Byte
    var previous: Byte       // static local of the source, set by the first byte ever received
    var oldIsSet: bool
    var Bias: int
    var Deg: int
    var resetValue: int
    ghost var bytes: seq<Byte>
    ghost var atReset: seq<Byte>

    ghost predicate Valid()
      reads this
    {
      && (oldIsSet <==> bytes != [])
      && (oldIsSet ==> previous == data == bytes[|bytes| - 1])
      && Deg == ToSigned32(Unwrapped(bytes))
      && Bias == ToSigned32(Unwrapped(bytes) - if oldIsSet then data else 0)
      && resetValue == ToSigned32(Unwrapped(atReset))
    }

    /** The reset value is not initialised by the source; `init` resets before any use. */
    constructor ()
      ensures Valid() && bytes == [] && atReset == []
    {
      data, previous, oldIsSet := 0, 0, false;
      Bias, Deg, resetValue := 0, 0, 0;
      bytes, atReset := [], [];
    }

    method IntReceive(b: Byte)
      requires Valid()
      modifies `data, `previous, `oldIsSet, `Bias, `Deg, `bytes
      ensures Valid() && bytes == old(bytes) + [b] && Deg == ToSigned32(Unwrapped(bytes))
    {
      hide Unwrapped, Change, ToSigned32;
      OneMore(bytes, b);
      ghost var was := Unwrapped(bytes);
      data := b;
      if !oldIsSet {
        previous := data;
        oldIsSet := true;
      }
      WrapSums(was - (if bytes == [] then 0 else previous), b);
      CodeChange(previous, b);
      if data > previous && data - previous > 127 {
        Bias := ToSigned32(Bias - 255);
      } else if data < previous && previous - data > 127 {
        Bias := ToSigned32(Bias + 255);
      }
      Deg := ToSigned32(data + Bias);
      previous := data;
      bytes := bytes + [b];
    }

    method Reset()
      requires Valid()
      modifies `resetValue, `atReset
      ensures Valid() && atReset == bytes && resetValue == ToSigned32(Unwrapped(bytes))
    {
      resetValue := Deg;
      atReset := bytes;
    }

    /** The displacement since the last reset, in tenths, as a real number. */
    method Read() returns (r: real)
      requires Valid()
      ensures r == ToSigned32(Unwrapped(bytes) - Unwrapped(atReset)) as real / 10.0
    {
      WrapDifference(Unwrapped(bytes), Unwrapped(atReset));
      r := ToSigned32(Deg - resetValue) as real / 10.0;
    }
  }

  lemma OneMore(bytes: seq<Byte>, b: Byte)
    ensures Unwrapped(bytes + [b]) ==
      if bytes == [] then b else Unwrapped(bytes) + Change(bytes[|bytes| - 1], b)
    ensures bytes == [] ==> Unwrapped(bytes) == 0
  {
    assert (bytes + [b])[..|bytes|] == bytes;
  }

  /** The source's two comparisons compute the least change. */
  lemma CodeChange(prev: Byte, b: Byte)
    ensures b - prev + (if b - prev > 127 then -255 else if prev - b > 127 then 255 else 0) == Change(prev, b)
  {
  }

  lemma WrapSums(bias: int, b: Byte)
    ensures ToSigned32(b + ToSigned32(bias)) == ToSigned32(b + bias)
    ensures ToSigned32(ToSigned32(bias) - 255) == ToSigned32(bias - 255)
    ensures ToSigned32(ToSigned32(bias) + 255) == ToSigned32(bias + 255)
    ensures ToSigned32(b + ToSigned32(bias - 255)) == ToSigned32(b + bias - 255)
    ensures ToSigned32(b + ToSigned32(bias + 255)) == ToSigned32(b + bias + 255)
  {
    hide ToSigned32;
    WrapSum(bias, b);
    WrapSum(bias, -255);
    WrapSum(bias, 255);
    WrapSum(bias - 255, b);
    WrapSum(bias + 255, b);
  }

  lemma WrapDifference(x: int, y: int)
    ensures ToSigned32(ToSigned32(x) - ToSigned32(y)) == ToSigned32(x - y)
  {
  }

  // ---- what the rebuilt angle means ---------------------------------------------------------

  /** Each byte is its angle modulo 255 (255 also stands for 0), however fast the angle turns. */
  ghost predicate Residues(angles: seq<int>, bytes: seq<Byte>) {
    |angles| == |bytes| && forall i :: 0 <= i < |bytes| ==> (angles[i] - bytes[i]) % 255 == 0
  }

  /** Bytes carry a true angle: it also changes by at most 127 from one byte to the next. */
  ghost predicate Carries(angles: seq<int>, bytes: seq<Byte>) {
    && Residues(angles, bytes)
    && (forall i {:trigger angles[i]} :: 0 < i < |angles| ==> -127 <= angles[i] - angles[i - 1] <= 127)
  }

  lemma LeastChangeUnique(prev: Byte, b: Byte, a0: int, a1: int)
    requires (a0 - prev) % 255 == 0 && (a1 - b) % 255 == 0 && -127 <= a1 - a0 <= 127
    ensures Change(prev, b) == a1 - a0
  {
    var k := (a1 - b) / 255 - (a0 - prev) / 255;
    assert a1 - a0 == b - prev + 255 * k;
    DivModUnique(b - prev + 127, 255, -k, a1 - a0 + 127);
  }

  /** One sample: its rebuilt change is the true one exactly when the true one is at most 127. */
  lemma ChangeIsTrueExactly(prev: Byte, b: Byte, a0: int, a1: int)
    requires (a0 - prev) % 255 == 0 && (a1 - b) % 255 == 0
    ensures Change(prev, b) == a1 - a0 <==> -127 <= a1 - a0 <= 127
  {
    if -127 <= a1 - a0 <= 127 {
      LeastChangeUnique(prev, b, a0, a1);
    }
  }

  lemma CarriesPrefix(angles: seq<int>, bytes: seq<Byte>, k: nat)
    requires Carries(angles, bytes) && k <= |bytes|
    ensures Carries(angles[..k], bytes[..k])
  {
    assert forall i :: 0 <= i < k ==> angles[..k][i] == angles[i] && bytes[..k][i] == bytes[i];
  }

  /** Unwrapping is exact: whatever the true angle does, the rebuilt angle follows it. */
  lemma {:induction false} FollowsTrueAngle(angles: seq<int>, bytes: seq<Byte>)
    requires Carries(angles, bytes) && bytes != []
    ensures Unwrapped(bytes) - bytes[0] == angles[|angles| - 1] - angles[0]
  {
    var n := |bytes| - 1;
    if n > 0 {
      CarriesPrefix(angles, bytes, n);
      FollowsTrueAngle(angles[..n], bytes[..n]);
      assert -127 <= angles[n] - angles[n - 1] <= 127;
      LeastChangeUnique(bytes[n - 1], bytes[n], angles[n - 1], angles[n]);
    }
  }

  /** The rebuilt angle has followed the true one through the first `k` samples. */
  predicate Followed(angles: seq<int>, bytes: seq<Byte>, k: nat)
    requires |angles| == |bytes| && 0 < k <= |bytes|
  {
    Unwrapped(bytes[..k]) - bytes[0] == angles[k - 1] - angles[0]
  }

  /** Over a whole stream: the rebuilt angle follows the true one through every sample exactly when the
      angle never changes by more than 127 a sample. */
  lemma FollowedExactly(angles: seq<int>, bytes: seq<Byte>)
    requires Residues(angles, bytes)
    ensures (forall k :: 0 < k <= |bytes| ==> Followed(angles, bytes, k)) <==> Carries(angles, bytes)
  {
    hide Unwrapped, Change;
    if Carries(angles, bytes) {
      forall k | 0 < k <= |bytes|
        ensures Followed(angles, bytes, k)
      {
        CarriesPrefix(angles, bytes, k);
        FollowsTrueAngle(angles[..k], bytes[..k]);
      }
    }
    if forall k :: 0 < k <= |bytes| ==> Followed(angles, bytes, k) {
      forall i | 0 < i < |angles|
        ensures -127 <= angles[i] - angles[i - 1] <= 127
      {
        assert Followed(angles, bytes, i) && Followed(angles, bytes, i + 1);
        assert bytes[..i + 1] == bytes[..i] + [bytes[i]];
        OneMore(bytes[..i], bytes[i]);
      }
    }
  }

  /** Between any two bytes of such a stream the rebuilt angle moves by the true displacement,
      so `Read` after a reset at byte `k` is that displacement over ten. */
  lemma DisplacementIsTrue(angles: seq<int>, bytes: seq<Byte>, k: nat)
    requires Carries(angles, bytes) && 0 < k <= |bytes|
    ensures Unwrapped(bytes) - Unwrapped(bytes[..k]) == angles[|angles| - 1] - angles[k - 1]
  {
    hide Unwrapped;
    CarriesPrefix(angles, bytes, k);
    FollowsTrueAngle(angles, bytes);
    FollowsTrueAngle(angles[..k], bytes[..k]);
  }

  /** On arbitrary bytes the rebuilt angle keeps the last byte's residue, never jumps by more
      than 127, and stays in 32 bits for at least the first sixteen million bytes. The stored angle
      keeps the residue exactly when it has wrapped a multiple of 255 times, none being one. */
  lemma {:induction false} ArbitraryBytes(bytes: seq<Byte>)
    requires bytes != []
    ensures (Unwrapped(bytes) - bytes[|bytes| - 1]) % 255 == 0
    ensures |bytes| > 1 ==> -127 <= Unwrapped(bytes) - Unwrapped(bytes[..|bytes| - 1]) <= 127
    ensures -127 * |bytes| <= Unwrapped(bytes) <= 128 + 127 * |bytes|
    ensures |bytes| <= 16_000_000 ==> ToSigned32(Unwrapped(bytes)) == Unwrapped(bytes)
    ensures (ToSigned32(Unwrapped(bytes)) - bytes[|bytes| - 1]) % 255 == 0 <==>
      (Unwrapped(bytes) + 0x8000_0000) / 0x1_0000_0000 % 255 == 0
  {
    hide Change;
    var n := |bytes| - 1;
    if n > 0 {
      ArbitraryBytes(bytes[..n]);
      ChangeResidue(Unwrapped(bytes[..n]), bytes[n - 1], bytes[n]);
    }
    hide Unwrapped;
    WrappedResidue(Unwrapped(bytes), bytes[n]);
  }

  /** Each wrap moves the residue by one, 2^32 being one more than a multiple of 255. */
  lemma WrappedResidue(u: int, b: Byte)
    requires (u - b) % 255 == 0
    ensures (ToSigned32(u) - b) % 255 == 0 <==> (u + 0x8000_0000) / 0x1_0000_0000 % 255 == 0
  {
    var w, k := (u + 0x8000_0000) / 0x1_0000_0000, (u - b) / 255;
    assert ToSigned32(u) == u - 0x1_0000_0000 * w;
    var x := ToSigned32(u) - b;
    assert x == 255 * (k - 0x101_0101 * w) - w;
    if w % 255 == 0 {
      DivModUnique(x, 255, k - 0x101_0101 * w - w / 255, 0);
    }
    if x % 255 == 0 {
      DivModUnique(w, 255, k - 0x101_0101 * w - x / 255, 0);
    }
  }

  lemma ChangeResidue(u: int, prev: Byte, b: Byte)
    requires (u - prev) % 255 == 0
    ensures (u + Change(prev, b) - b) % 255 == 0
  {
    var k := (u - prev) / 255;
    var j := (b - prev + 127) / 255;
    DivModUnique(u + Change(prev, b) - b, 255, k - j, 0);
  }
}
