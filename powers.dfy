/** `range_demo2`: filling a slice of ten `int`s with `1 << i`. */
module Powers {
  import opened Int64

  /** `for i := range pow { pow[i] = 1 << uint(i) }`: every element becomes
      the Go `int` value of `1 << i`, computed in 64 bits. */
  method FillPowers(pow: array<int>)
    modifies pow
    ensures forall i :: 0 <= i < pow.Length ==> pow[i] == Shl(1, i)
  {
    for i := 0 to pow.Length
      invariant forall k :: 0 <= k < i ==> pow[k] == Shl(1, k)
    {
      pow[i] := Shl(1, i);
    }
  }

  /** `pow := make([]int, 10)` filled by the loop: 2^0 .. 2^9, none of
      them reaching the sign bit. */
  method RangeDemo2() returns (pow: seq<int>)
    ensures pow == [1, 2, 4, 8, 16, 32, 64, 128, 256, 512]
    ensures forall i :: 0 <= i < |pow| ==> pow[i] == Pow2(i)
  {
    var a := new int[10](_ => 0);
    FillPowers(a);
    forall i | 0 <= i < 10
      ensures a[i] == Pow2(i)
    {
      ShlOneSmall(i);
    }
    pow := a[..];
    assert Pow2(8) == 256 && Pow2(9) == 512;
  }
}
