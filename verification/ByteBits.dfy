/** Single bits of a byte. */
module ByteBits {

  predicate BitOf(b: bv8, k: nat)
    requires k < 8
  {
    b & (1 << k) != 0
  }

  lemma SetBit(b: bv8, k: nat, j: nat)
    requires k < 8 && j < 8
    ensures BitOf(b | (1 << k), j) <==> j == k || BitOf(b, j)
  {
    var s: seq<bv8> := [1, 2, 4, 8, 16, 32, 64, 128];
    assert (1 as bv8) << k == s[k] && (1 as bv8) << j == s[j];
  }

  lemma ClearBit(b: bv8, k: nat, j: nat)
    requires k < 8 && j < 8
    ensures BitOf(b & !(1 << k), j) <==> j != k && BitOf(b, j)
  {
    var s: seq<bv8> := [1, 2, 4, 8, 16, 32, 64, 128];
    assert (1 as bv8) << k == s[k] && (1 as bv8) << j == s[j];
  }

  lemma ZeroByte(j: nat)
    requires j < 8
    ensures !BitOf(0, j) && BitOf(0xff, j)
  {
    var s: seq<bv8> := [1, 2, 4, 8, 16, 32, 64, 128];
    assert (1 as bv8) << j == s[j];
  }
}
