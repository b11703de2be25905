/** Bytes as bit vectors and as numbers. */
module BvBytes {

  lemma ByteBack(x: bv8)
    ensures (x as int) as bv8 == x
  {
  }

  /** The byte with the value `t`, reached by counting: the solver knows little of a conversion from
      an unknown number. */
  function ByteOf(t: nat): (b: bv8)
    requires t < 0x100
    ensures b as int == t
  {
    if t == 0 then 0 else var b := ByteOf(t - 1); b + 1
  }

  lemma SmallField(x: bv8)
    requires x as int < 15
    ensures x < 15
  {
  }
}
