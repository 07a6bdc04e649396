/** Single bits of a byte, as selected by a shifted one. */
module ByteBits {

  function Mask(k: nat): bv8
    requires k < 8
  {
    1 << k
  }

  predicate Bit(b: bv8, k: nat)
    requires k < 8
  {
    b & Mask(k) != 0
  }

  lemma Masks()
    ensures Mask(0) == 1 && Mask(1) == 2 && Mask(2) == 4 && Mask(3) == 8
    ensures Mask(4) == 16 && Mask(5) == 32 && Mask(6) == 64 && Mask(7) == 128
  {
  }

  lemma MaskIs(k: nat)
    requires k < 8
    ensures Mask(k) == if k == 0 then 1 else if k == 1 then 2 else if k == 2 then 4 else if k == 3 then 8 else
                       if k == 4 then 16 else if k == 5 then 32 else if k == 6 then 64 else 128
  {
    Masks();
  }

  lemma SetBit(b: bv8, k: nat, j: nat)
    requires k < 8 && j < 8
    ensures Bit(b | Mask(k), j) <==> j == k || Bit(b, j)
  {
    hide Mask;
    MaskIs(k);
    MaskIs(j);
  }

  lemma UnsetBit(b: bv8, k: nat, j: nat)
    requires k < 8 && j < 8
    ensures Bit(b & !Mask(k), j) <==> j != k && Bit(b, j)
  {
    hide Mask;
    MaskIs(k);
    MaskIs(j);
  }

  lemma AllSet(k: nat)
    requires k < 8
    ensures Bit(0xFF, k)
  {
    hide Mask;
    MaskIs(k);
  }

  lemma NoneSet(k: nat)
    requires k < 8
    ensures !Bit(0, k)
  {
    hide Mask;
    MaskIs(k);
  }
}
