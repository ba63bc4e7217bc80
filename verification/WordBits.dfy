/** Single bits of 64-bit words, as compiler/cvm.c sets, clears and tests them. */
module WordBits {
  function Mask(k: bv7): bv64
    requires k < 64
  {
    1 << k
  }

  function Or(w: bv64, mask: bv64): bv64 { w | mask }
  function AndNot(w: bv64, mask: bv64): bv64 { w & !mask }
  function And(w: bv64, mask: bv64): bv64 { w & mask }
  predicate Probe(w: bv64, mask: bv64) { And(w, mask) != 0 }

  /** (word >> k) & 1, as the test operations compute it. */
  function Shifted(w: bv64, k: bv7): bv64
    requires k < 64
  {
    (w >> k) & 1
  }

  lemma MasksApart(i: bv7, j: bv7)
    requires i < 64 && j < 64
    ensures Probe(Mask(i), Mask(j)) <==> i == j
  {
  }

  lemma OrDistributes(w: bv64, a: bv64, b: bv64)
    ensures (w | a) & b == (w & b) | (a & b)
  {
  }

  lemma OrIsZero(x: bv64, y: bv64)
    ensures x | y == 0 <==> x == 0 && y == 0
  {
  }

  lemma OrOfMasks(w: bv64, a: bv64, b: bv64)
    ensures Probe(Or(w, a), b) <==> Probe(a, b) || Probe(w, b)
  {
    OrDistributes(w, a, b);
    OrIsZero(w & b, a & b);
  }

  lemma AndOfAndNot(w: bv64, a: bv64, b: bv64)
    ensures And(AndNot(w, a), b) == And(w, AndNot(b, a))
  {
  }

  lemma NothingTaken(a: bv64, b: bv64)
    ensures And(a, b) == 0 ==> AndNot(b, a) == b
  {
  }

  lemma AndNotOfMasks(w: bv64, a: bv64, b: bv64)
    requires !Probe(a, b)
    ensures Probe(AndNot(w, a), b) <==> Probe(w, b)
  {
    hide And;
    hide AndNot;
    AndOfAndNot(w, a, b);
    NothingTaken(a, b);
  }

  lemma AndNotOfMask(w: bv64, a: bv64)
    ensures !Probe(AndNot(w, a), a)
  {
    assert w & !a & a == 0;
  }

  lemma OrBits(w: bv64, i: bv7, j: bv7)
    requires i < 64 && j < 64
    ensures Probe(Or(w, Mask(i)), Mask(j)) <==> i == j || Probe(w, Mask(j))
  {
    hide Mask;
    hide Or;
    hide Probe;
    MasksApart(i, j);
    OrOfMasks(w, Mask(i), Mask(j));
  }

  lemma AndNotBits(w: bv64, i: bv7, j: bv7)
    requires i < 64 && j < 64
    ensures Probe(AndNot(w, Mask(i)), Mask(j)) <==> i != j && Probe(w, Mask(j))
  {
    hide Mask;
    hide AndNot;
    hide Probe;
    MasksApart(i, j);
    if i == j {
      AndNotOfMask(w, Mask(i));
    } else {
      AndNotOfMasks(w, Mask(i), Mask(j));
    }
  }

  lemma ShiftedBit(w: bv64, i: bv7)
    requires i < 64
    ensures Shifted(w, i) == if Probe(w, Mask(i)) then 1 else 0
  {
  }
}
