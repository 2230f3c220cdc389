/** The facts that connect bytes as numbers with bytes as bit vectors. */
module Bits {

  /** Every byte is the value of a bit vector. */
  lemma {:induction false} BitsOfValue(ch: nat) returns (x: bv8)
    requires ch < 0x100
    ensures x as nat == ch
  {
    if ch == 0 {
      x := 0;
    } else {
      x := BitsOfValue(ch - 1);
      Successor(x);
      x := x + 1;
    }
  }

  lemma Successor(x: bv8)
    requires x != 0xFF
    ensures (x + 1) as nat == x as nat + 1
  {
  }

  lemma BackAndForth(x: bv8)
    ensures (x as nat) as bv8 == x
  {
  }

  /** A byte survives being held in a bit vector. */
  lemma AsBits(ch: nat)
    requires ch < 0x100
    ensures (ch as bv8) as nat == ch
  {
    var x := BitsOfValue(ch);
    BackAndForth(x);
  }

  /** ... also when it is widened. */
  lemma AsWideBits(ch: nat)
    requires ch < 0x100
    ensures (ch as bv16) as nat == ch
  {
    AsBits(ch);
    Widened(ch as bv8);
    WidenedLater(ch);
  }

  lemma Widened(x: bv8)
    ensures (x as bv16) as nat == x as nat
  {
  }

  lemma WidenedLater(ch: nat)
    requires ch < 0x100
    ensures (ch as bv8) as bv16 == ch as bv16
  {
  }
}
