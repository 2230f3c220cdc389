/** Run-length coding is as good as it can be: no packed form of a histogram is shorter. */
module HistogramSize {
  import opened Machine
  import opened Varuint
  import opened Histogram

  // ----------------------------------------------------------------------------------------
  // What the packer makes of runs
  // ----------------------------------------------------------------------------------------

  /** The run of empty bins before this ends here. */
  predicate EndsRun(rest: seq<uint16>) {
    rest == [] || rest[0] != 0
  }

  lemma BinIsCoded(v: uint16, rest: seq<uint16>)
    requires v != 0
    ensures Packed([v] + rest) == Encoding(v, 0) + Packed(rest)
  {
    hide Encoding;
    assert ([v] + rest)[1..] == rest;
  }

  lemma SingleZeroIsCoded(rest: seq<uint16>)
    requires EndsRun(rest)
    ensures Packed([0] + rest) == [0] + Packed(rest)
  {
    hide Encoding;
    ZeroRunIs([0] + rest, MAX_RUN, 1);
    assert ([0] + rest)[1..] == rest;
    CompactLayout(0);
  }

  /** A run of two or more empty bins is one symbol, the first overlong form of its length. */
  lemma RunIsCoded(n: nat, rest: seq<uint16>)
    requires 2 <= n < 0x1_0000_0000 && EndsRun(rest)
    ensures Packed(Zeros(n) + rest) == Encoding(n, 1) + Packed(rest)
  {
    hide Encoding;
    var h := Zeros(n) + rest;
    ZeroRunIs(h, MAX_RUN, n);
    assert h[n..] == rest;
  }

  /** A longer run is cut into runs that the 32-bit counter can hold. */
  lemma LongRunIsCoded(n: nat, rest: seq<uint16>)
    requires n >= 0x1_0000_0000
    ensures Packed(Zeros(n) + rest) == Encoding(0xFFFF_FFFF, 1) + Packed(Zeros(n - 0xFFFF_FFFF) + rest)
  {
    hide Encoding;
    var h := Zeros(n) + rest;
    ZeroRunIs(h, MAX_RUN, MAX_RUN);
    assert h[MAX_RUN..] == Zeros(n - MAX_RUN) + rest;
  }

  /** The bytes that a run of empty bins takes. */
  function RunCost(n: nat): nat {
    if n == 0 then 0
    else if n == 1 then 1
    else if n <= MAX_RUN then CompactSize(n) + 1
    else 7 + RunCost(n - MAX_RUN)
  }

  lemma {:induction false} RunSize(n: nat, rest: seq<uint16>)
    requires EndsRun(rest)
    ensures |Packed(Zeros(n) + rest)| == RunCost(n) + |Packed(rest)|
    decreases n
  {
    hide Packed, Encoding;
    if n == 0 {
      assert Zeros(0) + rest == rest;
    } else if n == 1 {
      assert Zeros(1) == [0];
      SingleZeroIsCoded(rest);
    } else if n <= MAX_RUN {
      RunIsCoded(n, rest);
    } else {
      LongRunIsCoded(n, rest);
      RunSize(n - MAX_RUN, rest);
    }
  }

  // ----------------------------------------------------------------------------------------
  // Cutting a run never pays
  // ----------------------------------------------------------------------------------------

  lemma CompactSizeGrows(a: uint32, b: uint32)
    requires a <= b
    ensures CompactSize(a) <= CompactSize(b)
  {
  }

  lemma CompactSizeOfSum(a: uint32, b: uint32)
    requires 0 < a && 0 < b && a + b as int < 0x1_0000_0000
    ensures CompactSize(a + b) <= (if a >= b then CompactSize(a) else CompactSize(b)) + 1
  {
  }

  lemma RunCostGrows(a: nat, b: nat)
    requires a <= b <= MAX_RUN
    ensures RunCost(a) <= RunCost(b)
  {
    if a >= 2 {
      CompactSizeGrows(a, b);
    }
  }

  lemma {:induction false} RunCostOfSum(a: nat, b: nat)
    ensures RunCost(a + b) <= RunCost(a) + RunCost(b)
    decreases a + b
  {
    if a > MAX_RUN {
      RunCostOfSum(a - MAX_RUN, b);
    } else if b > MAX_RUN {
      RunCostOfSum(a, b - MAX_RUN);
    } else if a > 0 && b > 0 {
      if a + b <= MAX_RUN {
        CompactSizeOfSum(a, b);
      } else if a >= b {
        RunCostGrows(a + b - MAX_RUN, b);
      } else {
        RunCostGrows(a + b - MAX_RUN, a);
      }
    }
  }

  lemma {:induction false} LeadingZeros(u: seq<uint16>) returns (m: nat)
    ensures m <= |u| && u == Zeros(m) + u[m..] && EndsRun(u[m..])
  {
    if EndsRun(u) {
      m := 0;
    } else {
      m := LeadingZeros(u[1..]);
      m := m + 1;
      assert u == [0] + u[1..] && u[1..][m - 1..] == u[m..];
      assert Zeros(m) == [0] + Zeros(m - 1);
    }
  }

  lemma ZerosInFront(n: nat, u: seq<uint16>)
    ensures |Packed(Zeros(n) + u)| <= RunCost(n) + |Packed(u)|
  {
    hide Packed, RunCost, EndsRun;
    var m := LeadingZeros(u);
    var w := u[m..];
    assert Zeros(n) + u == Zeros(n + m) + w;
    RunSize(m, w);
    RunSize(n + m, w);
    RunCostOfSum(n, m);
  }

  // ----------------------------------------------------------------------------------------
  // No form is shorter
  // ----------------------------------------------------------------------------------------

  /** A decoded varuint takes as many bytes as its compact form, and one more for each overlong count. */
  lemma DecodedSize(mem: seq<byte>)
    requires Decode(mem).Decoded?
    ensures Decode(mem).size == CompactSize(Decode(mem).value) + Decode(mem).overlong
  {
    DecodedShape(mem);
  }

  lemma SymbolInFront(value: uint32, overlong: nat, u: seq<uint16>)
    ensures |Packed(Bins(value, overlong) + u)| <= CompactSize(value) + overlong + |Packed(u)|
  {
    hide Packed, Encoding;
    if overlong > 0 {
      ZerosInFront(value, u);
    } else if 0 < value <= MAX_BIN {
      BinIsCoded(value, u);
    } else {
      assert Bins(value, overlong) == Zeros(1);
      ZerosInFront(1, u);
    }
  }

  /** Any well-formed sequence of symbols that unpacks to a histogram is at least as long as its packed form. */
  lemma {:induction false} PackedIsShortest(mem: seq<byte>, left: nat)
    requires WellFormed(mem, left) && EndsExactly(mem, left)
    ensures |Packed(Unpacked(mem, left))| <= left
    decreases |mem|
  {
    hide Packed, Decode, Bins, Unpacked, WellFormed, EndsExactly;
    if left == 0 {
      CountEnd(mem, 0);
      NothingPacked();
    } else {
      CountSymbol(mem, left);
      var r := Decode(mem);
      UnpackStep(mem, left, mem[..r.size]);
      var rest := mem[r.size..];
      EndsLater(rest, left - r.size);
      PackedIsShortest(rest, left - r.size);
      DecodedSize(mem);
      SymbolInFront(r.value, r.overlong, Unpacked(rest, left - r.size));
    }
  }

  lemma NothingPacked()
    ensures Packed([]) == []
  {
  }

  lemma EndsLater(mem: seq<byte>, left: int)
    requires EndsExactly(mem, left)
    ensures left >= 0
  {
    hide Decode;
  }
}
