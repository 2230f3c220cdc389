/** Run-length packing of histograms: bins become varuints, runs of empty bins overlong ones. */
module Histogram {
  import opened Machine
  import opened Varuint

  const MAX_RUN: int := 0xFFFF_FFFF
  const MAX_BIN: int := 0xFFFF

  // ----------------------------------------------------------------------------------------
  // Packing
  // ----------------------------------------------------------------------------------------

  /** Number of empty bins at the start of h, as far as the 32-bit run counter goes. */
  function ZeroRun(h: seq<uint16>): (n: nat)
    ensures n <= |h| && n <= MAX_RUN
    ensures forall i :: 0 <= i < n ==> h[i] == 0
    ensures h != [] && h[0] == 0 ==> n > 0
  {
    ZeroRunUpTo(h, MAX_RUN)
  }

  function ZeroRunUpTo(h: seq<uint16>, limit: nat): (n: nat)
    ensures n <= |h| && n <= limit
    ensures forall i :: 0 <= i < n ==> h[i] == 0
    ensures n == |h| || n == limit || h[n] != 0
  {
    if h == [] || limit == 0 || h[0] != 0 then 0 else 1 + ZeroRunUpTo(h[1..], limit - 1)
  }

  lemma {:induction false} ZeroRunIs(h: seq<uint16>, limit: nat, n: nat)
    requires n <= |h| && n <= limit && forall i :: 0 <= i < n ==> h[i] == 0
    requires n == |h| || n == limit || h[n] != 0
    ensures ZeroRunUpTo(h, limit) == n
  {
    if n > 0 {
      ZeroRunIs(h[1..], limit - 1, n - 1);
    }
  }

  /** How many bins the first symbol of the packed form stands for. */
  function Covered(h: seq<uint16>): (n: nat)
    requires h != []
    ensures 1 <= n <= |h|
  {
    if h[0] != 0 then 1 else ZeroRun(h)
  }

  /** The first symbol of the packed form. */
  function Symbol(h: seq<uint16>): (s: seq<byte>)
    requires h != []
    ensures s != []
  {
    if h[0] != 0 then Encoding(h[0], 0)
    else if ZeroRun(h) > 1 then Encoding(ZeroRun(h), 1)
    else Encoding(0, 0)
  }

  /** The packed form of a histogram. */
  function Packed(h: seq<uint16>): seq<byte> {
    if h == [] then [] else Symbol(h) + Packed(h[Covered(h)..])
  }

  /** Finds the end of the run of empty bins that starts at i. */
  method MeasureRun(h: array<uint16>, i: nat) returns (runLength: uint32, last: nat)
    requires i < h.Length && h[i] == 0
    ensures runLength == ZeroRun(h[i..]) && last == i + runLength - 1
  {
    runLength, last := 1, i;
    while last + 1 < h.Length && h[last + 1] == 0 && runLength < 0xFFFF_FFFF
      invariant last == i + runLength - 1 < h.Length
      invariant forall j :: i <= j <= last ==> h[j] == 0
    {
      last := last + 1;
      runLength := runLength + 1;
    }
    ZeroRunIs(h[i..], MAX_RUN, runLength);
  }

  /** Writes one symbol; last is the last bin it stands for. */
  method PackSymbol(buf: array<byte>, end: nat, h: array<uint16>, i: nat) returns (next: nat, last: nat)
    requires i < h.Length && end + |Symbol(h[i..])| <= buf.Length
    modifies buf
    ensures next == end + |Symbol(h[i..])| && last + 1 == i + Covered(h[i..])
    ensures buf[..] == Splice(old(buf[..]), end, Symbol(h[i..]))
  {
    hide Encoding;
    last := i;
    if h[i] != 0 {
      next := Encode(buf, end, h[i]);
    } else {
      var runLength;
      runLength, last := MeasureRun(h, i);
      if runLength > 1 {
        next := EncodeOverlong(buf, end, runLength, 1);
      } else {
        next := Encode(buf, end, 0);
      }
    }
  }

  method Pack(buf: array<byte>, h: array<uint16>) returns (end: nat)
    requires |Packed(h[..])| <= buf.Length
    modifies buf
    ensures end == |Packed(h[..])|
    ensures buf[..] == Splice(old(buf[..]), 0, Packed(h[..]))
  {
    hide Symbol, Covered;
    ghost var before := buf[..];
    end := 0;
    var i := 0;
    assert h[0..] == h[..];
    while i < h.Length
      invariant 0 <= i <= h.Length && end <= |Packed(h[..])|
      invariant buf[..end] + Packed(h[i..]) == Packed(h[..])
      invariant buf[end..] == before[end..]
    {
      ghost var rest, done := h[i..], buf[..end];
      assert Packed(h[..]) == (done + Symbol(rest)) + Packed(rest[Covered(rest)..]);
      var next, last := PackSymbol(buf, end, h, i);
      assert buf[..next] == done + Symbol(rest);
      assert buf[next..] == before[end..][|Symbol(rest)|..];
      assert h[last + 1..] == rest[Covered(rest)..];
      end := next;
      i := last + 1;
    }
    assert Packed(h[i..]) == [];
  }

  /** The size of one symbol; last is the last bin it stands for. */
  method SymbolSize(h: array<uint16>, i: nat) returns (size: nat, last: nat)
    requires i < h.Length
    ensures size == |Symbol(h[i..])| && last + 1 == i + Covered(h[i..])
  {
    hide Encoding;
    last := i;
    if h[i] != 0 {
      size := Size(h[i]);
    } else {
      var runLength;
      runLength, last := MeasureRun(h, i);
      if runLength > 1 {
        size := SizeOverlong(runLength, 1);
      } else {
        size := Size(0);
      }
    }
  }

  /** The size function agrees with what the packer writes. */
  method GetPackedSize(h: array<uint16>) returns (result: nat)
    ensures result == |Packed(h[..])|
  {
    hide Symbol, Covered;
    result := 0;
    var i := 0;
    assert h[0..] == h[..];
    while i < h.Length
      invariant 0 <= i <= h.Length
      invariant result + |Packed(h[i..])| == |Packed(h[..])|
    {
      ghost var rest := h[i..];
      var size, last := SymbolSize(h, i);
      result := result + size;
      i := last + 1;
      assert h[i..] == rest[Covered(rest)..];
    }
  }

  // ----------------------------------------------------------------------------------------
  // Unpacking
  // ----------------------------------------------------------------------------------------

  function Zeros(n: nat): (z: seq<uint16>)
    ensures |z| == n && forall i :: 0 <= i < n ==> z[i] == 0
  {
    seq(n, _ => 0)
  }

  /** The bins a decoded symbol stands for; a value that no bin can hold reads as zero. */
  function Bins(value: uint32, overlong: nat): seq<uint16> {
    if overlong > 0 then Zeros(value) else if value <= MAX_BIN then [value] else [0]
  }

  /**
   * The bins decoded from the start of mem, where the first left bytes belong to the packed form.
   * Decoding ends at the first malformed symbol.
   */
  function Unpacked(mem: seq<byte>, left: int): seq<uint16>
    decreases |mem|
  {
    if left <= 0 || !Decode(mem).Decoded? then []
    else
      var r := Decode(mem);
      Bins(r.value, r.overlong) + Unpacked(mem[r.size..], left - r.size)
  }

  /** No symbol of the packed form makes the decoder look beyond the memory. */
  predicate Readable(mem: seq<byte>, left: int)
    decreases |mem|
  {
    left <= 0 || (!Decode(mem).Overrun? &&
      (Decode(mem).Decoded? ==> Readable(mem[Decode(mem).size..], left - Decode(mem).size)))
  }

  /** Every symbol of the packed form is well formed. */
  predicate WellFormed(mem: seq<byte>, left: int)
    decreases |mem|
  {
    left <= 0 || (Decode(mem).Decoded? && WellFormed(mem[Decode(mem).size..], left - Decode(mem).size))
  }

  /** The last symbol ends exactly with the packed form. */
  predicate EndsExactly(mem: seq<byte>, left: int)
    decreases |mem|
  {
    if left <= 0 || !Decode(mem).Decoded? then left == 0
    else EndsExactly(mem[Decode(mem).size..], left - Decode(mem).size)
  }

  /** Stores the bins of one decoded symbol. */
  method StoreBins(out: array<uint16>, start: nat, r: Decoded) returns (end: nat)
    requires r.Decoded? && start + |Bins(r.value, r.overlong)| <= out.Length
    modifies out
    ensures end == start + |Bins(r.value, r.overlong)|
    ensures out[..] == Splice(old(out[..]), start, Bins(r.value, r.overlong))
  {
    hide Splice;
    end := start;
    BinCount(r.value, r.overlong);
    if r.overlong > 0 {
      var x := r.value;
      while x > 0
        invariant end == start + (r.value - x)
        invariant forall j :: 0 <= j < start || end <= j < out.Length ==> out[j] == old(out[j])
        invariant forall j :: start <= j < end ==> out[j] == 0
      {
        out[end] := 0;
        end := end + 1;
        x := x - 1;
      }
    } else {
      out[end] := if r.value <= MAX_BIN then r.value else 0;
      end := end + 1;
    }
    assert out[start..end] == Bins(r.value, r.overlong);
    SpliceIs(old(out[..]), start, Bins(r.value, r.overlong), out[..]);
  }

  method Unpack(buf: array<byte>, out: array<uint16>, size: nat) returns (end: nat)
    requires size <= buf.Length && Readable(buf[..], size)
    requires |Unpacked(buf[..], size)| <= out.Length
    modifies out
    ensures end == |Unpacked(old(buf[..]), size)|
    ensures out[..] == Splice(old(out[..]), 0, Unpacked(old(buf[..]), size))
  {
    hide Decode, Bins, Unpacked, Readable;
    ghost var mem, before := buf[..], out[..];
    end := 0;
    var read := 0;
    assert mem[0..] == mem;
    while read < size
      invariant 0 <= read <= buf.Length && buf[..] == mem && Readable(mem[read..], size - read)
      invariant end <= |Unpacked(mem, size)|
      invariant out[..end] + Unpacked(mem[read..], size - read) == Unpacked(mem, size)
      invariant out[end..] == before[end..]
      decreases size - read
    {
      ghost var rest, done := mem[read..], out[..end];
      assert buf[read..] == rest;
      UnpackRound(rest, size - read);
      var next, r := DecodeOverlong(buf, read);
      if next <= read {
        break;
      }
      ghost var bins := Bins(r.value, r.overlong);
      assert mem[next..] == rest[r.size..];
      assert Unpacked(mem, size) == (done + bins) + Unpacked(mem[next..], size - next);
      read := next;
      end := StoreBins(out, end, r);
      assert out[..end] == done + bins;
      assert out[end..] == before[|done|..][|bins|..];
    }
    if read >= size {
      NothingToUnpack(mem[read..], size - read);
    }
  }

  /** The next round of unpacking. */
  lemma UnpackRound(mem: seq<byte>, left: nat)
    requires left > 0 && Readable(mem, left)
    ensures !Decode(mem).Overrun?
    ensures !Decode(mem).Decoded? ==> Unpacked(mem, left) == []
    ensures var r := Decode(mem);
            r.Decoded? ==>
              && Readable(mem[r.size..], left - r.size)
              && Unpacked(mem, left) == Bins(r.value, r.overlong) + Unpacked(mem[r.size..], left - r.size)
  {
    hide Decode, Bins;
  }

  lemma NothingToUnpack(mem: seq<byte>, left: int)
    requires left <= 0
    ensures Unpacked(mem, left) == []
  {
  }

  lemma BinCount(value: uint32, overlong: nat)
    ensures |Bins(value, overlong)| == if overlong > 0 then value else 1
  {
  }

  lemma WellFormedStarts(mem: seq<byte>, left: nat)
    requires left > 0 && WellFormed(mem, left)
    ensures Decode(mem).Decoded?
  {
    hide Decode;
  }

  lemma CountSymbol(mem: seq<byte>, left: nat)
    requires left > 0 && WellFormed(mem, left)
    ensures Decode(mem).Decoded?
    ensures var r := Decode(mem); var (rest, left') := (mem[r.size..], left - r.size);
            && |Unpacked(mem, left)| == (if r.overlong > 0 then r.value else 1) + |Unpacked(rest, left')|
            && WellFormed(rest, left') && EndsExactly(mem, left) == EndsExactly(rest, left')
  {
    hide Decode, Bins, Unpacked, EndsExactly, WellFormed;
    WellFormedStarts(mem, left);
    var r := Decode(mem);
    BinCount(r.value, r.overlong);
    UnpackStep(mem, left, mem[..r.size]);
  }

  lemma CountEnd(mem: seq<byte>, left: int)
    requires left <= 0
    ensures Unpacked(mem, left) == [] && EndsExactly(mem, left) == (left == 0) && WellFormed(mem, left)
  {
  }

  /** Counts the bins without unpacking them; zero when the last symbol sticks out of the form. */
  method GetUnpackedSize(buf: array<byte>, size: nat) returns (result: nat)
    requires size <= buf.Length && WellFormed(buf[..], size)
    ensures result == if EndsExactly(buf[..], size) then |Unpacked(buf[..], size)| else 0
  {
    hide Decode, Unpacked, EndsExactly, WellFormed;
    ghost var mem := buf[..];
    result := 0;
    var read := 0;
    assert mem[0..] == mem;
    while read < size
      invariant 0 <= read <= buf.Length && WellFormed(mem[read..], size - read)
      invariant result + |Unpacked(mem[read..], size - read)| == |Unpacked(mem, size)|
      invariant EndsExactly(mem[read..], size - read) == EndsExactly(mem, size)
      decreases size - read
    {
      ghost var rest := mem[read..];
      assert buf[read..] == rest;
      CountSymbol(rest, size - read);
      var next, r := DecodeOverlong(buf, read);
      assert mem[next..] == rest[r.size..];
      read := next;
      if r.overlong > 0 {
        result := result + r.value;
      } else {
        result := result + 1;
      }
    }
    CountEnd(mem[read..], size - read);
    return if read == size then result else 0;
  }

  /** One round of the counting loop: a malformed symbol leaves the read position as it is. */
  function NextPosition(mem: seq<byte>, size: nat, read: nat): (next: nat)
    requires read <= |mem|
    ensures next <= |mem|
  {
    if read < size && Decode(mem[read..]).Decoded? then read + Decode(mem[read..]).size else read
  }

  /** Where the loop reads after n rounds. */
  function ReadPosition(mem: seq<byte>, size: nat, n: nat): (read: nat)
    ensures read <= |mem|
  {
    if n == 0 then 0 else NextPosition(mem, size, ReadPosition(mem, size, n - 1))
  }

  lemma RoundIsNeutral(mem: seq<byte>, size: nat, read: nat)
    requires read <= |mem|
    ensures var next := NextPosition(mem, size, read);
            WellFormed(mem[read..], size - read) <==> WellFormed(mem[next..], size - next)
  {
    hide Decode;
    var rest, next := mem[read..], NextPosition(mem, size, read);
    if next > read {
      assert mem[next..] == rest[next - read..];
    }
  }

  lemma RoundAdvances(mem: seq<byte>, size: nat, read: nat)
    requires read <= |mem| && read < size && WellFormed(mem[read..], size - read)
    ensures NextPosition(mem, size, read) > read
  {
  }

  lemma {:induction false} PositionIsNeutral(mem: seq<byte>, size: nat, n: nat)
    ensures var read := ReadPosition(mem, size, n); WellFormed(mem, size) <==> WellFormed(mem[read..], size - read)
  {
    hide WellFormed, NextPosition;
    if n == 0 {
      assert mem[0..] == mem;
    } else {
      PositionIsNeutral(mem, size, n - 1);
      RoundIsNeutral(mem, size, ReadPosition(mem, size, n - 1));
    }
  }

  lemma {:induction false} CountingEnds(mem: seq<byte>, size: nat, n: nat) returns (end: nat)
    requires WellFormed(mem, size)
    ensures ReadPosition(mem, size, end) >= size
    decreases size - ReadPosition(mem, size, n)
  {
    hide WellFormed, NextPosition;
    var read := ReadPosition(mem, size, n);
    if read >= size {
      end := n;
    } else {
      PositionIsNeutral(mem, size, n);
      RoundAdvances(mem, size, read);
      end := CountingEnds(mem, size, n + 1);
    }
  }

  /** The counting loop comes to its end if and only if every symbol is well formed. */
  lemma CountingEndsIff(mem: seq<byte>, size: nat)
    requires size <= |mem| && Readable(mem, size)
    ensures (exists n :: ReadPosition(mem, size, n) >= size) <==> WellFormed(mem, size)
  {
    hide ReadPosition;
    if n :| ReadPosition(mem, size, n) >= size {
      PositionIsNeutral(mem, size, n);
    }
    if WellFormed(mem, size) {
      var end := CountingEnds(mem, size, 0);
    }
  }

  lemma RoundKeepsEnd(mem: seq<byte>, size: nat, read: nat)
    requires read <= |mem| && WellFormed(mem[read..], size - read)
    ensures var next := NextPosition(mem, size, read);
            && WellFormed(mem[next..], size - next)
            && EndsExactly(mem[read..], size - read) == EndsExactly(mem[next..], size - next)
  {
    hide Decode;
    var rest, next := mem[read..], NextPosition(mem, size, read);
    RoundIsNeutral(mem, size, read);
    if next > read {
      assert mem[next..] == rest[next - read..];
    }
  }

  lemma {:induction false} PositionKeepsEnd(mem: seq<byte>, size: nat, n: nat)
    requires WellFormed(mem, size)
    ensures var read := ReadPosition(mem, size, n);
            WellFormed(mem[read..], size - read) && EndsExactly(mem, size) == EndsExactly(mem[read..], size - read)
  {
    hide WellFormed, NextPosition, EndsExactly;
    if n == 0 {
      assert mem[0..] == mem;
    } else {
      PositionKeepsEnd(mem, size, n - 1);
      RoundKeepsEnd(mem, size, ReadPosition(mem, size, n - 1));
    }
  }

  /** The last symbol ends exactly if and only if the counting loop meets the end of the packed form. */
  lemma EndsExactlyIff(mem: seq<byte>, size: nat)
    requires size <= |mem| && WellFormed(mem, size)
    ensures EndsExactly(mem, size) <==> exists n :: ReadPosition(mem, size, n) == size
  {
    hide ReadPosition, WellFormed, EndsExactly;
    if n :| ReadPosition(mem, size, n) == size {
      PositionKeepsEnd(mem, size, n);
      CountEnd(mem[size..], 0);
    }
    var end := CountingEnds(mem, size, 0);
    PositionKeepsEnd(mem, size, end);
    var read := ReadPosition(mem, size, end);
    CountEnd(mem[read..], size - read);
  }

  /** On a single continuation byte, for one, it goes on for ever. */
  lemma {:induction false} CountingCanStick(n: nat)
    ensures Readable([0x80], 1) && ReadPosition([0x80], 1, n) == 0
  {
    var mem: seq<byte> := [0x80];
    assert mem[0..] == mem && Decode(mem) == Malformed;
    if n > 0 {
      CountingCanStick(n - 1);
    }
  }

  // ----------------------------------------------------------------------------------------
  // The two directions undo each other
  // ----------------------------------------------------------------------------------------

  /** A symbol is decoded as the bins it stands for, whatever follows it. */
  lemma UnpackedSymbol(h: seq<uint16>, tail: seq<byte>)
    requires h != []
    ensures var r := Decode(Symbol(h) + tail);
            r.Decoded? && r.size == |Symbol(h)| && Bins(r.value, r.overlong) == h[..Covered(h)]
  {
    hide Encoding, Decode;
    if h[0] != 0 {
      DecodeOfEncoding(h[0], 0, tail);
      assert h[..1] == [h[0]];
    } else if ZeroRun(h) > 1 {
      DecodeOfEncoding(ZeroRun(h), 1, tail);
      assert h[..ZeroRun(h)] == Zeros(ZeroRun(h));
    } else {
      DecodeOfEncoding(0, 0, tail);
      assert h[..1] == [0];
    }
  }

  /** Unpacking a packed histogram gives it back, whatever follows the packed form in memory. */
  lemma {:induction false} UnpackOfPack(h: seq<uint16>, tail: seq<byte>)
    ensures Unpacked(Packed(h) + tail, |Packed(h)|) == h
    ensures WellFormed(Packed(h) + tail, |Packed(h)|) && EndsExactly(Packed(h) + tail, |Packed(h)|)
    ensures Readable(Packed(h) + tail, |Packed(h)|)
    decreases |h|
  {
    hide Decode, Bins, Unpacked, WellFormed, EndsExactly, Readable, Symbol, Covered;
    if h == [] {
      CountEnd(Packed(h) + tail, 0);
    } else {
      var rest := h[Covered(h)..];
      UnpackOfPack(rest, tail);
      UnpackedSymbol(h, Packed(rest) + tail);
      UnpackCons(Symbol(h), Packed(rest), tail, 0);
      assert h == h[..Covered(h)] + rest;
    }
    WellFormedIsReadable(Packed(h) + tail, |Packed(h)|);
  }

  lemma UnpackCons(e: seq<byte>, p: seq<byte>, tail: seq<byte>, extra: nat)
    requires e != [] && Decode(e + (p + tail)).Decoded? && Decode(e + (p + tail)).size == |e|
    ensures var (mem, n, r) := ((e + p) + tail, |p| + extra, Decode(e + (p + tail)));
            && Unpacked(mem, |e| + n) == Bins(r.value, r.overlong) + Unpacked(p + tail, n)
            && WellFormed(mem, |e| + n) == WellFormed(p + tail, n)
            && EndsExactly(mem, |e| + n) == EndsExactly(p + tail, n)
  {
    hide Decode, Bins, Unpacked, WellFormed, EndsExactly;
    var mem := (e + p) + tail;
    assert mem == e + (p + tail);
    assert mem[|e|..] == p + tail;
    UnpackStep(mem, |e| + |p| + extra, e);
  }

  /** A packed histogram is unpacked whatever comes behind it; then comes what is behind it. */
  lemma {:induction false} UnpackBehindPack(h: seq<uint16>, tail: seq<byte>, extra: nat)
    ensures var (mem, n) := (Packed(h) + tail, |Packed(h)| + extra);
            && Unpacked(mem, n) == h + Unpacked(tail, extra)
            && WellFormed(mem, n) == WellFormed(tail, extra) && EndsExactly(mem, n) == EndsExactly(tail, extra)
    decreases |h|
  {
    hide Decode, Bins, Unpacked, WellFormed, EndsExactly, Symbol, Covered;
    if h == [] {
      AddNothing(tail);
      AddNothing(Unpacked(tail, extra));
    } else {
      var rest, later := h[Covered(h)..], Unpacked(tail, extra);
      UnpackBehindPack(rest, tail, extra);
      UnpackedSymbol(h, Packed(rest) + tail);
      UnpackCons(Symbol(h), Packed(rest), tail, extra);
      assert h == h[..Covered(h)] + rest;
      assert h[..Covered(h)] + (rest + later) == h + later;
    }
  }

  /** One varuint: overlong ones are runs, compact ones are bins, and what no bin can hold reads as zero. */
  lemma UnpackOne(v: uint32, k: nat, tail: seq<byte>, extra: nat)
    requires Encodable(v, k)
    ensures var bins := if k > 0 then Zeros(v) else if v <= 65535 then [v] else [0];
            Unpacked(Encoding(v, k) + tail, |Encoding(v, k)| + extra) == bins + Unpacked(tail, extra)
  {
    hide Encoding, Decode, Unpacked, WellFormed, EndsExactly;
    var e := Encoding(v, k);
    DecodeOfEncoding(v, k, tail);
    AddNothing(e);
    AddNothing(tail);
    UnpackCons(e, [], tail, extra);
  }

  /** Whatever follows a malformed symbol is not unpacked. */
  lemma MalformedEndsUnpacking(h: seq<uint16>, tail: seq<byte>, extra: nat)
    requires Decode(tail) == Malformed
    ensures Unpacked(Packed(h) + tail, |Packed(h)| + extra) == h
  {
    hide Packed, Decode;
    UnpackBehindPack(h, tail, extra);
    AddNothing(h);
  }

  /** One symbol at the beginning of the packed form. */
  lemma UnpackStep(mem: seq<byte>, left: nat, e: seq<byte>)
    requires left > 0 && |e| <= |mem| && Decode(mem).Decoded? && Decode(mem).size == |e|
    ensures Unpacked(mem, left) ==
            Bins(Decode(mem).value, Decode(mem).overlong) + Unpacked(mem[|e|..], left - |e|)
    ensures WellFormed(mem, left) == WellFormed(mem[|e|..], left - |e|)
    ensures EndsExactly(mem, left) == EndsExactly(mem[|e|..], left - |e|)
  {
    hide Decode, Bins;
  }

  lemma {:induction false} WellFormedIsReadable(mem: seq<byte>, left: int)
    requires WellFormed(mem, left)
    ensures Readable(mem, left)
    decreases |mem|
  {
    if left > 0 {
      WellFormedIsReadable(mem[Decode(mem).size..], left - Decode(mem).size);
    }
  }

  /** Different histograms have different packed forms. */
  lemma PackedDetermines(g: seq<uint16>, h: seq<uint16>)
    requires Packed(g) == Packed(h)
    ensures g == h
  {
    UnpackOfPack(g, []);
    UnpackOfPack(h, []);
  }

  /** The bytes it would take to encode each bin on its own. */
  function PlainSize(h: seq<uint16>): nat {
    if h == [] then 0 else CompactSize(h[0]) + PlainSize(h[1..])
  }

  lemma {:induction false} PlainSizeOfZeros(h: seq<uint16>, n: nat)
    requires n <= |h| && forall i :: 0 <= i < n ==> h[i] == 0
    ensures PlainSize(h) == n + PlainSize(h[n..])
  {
    if n > 0 {
      PlainSizeOfZeros(h[1..], n - 1);
      assert h[1..][n - 1..] == h[n..];
    }
  }

  /** Run-length coding never expands. */
  lemma {:induction false} PackingNeverExpands(h: seq<uint16>)
    ensures |Packed(h)| <= PlainSize(h)
    decreases |h|
  {
    if h != [] {
      var n := Covered(h);
      PackingNeverExpands(h[n..]);
      if h[0] == 0 {
        PlainSizeOfZeros(h, n);
      }
    }
  }
}
