/** Cutting a byte sequence into fragments of bounded length, as every chunked transfer does. */
module Fragmentation {
  import opened Machine

  /** All fragments are full, except that the last one may be shorter; none is empty. */
  function Fragments(s: seq<byte>, size: nat): (fs: seq<seq<byte>>)
    requires size > 0
  {
    if s == [] then []
    else if |s| <= size then [s]
    else [s[..size]] + Fragments(s[size..], size)
  }

  function Concat(fs: seq<seq<byte>>): seq<byte> {
    if fs == [] then [] else fs[0] + Concat(fs[1..])
  }

  /** The number of fragments of a sequence of the given length. */
  function FragmentCount(length: nat, size: nat): nat
    requires size > 0
  {
    length / size + (if length % size > 0 then 1 else 0)
  }

  /** Where the i-th fragment ends. */
  function FragmentEnd(length: nat, size: nat, i: nat): nat {
    if length <= size * (i + 1) then length else size * (i + 1)
  }

  lemma CountStep(length: nat, size: nat)
    requires 0 < size < length
    ensures FragmentCount(length, size) == 1 + FragmentCount(length - size, size)
  {
    var q, r := length / size, length % size;
    assert length - size == size * (q - 1) + r;
    QuotientIs(length - size, size, q - 1, r);
  }

  lemma ConcatCons(f: seq<byte>, fs: seq<seq<byte>>)
    ensures Concat([f] + fs) == f + Concat(fs)
  {
    assert ([f] + fs)[1..] == fs;
  }

  lemma ConcatOne(f: seq<byte>)
    ensures Concat([f]) == f && Concat([]) == []
  {
    assert [f][1..] == [];
    assert f + [] == f;
  }

  /** The fragments, in order, are the whole sequence. */
  lemma {:induction false} ConcatOfFragments(s: seq<byte>, size: nat)
    requires size > 0
    ensures Concat(Fragments(s, size)) == s
  {
    hide Concat;
    ConcatOne(s);
    if |s| > size {
      ConcatOfFragments(s[size..], size);
      ConcatCons(s[..size], Fragments(s[size..], size));
      assert s[..size] + s[size..] == s;
    }
  }

  lemma {:induction false} FragmentCountIs(s: seq<byte>, size: nat)
    requires size > 0
    ensures |Fragments(s, size)| == FragmentCount(|s|, size)
  {
    if |s| > size {
      FragmentCountIs(s[size..], size);
      CountStep(|s|, size);
    } else if |s| == size {
      QuotientIs(|s|, size, 1, 0);
    } else {
      QuotientIs(|s|, size, 0, |s|);
    }
  }

  lemma FragmentsCons(s: seq<byte>, size: nat)
    requires size > 0
    ensures |s| > size ==> Fragments(s, size) == [s[..size]] + Fragments(s[size..], size)
    ensures |s| > size ==> Fragments(s[size..], size) != []
    ensures |s| <= size && s != [] ==> Fragments(s, size) == [s]
    ensures s == [] ==> Fragments(s, size) == []
  {
  }

  lemma FirstEnd(length: nat, size: nat)
    ensures size * 0 == 0 && FragmentEnd(length, size, 0) == if length <= size then length else size
  {
  }

  lemma NextEnd(length: nat, size: nat, i: nat)
    requires 0 < size < length && i > 0
    ensures size * i == size + size * (i - 1)
    ensures FragmentEnd(length, size, i) == size + FragmentEnd(length - size, size, i - 1)
  {
    assert size * (i + 1) == size + size * i;
    assert size * i == size + size * (i - 1);
  }

  /** The i-th fragment is the slice between two multiples of the fragment size. */
  lemma {:induction false} FragmentAt(s: seq<byte>, size: nat, i: nat)
    requires size > 0 && i < |Fragments(s, size)|
    ensures size * i < FragmentEnd(|s|, size, i) <= |s|
    ensures Fragments(s, size)[i] == s[size * i..FragmentEnd(|s|, size, i)]
    ensures i == |Fragments(s, size)| - 1 <==> FragmentEnd(|s|, size, i) == |s|
  {
    hide Fragments, FragmentEnd;
    FragmentsCons(s, size);
    if |s| > size && i > 0 {
      var rest := s[size..];
      FragmentAt(rest, size, i - 1);
      NextEnd(|s|, size, i);
      var (from, to) := (size * (i - 1), FragmentEnd(|rest|, size, i - 1));
      assert s[size..|s|] == rest;
      SliceOfSlice(s, size, |s|, from, to);
    } else {
      FirstEnd(|s|, size);
    }
  }

  lemma {:induction false} ConcatAppend(fs: seq<seq<byte>>, gs: seq<seq<byte>>)
    ensures Concat(fs + gs) == Concat(fs) + Concat(gs)
  {
    hide Concat;
    if fs == [] {
      assert fs + gs == gs;
      ConcatOne([]);
      assert [] + Concat(gs) == Concat(gs);
    } else {
      var f, rest := fs[0], fs[1..];
      ConcatAppend(rest, gs);
      assert fs == [f] + rest && fs + gs == [f] + (rest + gs);
      ConcatCons(f, rest);
      ConcatCons(f, rest + gs);
      assert f + (Concat(rest) + Concat(gs)) == (f + Concat(rest)) + Concat(gs);
    }
  }
}
