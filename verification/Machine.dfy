/** Machine integers and a few facts about sequences, shared by every module. */
module Machine {

  type byte = x: nat | x < 0x100
  type uint16 = x: nat | x < 0x1_0000
  type uint32 = x: nat | x < 0x1_0000_0000

  /** What is left of a number in a 32-bit register. */
  function Wrap(n: int): uint32 {
    n % 0x1_0000_0000
  }

  /** What is left of a number in a byte. */
  function WrapByte(n: int): byte {
    n % 0x100
  }

  lemma WrapByteAdds(a: int, b: int)
    ensures WrapByte(WrapByte(a) + b) == WrapByte(a + b)
  {
  }

  lemma WrapSmall(n: nat)
    requires n < 0x1_0000_0000
    ensures Wrap(n) == n
  {
  }

  lemma {:induction false} WrapMultiple(x: int, k: nat)
    ensures Wrap(x + 0x1_0000_0000 * k) == Wrap(x)
  {
    if k > 0 {
      WrapMultiple(x, k - 1);
      var y := x + 0x1_0000_0000 * (k - 1);
      assert Wrap(y + 0x1_0000_0000) == Wrap(y);
    }
  }

  lemma QuotientIs(n: nat, d: nat, q: int, r: nat)
    requires r < d && n == d * q + r
    ensures n / d == q && n % d == r
  {
    var m := n / d;
    assert m > q ==> d * m >= d * (q + 1);
    assert m < q ==> d * m <= d * (q - 1);
  }

  lemma SliceOfSlice<T>(s: seq<T>, lo: nat, hi: nat, a: nat, b: nat)
    requires lo <= hi <= |s| && a <= b <= hi - lo
    ensures s[lo..hi][a..b] == s[lo + a..lo + b]
  {
    var t := s[lo..hi];
    assert forall k :: a <= k < b ==> t[k] == s[lo + k];
  }

  lemma AddNothing<T>(s: seq<T>)
    ensures s + [] == s && [] + s == s
  {
  }

  lemma AddNext<T>(s: seq<T>, t: seq<T>, i: nat)
    requires i < |t|
    ensures s + t[..i] + [t[i]] == s + t[..i + 1]
  {
  }

  lemma FrontAndLast<T>(s: seq<T>)
    requires s != []
    ensures s[..|s| - 1] + [s[|s| - 1]] == s
  {
  }

  /** The sequence s with its elements from off on overwritten by t. */
  function Splice<T>(s: seq<T>, off: nat, t: seq<T>): (r: seq<T>)
    requires off + |t| <= |s|
    ensures |r| == |s| && r[..off] == s[..off] && r[off..off + |t|] == t && r[off + |t|..] == s[off + |t|..]
  {
    s[..off] + t + s[off + |t|..]
  }

  lemma SpliceIs<T>(s: seq<T>, off: nat, t: seq<T>, r: seq<T>)
    requires off + |t| <= |s| == |r|
    requires r[..off] == s[..off] && r[off..off + |t|] == t && r[off + |t|..] == s[off + |t|..]
    ensures r == Splice(s, off, t)
  {
    assert r == r[..off] + r[off..off + |t|] + r[off + |t|..];
  }

  lemma SpliceUpdate<T>(s: seq<T>, off: nat, t: seq<T>, i: nat, x: T)
    requires off + |t| <= |s| && i < |t|
    ensures Splice(s, off, t)[off + i := x] == Splice(s, off, t[i := x])
  {
  }

  datatype Option<+T> = None | Some(value: T)
}
