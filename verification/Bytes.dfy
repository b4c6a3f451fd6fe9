/** Byte sequences and in-place updates of them. */
module Bytes {

  type byte = x: int | 0 <= x < 256

  /** `s` with the bytes from `at` on replaced by `data`. */
  function Splice(s: seq<byte>, at: nat, data: seq<byte>): (r: seq<byte>)
    requires at + |data| <= |s|
    ensures |r| == |s|
  {
    seq(|s|, i requires 0 <= i < |s| => if at <= i < at + |data| then data[i - at] else s[i])
  }

  /** A splice puts the data in place and changes nothing else. */
  lemma SpliceParts(s: seq<byte>, at: nat, data: seq<byte>)
    requires at + |data| <= |s|
    ensures var r := Splice(s, at, data);
            r[at..at + |data|] == data && r[..at] == s[..at] && r[at + |data|..] == s[at + |data|..]
  {
  }

  /** A slice of a slice. */
  lemma SubSlice(s: seq<byte>, lo: nat, hi: nat, a: nat, b: nat)
    requires lo <= hi <= |s| && a <= b <= hi - lo
    ensures s[lo..hi][a..b] == s[lo + a..lo + b]
  {
    var x, y := s[lo..hi][a..b], s[lo + a..lo + b];
    forall i | 0 <= i < |x|
      ensures x[i] == y[i]
    {
      assert x[i] == s[lo..hi][a + i] == s[lo + (a + i)];
    }
  }

  /** Two updates side by side are one update with the bytes in order. */
  lemma SpliceAppend(s: seq<byte>, at: nat, a: seq<byte>, b: seq<byte>)
    requires at + |a| + |b| <= |s|
    ensures Splice(Splice(s, at, a), at + |a|, b) == Splice(s, at, a + b)
  {
  }

  /** A range that does not meet the update keeps its bytes. */
  lemma SpliceApart(s: seq<byte>, at: nat, data: seq<byte>, lo: nat, hi: nat)
    requires at + |data| <= |s| && lo <= hi <= |s|
    requires hi <= at || at + |data| <= lo
    ensures Splice(s, at, data)[lo..hi] == s[lo..hi]
  {
  }

  /** `memcpy` and the like: put `data` in memory at `at`. */
  method Store(mem: array<byte>, at: nat, data: seq<byte>)
    requires at + |data| <= mem.Length
    modifies mem
    ensures mem[..] == Splice(old(mem[..]), at, data)
  {
    forall i | at <= i < at + |data| { mem[i] := data[i - at]; }
    ghost var s := Splice(old(mem[..]), at, data);
    assert forall i :: 0 <= i < mem.Length ==> mem[i] == s[i];
  }
}
