/** Octets, and memory written in place. */
module Bytes {
  type byte = b: int | 0 <= b < 256

  /** Two octets, low one first. */
  function LE16(v: nat): (s: seq<byte>)
    requires v < 0x1_0000
    ensures |s| == 2 && (s[0] as int) + 256 * (s[1] as int) == v
  {
    [v % 256, v / 256]
  }

  /** s with the octets from `at` on replaced by src. */
  function Patched(s: seq<byte>, at: nat, src: seq<byte>): (r: seq<byte>)
    requires at + |src| <= |s|
    ensures |r| == |s|
  {
    s[..at] + src + s[at + |src|..]
  }

  /** Patching inside a tail is patching the whole sequence. */
  lemma PatchTail(q: seq<byte>, front: seq<byte>, tail: seq<byte>, at: nat, bytes: seq<byte>)
    requires q == front + tail && at + |bytes| <= |tail|
    ensures front + Patched(tail, at, bytes) == Patched(q, |front| + at, bytes)
  {
  }

  /** s after src is written at offset `at` of a region that starts at p and has its first `cut` octets out of reach. */
  function Landing(s: seq<byte>, p: int, cut: nat, at: nat, src: seq<byte>): (r: seq<byte>)
    requires p + cut >= 0 && p + at + |src| <= |s|
    ensures |r| == |s|
  {
    if at + |src| <= cut then s
    else if cut <= at then Patched(s, p + at, src)
    else Patched(s, p + cut, src[cut - at..])
  }

  lemma LandingTail(q: seq<byte>, front: seq<byte>, tail: seq<byte>, p: int, cut: nat, at: nat, bytes: seq<byte>)
    requires q == front + tail && p + cut >= 0 && p + at + |bytes| <= |tail|
    ensures front + Landing(tail, p, cut, at, bytes) == Landing(q, |front| + p, cut, at, bytes)
  {
    hide Patched;
    if cut <= at && at + |bytes| > cut {
      PatchTail(q, front, tail, p + at, bytes);
    } else if at + |bytes| > cut {
      PatchTail(q, front, tail, p + cut, bytes[cut - at..]);
    }
  }

  lemma PatchedParts(s: seq<byte>, at: nat, src: seq<byte>)
    requires at + |src| <= |s|
    ensures var r := Patched(s, at, src);
      r[..at] == s[..at] && r[at..at + |src|] == src && r[at + |src|..] == s[at + |src|..]
  {
  }

  lemma PatchedNothing(s: seq<byte>, at: nat)
    requires at <= |s|
    ensures Patched(s, at, []) == s
  {
  }

  lemma PatchPrefix(s: seq<byte>, n: nat, at: nat, bytes: seq<byte>)
    requires at + |bytes| <= n <= |s|
    ensures Patched(s, at, bytes)[..n] == Patched(s[..n], at, bytes)
  {
  }

  /** Writing y and then x in front of it leaves x and y side by side. */
  lemma PatchedTwice(d: seq<byte>, at: nat, x: seq<byte>, y: seq<byte>)
    requires at + |x| + |y| <= |d|
    ensures var e := Patched(Patched(d, at + |x|, y), at, x);
      e[..at] == d[..at] && e[at..at + |x| + |y|] == x + y
  {
    var m := Patched(d, at + |x|, y);
    assert m[at + |x|..at + |x| + |y|] == y;
    var e := Patched(m, at, x);
    assert e[at..at + |x|] == x;
    assert e[at + |x|..at + |x| + |y|] == y;
  }

  /** memcpy into an array. */
  method CopyTo(dst: array<byte>, at: nat, src: seq<byte>)
    requires at + |src| <= dst.Length
    modifies dst
    ensures dst[..] == Patched(old(dst[..]), at, src)
  {
    forall i | 0 <= i < |src| {
      dst[at + i] := src[i];
    }
  }
}
