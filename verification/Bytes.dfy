/** Little-endian words in byte sequences, and frames of a flat byte memory. */
module Bytes {
  import opened Common

  function Pow256(n: nat): nat {
    if n == 0 then 1 else 256 * Pow256(n - 1)
  }

  /** The `n`-byte little-endian number at offset `o`. */
  function LE(s: seq<byte>, o: nat, n: nat): (w: nat)
    requires o + n <= |s|
    ensures w < Pow256(n)
    decreases |s| - o
  {
    if n == 0 then 0 else s[o] + 256 * LE(s, o + 1, n - 1)
  }

  function ToLE(w: nat, n: nat): (s: seq<byte>)
    ensures |s| == n
    decreases w, n
  {
    if n == 0 then [] else [w % 256] + ToLE(w / 256, n - 1)
  }

  /** Reading back a stored number. */
  lemma {:induction false} LEofToLE(s: seq<byte>, o: nat, n: nat, w: nat)
    requires o + n <= |s| && w < Pow256(n)
    requires s[o..o + n] == ToLE(w, n)
    ensures LE(s, o, n) == w
    decreases n
  {
    if n != 0 {
      assert s[o] == s[o..o + n][0] == w % 256;
      assert s[o + 1..o + n] == s[o..o + n][1..] == ToLE(w / 256, n - 1);
      LEofToLE(s, o + 1, n - 1, w / 256);
    }
  }

  /** Storing a number that was read gives its bytes back. */
  lemma {:induction false} ToLEofLE(s: seq<byte>, o: nat, n: nat)
    requires o + n <= |s|
    ensures s[o..o + n] == ToLE(LE(s, o, n), n)
    decreases n
  {
    if n != 0 {
      ToLEofLE(s, o + 1, n - 1);
      LowByte(s[o], LE(s, o + 1, n - 1));
      assert s[o..o + n] == [s[o]] + s[o + 1..o + n];
    }
  }

  lemma LowByte(b: byte, rest: nat)
    ensures (b + 256 * rest) % 256 == b && (b + 256 * rest) / 256 == rest
  {
  }

  /** The least significant byte comes first. */
  lemma LowestByteFirst(s: seq<byte>, o: nat)
    ensures o + 2 <= |s| ==> LE(s, o, 2) == 0x100 * (s[o + 1] as int) + s[o]
    ensures o + 4 <= |s| ==>
      LE(s, o, 4) == 0x100_0000 * (s[o + 3] as int) + 0x1_0000 * (s[o + 2] as int) + 0x100 * (s[o + 1] as int) + s[o]
    ensures o + 8 <= |s| ==> LE(s, o, 8) == LE(s, o, 4) + 0x1_0000_0000 * LE(s, o + 4, 4)
  {
    if o + 8 <= |s| {
      FirstFour(s, o, 8);
      FirstFour(s, o, 4);
    } else if o + 4 <= |s| {
      FirstFour(s, o, 4);
    } else if o + 2 <= |s| {
      assert LE(s, o + 2, 0) == 0;
      assert LE(s, o + 1, 1) == s[o + 1];
    }
  }

  lemma FirstFour(s: seq<byte>, o: nat, n: nat)
    requires 4 <= n && o + n <= |s|
    ensures LE(s, o, n) ==
      s[o] + 0x100 * s[o + 1] + 0x1_0000 * s[o + 2] + 0x100_0000 * s[o + 3] + 0x1_0000_0000 * LE(s, o + 4, n - 4)
  {
    assert LE(s, o + 2, n - 2) == s[o + 2] + 256 * LE(s, o + 3, n - 3);
    assert LE(s, o + 3, n - 3) == s[o + 3] + 256 * LE(s, o + 4, n - 4);
  }

  /** The `n` bytes at offset `o` are the number `w`, lowest byte first. */
  predicate NumberAt(s: seq<byte>, o: nat, n: nat, w: nat) {
    o + n <= |s| && w < Pow256(n) && s[o..o + n] == ToLE(w, n)
  }

  /** They are exactly when the number is read there. */
  lemma NumberIsRead(s: seq<byte>, o: nat, n: nat, w: nat)
    requires o + n <= |s|
    ensures NumberAt(s, o, n, w) <==> LE(s, o, n) == w
  {
    ToLEofLE(s, o, n);
    if NumberAt(s, o, n, w) {
      LEofToLE(s, o, n, w);
    }
  }

  /** A number depends on its own bytes only. */
  lemma {:induction false} LEsame(s: seq<byte>, t: seq<byte>, o: nat, n: nat)
    requires o + n <= |s| && o + n <= |t|
    requires forall k :: o <= k < o + n ==> s[k] == t[k]
    ensures LE(s, o, n) == LE(t, o, n)
    decreases n
  {
    if n != 0 {
      LEsame(s, t, o + 1, n - 1);
    }
  }

  lemma {:induction false} LEzero(s: seq<byte>, o: nat, n: nat)
    requires o + n <= |s|
    requires forall k :: o <= k < o + n ==> s[k] == 0
    ensures LE(s, o, n) == 0
    decreases n
  {
    if n != 0 {
      LEzero(s, o + 1, n - 1);
    }
  }

  /** `w >> k` */
  function Shr(w: nat, k: nat): nat
    decreases w, k
  {
    if k == 0 then w else Shr(w / 2, k - 1)
  }

  // ---- Frames ----

  predicate InMem(m: seq<byte>, f: nat) {
    (f + 1) * 4096 <= |m|
  }

  function FrameOf(m: seq<byte>, f: nat): (s: seq<byte>)
    requires InMem(m, f)
    ensures |s| == 4096
  {
    m[f * 4096..(f + 1) * 4096]
  }

  /** `m` and `m2` are equal outside the frames `fs`. */
  ghost predicate SameExcept(m: seq<byte>, m2: seq<byte>, fs: set<nat>) {
    && |m| == |m2|
    && forall f: nat :: f !in fs && InMem(m, f) ==> FrameOf(m2, f) == FrameOf(m, f)
  }

  /** Overwriting `s` from offset `o` of frame `f` changes that frame only. */
  lemma OneFrame(m: seq<byte>, m2: seq<byte>, f: nat, o: nat, s: seq<byte>)
    requires InMem(m, f) && o + |s| <= 4096
    requires m2 == m[..f * 4096 + o] + s + m[f * 4096 + o + |s|..]
    ensures SameExcept(m, m2, {f})
    ensures FrameOf(m2, f) == FrameOf(m, f)[..o] + s + FrameOf(m, f)[o + |s|..]
  {
    FramePart(m, m2, f, o, s);
    forall g: nat | g != f && InMem(m, g) ensures FrameOf(m2, g) == FrameOf(m, g) {
      forall k | 0 <= k < 4096 ensures FrameOf(m2, g)[k] == FrameOf(m, g)[k] {
        assert m2[g * 4096 + k] == m[g * 4096 + k];
      }
    }
  }

  lemma FramePart(m: seq<byte>, m2: seq<byte>, f: nat, o: nat, s: seq<byte>)
    requires InMem(m, f) && o + |s| <= 4096
    requires m2 == m[..f * 4096 + o] + s + m[f * 4096 + o + |s|..]
    ensures FrameOf(m2, f) == FrameOf(m, f)[..o] + s + FrameOf(m, f)[o + |s|..]
  {
    var i, j := f * 4096 + o, f * 4096 + 4096;
    assert m2[f * 4096..i] == m[f * 4096..i] == FrameOf(m, f)[..o];
    assert m2[i..i + |s|] == s;
    assert m2[i + |s|..j] == m[i + |s|..j] == FrameOf(m, f)[o + |s|..];
    assert FrameOf(m2, f) == m2[f * 4096..i] + m2[i..i + |s|] + m2[i + |s|..j];
  }

  lemma PartOfFrame(m: seq<byte>, f: nat, o: nat, n: nat)
    requires InMem(m, f) && o + n <= 4096
    ensures m[f * 4096 + o..f * 4096 + o + n] == FrameOf(m, f)[o..o + n]
  {
    var at, frame := f * 4096, FrameOf(m, f);
    var x, y := m[at + o..at + o + n], frame[o..o + n];
    forall k | 0 <= k < n ensures x[k] == y[k] {
      assert x[k] == m[at + (o + k)] == frame[o + k];
    }
  }

  // ---- Stores ----

  method StoreWord(mem: array<byte>, f: nat, o: nat, w: u64)
    requires InMem(mem[..], f) && o + 8 <= 4096
    modifies mem
    ensures SameExcept(old(mem[..]), mem[..], {f})
    ensures LE(FrameOf(mem[..], f), o, 8) == w
    ensures forall k :: 0 <= k < 4096 && (k < o || o + 8 <= k)
                        ==> FrameOf(mem[..], f)[k] == old(FrameOf(mem[..], f)[k])
  {
    ghost var before := mem[..];
    var at, bytes := f * 4096 + o, ToLE(w, 8);
    forall i | 0 <= i < 8 {
      mem[at + i] := bytes[i];
    }
    assert mem[..] == before[..at] + bytes + before[at + 8..];
    OneFrame(before, mem[..], f, o, bytes);
    assert FrameOf(mem[..], f)[o..o + 8] == bytes;
    assert Pow256(8) == 0x1_0000_0000_0000_0000;
    LEofToLE(FrameOf(mem[..], f), o, 8, w);
  }

  const ZERO_PAGE: seq<byte> := seq(4096, i => 0)

  method ZeroFrame(mem: array<byte>, f: nat)
    requires InMem(mem[..], f)
    modifies mem
    ensures SameExcept(old(mem[..]), mem[..], {f})
    ensures FrameOf(mem[..], f) == ZERO_PAGE
  {
    ghost var before := mem[..];
    var at := f * 4096;
    for i := 0 to 4096
      invariant mem[..] == before[..at] + seq(i, k => 0) + before[at + i..]
    {
      mem[at + i] := 0;
    }
    OneFrame(before, mem[..], f, 0, ZERO_PAGE);
  }

  method CopyInto(mem: array<byte>, f: nat, src: seq<byte>)
    requires InMem(mem[..], f) && |src| <= 4096
    modifies mem
    ensures SameExcept(old(mem[..]), mem[..], {f})
    ensures FrameOf(mem[..], f) == src + old(FrameOf(mem[..], f))[|src|..]
  {
    ghost var before := mem[..];
    var at := f * 4096;
    forall i | 0 <= i < |src| {
      mem[at + i] := src[i];
    }
    assert mem[..] == before[..at] + src + before[at + |src|..];
    OneFrame(before, mem[..], f, 0, src);
  }

  method CopyAt(mem: array<byte>, f: nat, o: nat, src: seq<byte>)
    requires InMem(mem[..], f) && o + |src| <= 4096
    modifies mem
    ensures SameExcept(old(mem[..]), mem[..], {f})
    ensures FrameOf(mem[..], f) == old(FrameOf(mem[..], f))[..o] + src + old(FrameOf(mem[..], f))[o + |src|..]
  {
    ghost var before := mem[..];
    var at := f * 4096 + o;
    forall i | 0 <= i < |src| {
      mem[at + i] := src[i];
    }
    assert mem[..] == before[..at] + src + before[at + |src|..];
    OneFrame(before, mem[..], f, o, src);
  }
}
