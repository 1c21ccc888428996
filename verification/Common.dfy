/** Shared vocabulary: optional results, bytes, machine words and page arithmetic. */
module Common {

  datatype Option<+T> = None | Some(value: T)

  /** The outcome of a kernel call that may stop the kernel (`expect`, `unwrap`) instead of returning. */
  datatype Outcome<+T> = Returned(value: T) | Panicked

  type byte = b: int | 0 <= b < 0x100
  type u32 = w: int | 0 <= w < 0x1_0000_0000
  type u64 = w: int | 0 <= w < 0x1_0000_0000_0000_0000

  /** The first index at or after `i` whose element satisfies `p`, or the length when there is none. */
  function FirstSuch<T>(s: seq<T>, p: T -> bool, i: nat): (k: nat)
    requires i <= |s|
    ensures i <= k <= |s|
    ensures k < |s| ==> p(s[k])
    ensures forall j :: i <= j < k ==> !p(s[j])
    decreases |s| - i
  {
    if i == |s| || p(s[i]) then i else FirstSuch(s, p, i + 1)
  }

  function Min(a: int, b: int): int {
    if a < b then a else b
  }

  /** `(addr + 4095) & !4095`, the page-size instance of `align_up`. */
  function AlignUp(addr: nat): (r: nat)
    ensures r % 4096 == 0 && addr <= r < addr + 4096
  {
    (addr + 4095) / 4096 * 4096
  }

  predicate AtLeast(i: nat, lo: nat) {
    lo <= i
  }

  /** The naturals in `[lo, hi)`. */
  function Range(lo: nat, hi: nat): set<nat> {
    set i: nat | i < hi && AtLeast(i, lo)
  }

  lemma {:induction false} RangeSize(lo: nat, hi: nat)
    ensures |Range(lo, hi)| == if lo <= hi then hi - lo else 0
    decreases hi
  {
    if lo < hi {
      RangeSize(lo, hi - 1);
      assert Range(lo, hi) == Range(lo, hi - 1) + {hi - 1};
    } else {
      assert Range(lo, hi) == {};
    }
  }

  lemma SubsetSize(a: set<nat>, b: set<nat>)
    requires a <= b
    ensures |a| <= |b|
    ensures |b - a| == |b| - |a|
    ensures |a| == |b| ==> a == b
  {
    assert b == a + (b - a);
    assert a !! (b - a);
  }
}
