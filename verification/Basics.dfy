/** What several modules need: the 32-bit words of the source, and the size of subsets. */
module Basics {
  type u32 = x: int | 0 <= x < 0x1_0000_0000

  lemma SubsetSize<T>(a: set<T>, b: set<T>)
    requires a <= b
    ensures |a| <= |b| && (a != b ==> |a| < |b|)
  {
    assert b == a + (b - a);
    if a != b {
      assert b - a != {};
    }
  }
}
