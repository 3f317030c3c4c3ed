// A millisecond clock of 32 bits: true times as integers, and what is left of them.

module Clock32 {
  const M := 0x1_0000_0000
  const HALF := 0x8000_0000

  type U32 = x: int | 0 <= x < M

  function Wrap(t: int): U32 {
    t % M
  }

  lemma WrapUnique(t: int, r: int, k: int)
    requires t == M * k + r && 0 <= r < M
    ensures Wrap(t) == r
  {
  }

  lemma WrapDifference(a: int, b: int)
    ensures Wrap(Wrap(a) - Wrap(b)) == Wrap(a - b)
  {
    var d := Wrap(a) - Wrap(b);
    WrapUnique(a - b, Wrap(d), a / M - b / M + d / M);
  }

  lemma WrapSum(a: int, k: int)
    ensures Wrap(Wrap(a) + k) == Wrap(a + k)
  {
    var s := Wrap(a) + k;
    WrapUnique(a + k, Wrap(s), a / M + s / M);
  }
}
