/** Rounding a measured clock rate (CommonLibrary/cpuid.c, `Nearest133`) and the size of a drive
    test (driveTest/BlockDeviceLib.c, `calculateNearestBlockSize`). */
module Rounding {
  import opened Common

  function Truncated(n: nat): nat {
    n / 400 * 400 / 3 / 10 * 10
  }

  /** To a multiple of 133 1/3, and down to a multiple of ten. */
  function Nearest(rate: nat): nat {
    Truncated(rate * 3 + 200)
  }

  lemma TruncatedBounds(n: nat)
    ensures n - 428 <= Truncated(n) * 3 <= n
    ensures n / 400 * 400 - 29 <= Truncated(n) * 3 <= n / 400 * 400
  {
  }

  lemma TruncatedKeepsOrder(m: nat, n: nat)
    requires m <= n
    ensures Truncated(m) <= Truncated(n)
  {
    assert m / 400 * 400 / 3 <= n / 400 * 400 / 3;
    assert m / 400 * 400 / 3 / 10 <= n / 400 * 400 / 3 / 10;
  }

  /** Rounding moves a rate by half a step and ten at most, keeps order, and changes nothing the
      second time. */
  lemma NearestIsARounding(a: nat, b: nat)
    ensures a - 76 <= Nearest(a) <= a + 66
    ensures a <= b ==> Nearest(a) <= Nearest(b)
    ensures Nearest(Nearest(a)) == Nearest(a)
  {
    TruncatedBounds(a * 3 + 200);
    assert (Nearest(a) * 3 + 200) / 400 == (a * 3 + 200) / 400;
    if a <= b { TruncatedKeepsOrder(a * 3 + 200, b * 3 + 200); }
  }

  lemma TensBelow(k: nat)
    ensures var r := k * 400 / 3 / 10 * 10;
      r % 10 == 0 && r * 3 <= k * 400 < (r + 10) * 3
  {
  }

  /** Which rate it is: `k` steps of 133 1/3 where no other number of steps is nearer, a half being
      rounded up, and of that the multiple of ten at or next below it. */
  lemma NearestStep(rate: nat)
    ensures var k := (rate * 3 + 200) / 400;
      && k * 400 - 200 <= rate * 3 < k * 400 + 200
      && Nearest(rate) % 10 == 0 && Nearest(rate) * 3 <= k * 400 < (Nearest(rate) + 10) * 3
  {
    var k := (rate * 3 + 200) / 400;
    assert Nearest(rate) == k * 400 / 3 / 10 * 10;
    hide Nearest;
    TensBelow(k);
  }

  lemma OverflowShows(n: nat)
    requires n >= WORD
    ensures Truncated(n % WORD) < Truncated(n)
  {
    hide Truncated;
    TruncatedBounds(n % WORD);
    TruncatedBounds(n);
    assert n % WORD <= n - WORD;
  }

  lemma WrapsOnce(x: nat)
    ensures (x * 3 % WORD + 200) % WORD == (x * 3 + 200) % WORD
  {
  }

  lemma NoWrapAfterDividing(low: nat)
    requires low < WORD
    ensures low / 400 * 400 % WORD / 3 / 10 * 10 % WORD == Truncated(low)
  {
    var m := low / 400 * 400;
    assert m % WORD == m;
    assert m / 3 / 10 * 10 <= m;
  }

  /** `Nearest133` on 32-bit numbers: the rounding exactly when tripling the rate does not
      overflow. */
  method Nearest133(initialFreq: nat) returns (freq: nat)
    requires initialFreq < WORD
    ensures freq == Nearest(initialFreq) <==> initialFreq * 3 + 200 < WORD
  {
    hide Truncated;
    freq := initialFreq;
    freq := freq * 3 % WORD;
    freq := (freq + 200) % WORD;
    WrapsOnce(initialFreq);
    NoWrapAfterDividing(freq);
    freq := freq / 400;
    freq := freq * 400 % WORD;
    freq := freq / 3;
    freq := freq / 10;
    freq := freq * 10 % WORD;
    if initialFreq * 3 + 200 >= WORD { OverflowShows(initialFreq * 3 + 200); }
  }

  // ---- Block sizes -------------------------------------------------------------------------------

  /** The blocks nearest to a size, over the reals: half a block is rounded up. */
  function NearestBlocks(size: nat, block: nat): int
    requires block > 0
  {
    (size as real / block as real + 0.5).Floor
  }

  /** `calculateNearestBlockSize`: one block where rounding gives none. */
  function NearestBlockSize(size: nat, block: nat): int
    requires block > 0
  {
    var r := NearestBlocks(size, block) * block;
    if r == 0 then block else r
  }

  function Distance(a: int, b: int): nat {
    if a < b then b - a else a - b
  }

  lemma ProductSign(u: real, v: real)
    requires v > 0.0
    ensures u >= 0.0 ==> u * v >= 0.0
    ensures u > 0.0 ==> u * v > 0.0
  {
  }

  lemma ScaledBounds(f: real, x: real, b: real, p: real, size: real)
    requires b > 0.0 && f <= x + 0.5 < f + 1.0 && f * b == p && x * b == size
    ensures p <= size + b / 2.0 < p + b
  {
    var u, v := x + 0.5 - f, f + 0.5 - x;
    ProductSign(u, b);
    ProductSign(v, b);
    assert u * b == size + b / 2.0 - p;
    assert v * b == p + b / 2.0 - size;
  }

  lemma WholeBounds(p: int, size: nat, block: nat)
    requires p as real <= size as real + block as real / 2.0 < p as real + block as real
    ensures 2 * size - block < 2 * p <= 2 * size + block
  {
    assert (2 * p) as real <= (2 * size + block) as real < (2 * p + 2 * block) as real;
  }

  lemma NearestBlocksBounds(size: nat, block: nat)
    requires block > 0
    ensures 2 * size - block < 2 * (NearestBlocks(size, block) * block) <= 2 * size + block
  {
    var x, b, f := size as real / block as real, block as real, NearestBlocks(size, block);
    assert f as real <= x + 0.5 < f as real + 1.0;
    ProductOfReals(f, block);
    QuotientTimes(size as real, b);
    ScaledBounds(f as real, x, b, (f * block) as real, size as real);
    WholeBounds(f * block, size, block);
  }

  lemma QuotientTimes(a: real, b: real)
    requires b > 0.0
    ensures a / b * b == a
  {
  }

  lemma ProductOfReals(f: int, block: nat)
    ensures f as real * block as real == (f * block) as real
  {
  }

  lemma NonNegative(d: int, block: nat)
    ensures d >= 0 ==> d * block >= 0
  {
  }

  lemma MultiplesAreApart(m: int, n: int, block: nat)
    requires block > 0
    ensures m < n ==> m * block + block <= n * block
  {
    NonNegative(n - m - 1, block);
    assert n * block == m * block + block + (n - m - 1) * block;
  }

  /** The result is a positive whole number of blocks, and no other is nearer to the size; it is
      within half a block of it unless the size is less than that itself. */
  lemma NoBlockSizeIsNearer(size: nat, block: nat, k: nat)
    requires block > 0 && k > 0
    ensures var r := NearestBlockSize(size, block);
      && r > 0 && (exists n: nat :: r == n * block)
      && Distance(r, size) <= Distance(k * block, size)
      && (if 2 * size < block then r == block else 2 * size - block < 2 * r <= 2 * size + block)
  {
    var f := NearestBlocks(size, block);
    NearestBlocksBounds(size, block);
    hide NearestBlocks;
    MultiplesAreApart(f, k, block);
    MultiplesAreApart(k, f, block);
    MultiplesAreApart(0, f, block);
    MultiplesAreApart(0, k, block);
    MultiplesAreApart(f, 0, block);
    assert 1 * block == block;
  }
}
