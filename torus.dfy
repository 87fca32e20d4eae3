/** Toroidal index wrapping on the 1-based interior [1, n], in the two
    spellings the source uses: the conditional expressions of update_world
    (life/src/life.c) and count_neighbors_toroidal (life/run_serial.c), and
    the compare-after-step form of update_world_omp (life/src/life_omp.c). */
module Torus {

  /** pre_row / pre_col of update_world, r_up / c_lt of run_serial:
      (i == 1) ? n : i - 1. */
  function Prev(i: int, n: int): (p: int)
    ensures 1 <= i <= n ==> 1 <= p <= n
    ensures i == 1 ==> p == n
  {
    if i == 1 then n else i - 1
  }

  /** pos_row / pos_col of update_world, r_dn / c_rt of run_serial:
      (i == n) ? 1 : i + 1. */
  function Next(i: int, n: int): (p: int)
    ensures 1 <= i <= n ==> 1 <= p <= n
    ensures i == n ==> p == 1
  {
    if i == n then 1 else i + 1
  }

  /** Prev is the step one back on the cycle 1, 2, ..., n, 1: it agrees with
      the modular formula ((i - 1) - 1) mod n, shifted back to 1-based. */
  lemma PrevIsModular(i: int, n: int)
    requires 1 <= i <= n
    ensures Prev(i, n) == (i - 2) % n + 1
  {
    if i == 1 {
      assert -1 == (-1) * n + (n - 1);
      assert (-1) % n == n - 1;
    } else {
      assert 0 <= i - 2 < n;
      assert (i - 2) % n == i - 2;
    }
  }

  /** Next is the step one forward on the cycle: ((i - 1) + 1) mod n, 1-based. */
  lemma NextIsModular(i: int, n: int)
    requires 1 <= i <= n
    ensures Next(i, n) == i % n + 1
  {
    if i == n {
      assert n == 1 * n + 0;
      assert n % n == 0;
    } else {
      assert 0 <= i < n;
      assert i % n == i;
    }
  }

  /** Stepping back and forth on the torus returns to the start. */
  lemma PrevNextInverse(i: int, n: int)
    requires 1 <= i <= n
    ensures Next(Prev(i, n), n) == i
    ensures Prev(Next(i, n), n) == i
  {
  }

  /** pre_row of update_world_omp: row - 1, replaced by n when it is 0. */
  function OmpPrev(i: int, n: int): (p: int)
    ensures 1 <= i <= n ==> 1 <= p <= n
  {
    var p := i - 1;
    if p == 0 then n else p
  }

  /** pos_row of update_world_omp: row + 1, replaced by 1 when it is n + 1. */
  function OmpNext(i: int, n: int): (p: int)
    ensures 1 <= i <= n ==> 1 <= p <= n
  {
    var p := i + 1;
    if p == n + 1 then 1 else p
  }

  /** The OpenMP spelling of the wrap computes the same indices as the serial one. */
  lemma OmpWrapMatchesSerial(i: int, n: int)
    ensures OmpPrev(i, n) == Prev(i, n)
    ensures OmpNext(i, n) == Next(i, n)
  {
  }
}
