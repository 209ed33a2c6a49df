/**
 * The change-language button's index arithmetic: the index moves one step
 * forward through the available locales and wraps to the first after the
 * last.  The starting index comes from List.IndexOf and may be -1.
 */
module LocaleCycle {

  /** The locale index after one press, with `count` locales available. */
  function NextIndex(index: int, count: nat): (r: int)
    ensures count > 0 && index >= -1 ==> 0 <= r < count
    ensures r == 0 || (r == index + 1 && r < count)
  {
    if index + 1 >= count then 0 else index + 1
  }

  /** The locale index after `presses` presses. */
  function Cycle(index: int, count: nat, presses: nat): int
  {
    if presses == 0 then index else NextIndex(Cycle(index, count, presses - 1), count)
  }

  /**
   * Within one round (at most `count` presses) the index advances by the
   * number of presses and wraps around once past the last locale.
   */
  lemma {:induction false} CyclePosition(index: int, count: nat, presses: nat)
    requires 0 <= index < count
    requires presses <= count
    ensures Cycle(index, count, presses) ==
      if index + presses < count then index + presses else index + presses - count
  {
    if presses > 0 {
      CyclePosition(index, count, presses - 1);
    }
  }

  /** Pressing once per available locale returns to the starting index. */
  lemma CycleReturns(index: int, count: nat)
    requires 0 <= index < count
    ensures Cycle(index, count, count) == index
  {
    CyclePosition(index, count, count);
  }

  /**
   * Within one round of presses no index repeats: the presses visit every
   * available locale once before coming back.
   */
  lemma CycleVisitsEachOnce(index: int, count: nat, p: nat, q: nat)
    requires 0 <= index < count
    requires p < q < count
    ensures Cycle(index, count, p) != Cycle(index, count, q)
  {
    CyclePosition(index, count, p);
    CyclePosition(index, count, q);
  }

  /** With a single locale every press lands on index 0. */
  lemma {:induction false} SingleLocale(index: int, presses: nat)
    requires index >= -1
    requires presses >= 1
    ensures Cycle(index, 1, presses) == 0
  {
    if presses > 1 {
      SingleLocale(index, presses - 1);
    }
  }
}
