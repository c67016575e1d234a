/**
 * Both versions of the check applied to a state that is plainly safe: one process that needs
 * nothing more, with nothing available and nothing allocated.
 */
module Scenario {
  import opened Safety
  import opened Bankers

  /**
   * The check as written reports this safe state unsafe; the corrected check
   * reports it safe, with the order [0].
   */
  method IdleProcess() returns (asWritten: bool, corrected: bool, order: seq<int>)
    ensures !asWritten && corrected && order == [0]
  {
    var b := new BankersAlgorithm(1, 1, [0], [[0]], [[0]]);
    assert b.need[0][0] == 0;
    FitsAvailableIsSafe(b.Snap());
    var ignored;
    asWritten, ignored := b.IsSafeAsWritten();
    corrected, order := b.IsSafe();
    assert 0 in order;
  }
}
