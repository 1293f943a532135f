/**
 * The counters shared by every connection handle of one open store. They
 * live in memory only and decide when the last teardown closes the store.
 */
module Bookkeeping {

  datatype Counters = Counters(connections: int, disconnects: int)

  /**
   * One teardown: when the disconnect counter has caught up with the
   * connection counter the store is closed; otherwise this disconnect is
   * counted. Returns whether the store closes, and the new counters.
   */
  function Teardown(c: Counters): (bool, Counters) {
    if c.disconnects == c.connections then (true, c)
    else (false, c.(disconnects := c.disconnects + 1))
  }

  /** `k` teardowns in a row, stopping at the one that closes the store. */
  function Teardowns(c: Counters, k: nat): (bool, Counters)
    decreases k
  {
    if k == 0 then (false, c)
    else
      var (closes, c1) := Teardown(c);
      if closes then (true, c1) else Teardowns(c1, k - 1)
  }

  /**
   * The connection counter holds the id of the newest handle, so with ids
   * 0..n handed out and d of them torn down, the store stays open through
   * the next n - d teardowns and closes on the one after: exactly when every
   * connection opened has torn down.
   */
  lemma {:induction false} ClosesOnLastTeardown(c: Counters, k: nat)
    requires 0 <= c.disconnects <= c.connections
    requires k <= c.connections - c.disconnects + 1
    ensures Teardowns(c, k).0 <==> k == c.connections - c.disconnects + 1
    decreases k
  {
    if k > 0 && c.disconnects < c.connections {
      ClosesOnLastTeardown(c.(disconnects := c.disconnects + 1), k - 1);
    }
  }
}
