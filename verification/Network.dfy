/** The network and the clock as an oracle: the answer to each consultation is an arbitrary
    function of how many consultations came before. Quantifying over the oracle covers every
    completion order, every failure pattern and every moment of cancellation or expiry. */
module Network {
  import opened Sequences

  datatype Halt = Cancelled | Timeout

  /** Outcome of one child fetch. */
  datatype Reply = Delivered | Aborted(halt: Halt) | Failed

  /** The rate-limit window found before a retry wave. */
  datatype Window = NoWindow | FitsBudget | OutlastsBudget

  datatype Net = Net(
    reply: nat -> Reply,          // outcome of the fetch that completes at this tick
    status: nat -> Option<Halt>,  // what a cancel/deadline check sees
    pick: nat -> nat,             // which in-flight fetch completes next
    window: nat -> Window)

  /** A cancellation or expiry was observed between the two ticks. */
  ghost predicate SawHalt(net: Net, h: Halt, t0: nat, t: nat) {
    exists k: nat :: t0 <= k < t && (net.status(k) == Some(h) || net.reply(k) == Aborted(h))
  }

  /** Some fetch between the two ticks failed for another reason. */
  ghost predicate SawFailure(net: Net, t0: nat, t: nat) {
    exists k: nat :: t0 <= k < t && net.reply(k).Failed?
  }

  /** No fetch fails and nothing is cancelled or expires. */
  ghost predicate Quiet(net: Net) {
    forall k: nat :: net.reply(k).Delivered? && net.status(k).None?
  }

  /** An element and the rest, chosen by the oracle. */
  function TakeAt<T>(s: seq<T>, k: nat): (r: (T, seq<T>))
    requires s != []
    ensures multiset{r.0} + multiset(r.1) == multiset(s)
    ensures |r.1| == |s| - 1
  {
    var i := k % |s|;
    assert s == s[..i] + [s[i]] + s[i + 1..];
    (s[i], s[..i] + s[i + 1..])
  }
}
