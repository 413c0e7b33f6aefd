/** What all the queue-like components have in common. */
module Queues {
  /**
   One step of a queue `q` between the words accepted and the words delivered so far: the head `out` may be taken,
   `more` may join the end. Nothing is lost, duplicated or reordered.
   */
  lemma Conserve<T>(accepted: seq<T>, delivered: seq<T>, q: seq<T>, out: T, take: bool, more: seq<T>)
    requires accepted == delivered + q && (take ==> q != [] && out == q[0])
    ensures accepted + more == (delivered + if take then [out] else []) + ((if take then q[1..] else q) + more)
  {
    if take { assert q == [out] + q[1..]; }
  }
}
