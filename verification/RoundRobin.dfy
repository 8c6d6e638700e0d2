/** bootstrap/util.go: addresses dialled in turn, from a random first one. */
module RoundRobin {
  import opened Arithmetic

  /** The next position, going round. */
  function Following(i: nat, n: nat): nat {
    if i + 1 < n then i + 1 else 0
  }

  /** `calls` counts the calls so far and `first` is the index drawn by the first one. */
  class RoundRobinStrings {
    const strings: seq<string>
    var index: int
    ghost var first: nat
    ghost var calls: nat

    ghost predicate Valid()
      reads this
    {
      && first < |strings|
      && index == if calls == 0 then -1 else IndexAfter(first, |strings|, calls - 1)
    }

    /** Drawing the first index needs an address to draw. */
    constructor (urls: seq<string>)
      requires urls != []
      ensures Valid() && strings == urls && calls == 0
    {
      strings, index, first, calls := urls, -1, 0, 0;
    }

    method Get(random: nat) returns (url: string)
      requires Valid() && random < |strings|
      modifies this
      ensures Valid() && calls == old(calls) + 1
      ensures first == if old(calls) == 0 then random else old(first)
      ensures old(calls) == 0 ==> url == strings[random]
      ensures var i := IndexAfter(first, |strings|, old(calls)); i < |strings| && url == strings[i]
    {
      IndexStays(first, |strings|, calls);
      if index == -1 {
        index := random;
        first := random;
      } else {
        index := index + 1;
        if index > |strings| - 1 { index := 0; }
      }
      calls := calls + 1;
      url := strings[index];
    }
  }

  /** The index `calls` calls after one that returned `index`. */
  function IndexAfter(index: nat, n: nat, calls: nat): nat {
    if calls == 0 then index else Following(IndexAfter(index, n, calls - 1), n)
  }

  /** How many of the `calls` calls from the `skipped`-th one on return position `p`. */
  function Visits(index: nat, n: nat, skipped: nat, calls: nat, p: nat): nat {
    if calls == 0 then 0
    else Visits(index, n, skipped, calls - 1, p) + if IndexAfter(index, n, skipped + calls - 1) == p then 1 else 0
  }

  lemma {:induction false} IndexStays(index: nat, n: nat, calls: nat)
    requires index < n
    ensures IndexAfter(index, n, calls) < n
  {
    if calls > 0 { IndexStays(index, n, calls - 1); }
  }

  /** Within one round the index runs to the end and then on from the start. */
  lemma {:induction false} OneRound(index: nat, n: nat, skipped: nat, calls: nat)
    requires index < n && calls <= n
    ensures var start := IndexAfter(index, n, skipped);
      IndexAfter(index, n, skipped + calls) == if start + calls < n then start + calls else start + calls - n
  {
    IndexStays(index, n, skipped);
    if calls > 0 { OneRound(index, n, skipped, calls - 1); }
  }

  /** Every call moves on by one, round and round. */
  lemma {:induction false} GoesRound(index: nat, n: nat, calls: nat)
    requires index < n
    ensures IndexAfter(index, n, calls) == (index + calls) % n
  {
    if calls > 0 {
      GoesRound(index, n, calls - 1);
      NextRemainder(index + calls - 1, n);
    }
  }

  lemma NextRemainder(x: nat, n: nat)
    requires n > 0
    ensures (x + 1) % n == if x % n + 1 < n then x % n + 1 else 0
  {
    var q, r := x / n, x % n;
    assert x == q * n + r;
    if r + 1 < n { DivisionIs(x + 1, q, n, r + 1); } else {
      OneMore(q, n);
      DivisionIs(x + 1, q + 1, n, 0);
    }
  }

  lemma {:induction false} VisitsSoFar(index: nat, n: nat, skipped: nat, calls: nat, p: nat)
    requires index < n && p < n && calls <= n
    ensures var start := IndexAfter(index, n, skipped);
      Visits(index, n, skipped, calls, p) == if start <= p < start + calls || p + n < start + calls then 1 else 0
  {
    IndexStays(index, n, skipped);
    if calls > 0 {
      VisitsSoFar(index, n, skipped, calls - 1, p);
      OneRound(index, n, skipped, calls - 1);
    }
  }

  /** Any `n` consecutive calls over `n` addresses return each position exactly once. */
  lemma EachExactlyOnce(index: nat, n: nat, skipped: nat, p: nat)
    requires index < n && p < n
    ensures Visits(index, n, skipped, n, p) == 1
  {
    IndexStays(index, n, skipped);
    VisitsSoFar(index, n, skipped, n, p);
  }
}
