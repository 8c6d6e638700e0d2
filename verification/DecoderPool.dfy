/** JsonUnmarshaler.Map of resources/pipeline.go: any number of decoders share one source and one
    output channel, and a closer closes the output when all of them are done. */
module DecoderPool {
  import opened Wrappers

  datatype Item = Absent | Bytes(content: string) | Foreign

  type Record = string

  /** `unmarshal` as a total function: None is a decoding error. */
  type Unmarshal = string -> Option<Record>

  datatype Worker = Idle | Holding(item: Item) | Done

  /** `finished` lists the items the workers are through with, in that order. */
  datatype System = System(
    source: seq<Item>,
    workers: seq<Worker>,
    output: seq<Record>,
    errors: seq<Item>,
    finished: seq<Item>,
    closed: bool,
    panicked: bool)

  function Start(input: seq<Item>, goroutines: nat): System {
    System(input, seq(goroutines, i => Idle), [], [], [], false, false)
  }

  function Decoded(f: Unmarshal, item: Item): seq<Record> {
    if item.Bytes? && f(item.content).Some? then [f(item.content).value] else []
  }

  function Reported(f: Unmarshal, item: Item): seq<Item> {
    if item.Foreign? || (item.Bytes? && f(item.content).None?) then [item] else []
  }

  /** Each item is decoded or reported, and only an absent one is neither. */
  lemma EachItem(f: Unmarshal, content: string, record: Record)
    ensures Decoded(f, Absent) == [] && Reported(f, Absent) == []
    ensures Decoded(f, Foreign) == [] && Reported(f, Foreign) == [Foreign]
    ensures f(content) == Some(record) ==> Decoded(f, Bytes(content)) == [record] && Reported(f, Bytes(content)) == []
    ensures f(content) == None ==> Decoded(f, Bytes(content)) == [] && Reported(f, Bytes(content)) == [Bytes(content)]
  {
  }

  predicate Allowed(s: System, w: nat) {
    w < |s.workers|
  }

  ghost predicate Receive(s: System, s': System, w: nat) {
    && Allowed(s, w) && s.workers[w].Idle? && s.source != []
    && s' == s.(source := s.source[1..], workers := s.workers[w := Holding(s.source[0])])
  }

  /** Sending on the closed output channel would panic. */
  ghost predicate Work(f: Unmarshal, s: System, s': System, w: nat) {
    && Allowed(s, w) && s.workers[w].Holding?
    && var item := s.workers[w].item;
       s' == s.(workers := s.workers[w := Idle], output := s.output + Decoded(f, item),
                errors := s.errors + Reported(f, item), finished := s.finished + [item],
                panicked := s.panicked || (s.closed && Decoded(f, item) != []))
  }

  ghost predicate Finish(s: System, s': System, w: nat) {
    && Allowed(s, w) && s.workers[w].Idle? && s.source == []
    && s' == s.(workers := s.workers[w := Done])
  }

  predicate AllDone(workers: seq<Worker>) {
    forall w :: 0 <= w < |workers| ==> workers[w].Done?
  }

  ghost predicate Close(s: System, s': System) {
    AllDone(s.workers) && !s.closed && s' == s.(closed := true)
  }

  ghost predicate Next(f: Unmarshal, s: System, s': System) {
    || (exists w :: Receive(s, s', w))
    || (exists w :: Work(f, s, s', w))
    || (exists w :: Finish(s, s', w))
    || Close(s, s')
  }

  ghost predicate IsRun(f: Unmarshal, input: seq<Item>, goroutines: nat, run: seq<System>) {
    && run != [] && run[0] == Start(input, goroutines)
    && forall i :: 0 <= i < |run| - 1 ==> Next(f, run[i], run[i + 1])
  }

  // ---------------------------------------------------------------- where every item is

  /** How many workers hold item `x`. */
  function Holders(workers: seq<Worker>, x: Item): nat {
    if workers == [] then 0
    else Holders(workers[..|workers| - 1], x) + Holds(workers[|workers| - 1], x)
  }

  function Holds(w: Worker, x: Item): nat {
    if w == Holding(x) then 1 else 0
  }

  lemma {:induction false} HoldersAfter(workers: seq<Worker>, w: nat, now: Worker, x: Item)
    requires w < |workers|
    ensures Holders(workers[w := now], x) + Holds(workers[w], x) == Holders(workers, x) + Holds(now, x)
  {
    var n := |workers| - 1;
    if w < n {
      HoldersAfter(workers[..n], w, now, x);
      assert workers[w := now][..n] == workers[..n][w := now];
    } else {
      assert workers[w := now][..n] == workers[..n];
    }
  }

  lemma {:induction false} NoHolders(workers: seq<Worker>, x: Item)
    requires forall w :: 0 <= w < |workers| ==> !workers[w].Holding?
    ensures Holders(workers, x) == 0
  {
    if workers != [] { NoHolders(workers[..|workers| - 1], x); }
  }

  /** Every item of the input is in the source, in some worker's hands or finished, exactly once. */
  ghost predicate Conserved(input: seq<Item>, s: System) {
    forall x :: multiset(input)[x] == multiset(s.source)[x] + Holders(s.workers, x) + multiset(s.finished)[x]
  }

  function AllDecoded(f: Unmarshal, items: seq<Item>): seq<Record> {
    if items == [] then [] else AllDecoded(f, items[..|items| - 1]) + Decoded(f, items[|items| - 1])
  }

  function AllReported(f: Unmarshal, items: seq<Item>): seq<Item> {
    if items == [] then [] else AllReported(f, items[..|items| - 1]) + Reported(f, items[|items| - 1])
  }

  lemma OneMore(f: Unmarshal, items: seq<Item>, x: Item)
    ensures AllDecoded(f, items + [x]) == AllDecoded(f, items) + Decoded(f, x)
    ensures AllReported(f, items + [x]) == AllReported(f, items) + Reported(f, x)
    ensures AllDecoded(f, []) == [] && AllReported(f, []) == []
  {
    assert (items + [x])[..|items|] == items;
  }

  lemma {:induction false} AllDecodedSplit(f: Unmarshal, a: seq<Item>, b: seq<Item>)
    ensures AllDecoded(f, a + b) == AllDecoded(f, a) + AllDecoded(f, b)
    ensures AllReported(f, a + b) == AllReported(f, a) + AllReported(f, b)
  {
    hide AllDecoded, AllReported, Decoded, Reported;
    if b == [] {
      OneMore(f, [], Absent);
      assert a + b == a;
    } else {
      var front, x := b[..|b| - 1], b[|b| - 1];
      AllDecodedSplit(f, a, front);
      OneMore(f, a + front, x);
      OneMore(f, front, x);
      assert a + b == (a + front) + [x] && b == front + [x];
    }
  }

  /** The order of the items does not change which results there are. */
  lemma {:induction false} OrderIrrelevant(f: Unmarshal, a: seq<Item>, b: seq<Item>)
    requires multiset(a) == multiset(b)
    ensures multiset(AllDecoded(f, a)) == multiset(AllDecoded(f, b))
    ensures multiset(AllReported(f, a)) == multiset(AllReported(f, b))
  {
    if a == [] {
      assert |b| == |multiset(b)| == 0;
    } else {
      var n, x := |a| - 1, a[|a| - 1];
      assert a == a[..n] + [x];
      assert x in multiset(b);
      var i :| 0 <= i < |b| && b[i] == x;
      var left, right := b[..i], b[i + 1..];
      assert b == left + ([x] + right);
      SameRest(a[..n], left, right, x);
      OrderIrrelevant(f, a[..n], left + right);
      AllDecodedSplit(f, left, right);
      AllDecodedSplit(f, left, [x] + right);
      AllDecodedSplit(f, [x], right);
      AllDecodedSplit(f, a[..n], [x]);
      SameWith(AllDecoded(f, a[..n]), AllDecoded(f, left), AllDecoded(f, right), AllDecoded(f, [x]));
      SameWith(AllReported(f, a[..n]), AllReported(f, left), AllReported(f, right), AllReported(f, [x]));
    }
  }

  lemma SameRest(a: seq<Item>, left: seq<Item>, right: seq<Item>, x: Item)
    requires multiset(a + [x]) == multiset(left + ([x] + right))
    ensures multiset(a) == multiset(left + right)
  {
    assert multiset(a + [x]) == multiset(a) + multiset{x};
    assert multiset(left + ([x] + right)) == multiset(left + right) + multiset{x};
    assert multiset(a) == multiset(a) + multiset{x} - multiset{x};
    assert multiset(left + right) == multiset(left + right) + multiset{x} - multiset{x};
  }

  lemma SameWith<T>(a: seq<T>, left: seq<T>, right: seq<T>, x: seq<T>)
    requires multiset(a) == multiset(left + right)
    ensures multiset(a + x) == multiset(left + (x + right))
  {
  }

  ghost predicate Inv(f: Unmarshal, input: seq<Item>, goroutines: nat, s: System) {
    && |s.workers| == goroutines
    && Conserved(input, s)
    && s.output == AllDecoded(f, s.finished)
    && s.errors == AllReported(f, s.finished)
    && (forall w :: 0 <= w < |s.workers| && s.workers[w].Done? ==> s.source == [])
    && (s.closed ==> AllDone(s.workers))
    && !s.panicked
  }

  lemma StartInv(f: Unmarshal, input: seq<Item>, goroutines: nat)
    ensures Inv(f, input, goroutines, Start(input, goroutines))
  {
    forall x { NoHolders(Start(input, goroutines).workers, x); }
  }

  lemma ReceiveInv(f: Unmarshal, input: seq<Item>, goroutines: nat, s: System, s': System, w: nat)
    requires Inv(f, input, goroutines, s) && Receive(s, s', w)
    ensures Inv(f, input, goroutines, s')
  {
    hide AllDecoded, AllReported;
    assert s.source == [s.source[0]] + s'.source;
    forall x { HoldersAfter(s.workers, w, Holding(s.source[0]), x); }
  }

  lemma WorkInv(f: Unmarshal, input: seq<Item>, goroutines: nat, s: System, s': System, w: nat)
    requires Inv(f, input, goroutines, s) && Work(f, s, s', w)
    ensures Inv(f, input, goroutines, s')
  {
    hide Decoded, Reported, AllDecoded, AllReported, Conserved;
    OneMore(f, s.finished, s.workers[w].item);
    WorkConserves(f, input, s, s', w);
  }

  lemma WorkConserves(f: Unmarshal, input: seq<Item>, s: System, s': System, w: nat)
    requires Conserved(input, s) && Work(f, s, s', w)
    ensures Conserved(input, s')
  {
    hide Decoded, Reported;
    forall x ensures multiset(input)[x] ==
      multiset(s'.source)[x] + Holders(s'.workers, x) + multiset(s'.finished)[x]
    {
      HoldersAfter(s.workers, w, Idle, x);
    }
  }

  lemma FinishInv(f: Unmarshal, input: seq<Item>, goroutines: nat, s: System, s': System, w: nat)
    requires Inv(f, input, goroutines, s) && Finish(s, s', w)
    ensures Inv(f, input, goroutines, s')
  {
    hide AllDecoded, AllReported;
    forall x { HoldersAfter(s.workers, w, Done, x); }
  }

  /** Nothing is lost, duplicated or sent after the close, whatever the interleaving. */
  lemma {:induction false} RunsKeepInv(f: Unmarshal, input: seq<Item>, goroutines: nat, run: seq<System>, i: nat)
    requires IsRun(f, input, goroutines, run) && i < |run|
    ensures Inv(f, input, goroutines, run[i])
  {
    if i == 0 {
      StartInv(f, input, goroutines);
    } else {
      RunsKeepInv(f, input, goroutines, run, i - 1);
      var s, s' := run[i - 1], run[i];
      assert Next(f, run[i - 1], run[i - 1 + 1]);
      if w :| Receive(s, s', w) { ReceiveInv(f, input, goroutines, s, s', w); }
      else if w :| Work(f, s, s', w) { WorkInv(f, input, goroutines, s, s', w); }
      else if w :| Finish(s, s', w) { FinishInv(f, input, goroutines, s, s', w); }
    }
  }

  /** Once the output is closed it holds the decodings of all decodable items, and every undecodable
      one was reported; without any decoder the input is not even read. */
  lemma ClosedIsComplete(f: Unmarshal, input: seq<Item>, goroutines: nat, run: seq<System>, i: nat)
    requires IsRun(f, input, goroutines, run) && i < |run| && run[i].closed
    ensures goroutines > 0 ==> multiset(run[i].finished) == multiset(input)
    ensures goroutines > 0 ==> multiset(run[i].errors) == multiset(AllReported(f, input))
    ensures multiset(run[i].output) == multiset(AllDecoded(f, input)) <==> goroutines > 0 || AllDecoded(f, input) == []
  {
    RunsKeepInv(f, input, goroutines, run, i);
    var s := run[i];
    forall x { NoHolders(s.workers, x); }
    if goroutines > 0 {
      assert s.workers[0].Done?;
      assert multiset(s.finished) == multiset(input);
      OrderIrrelevant(f, s.finished, input);
    } else {
      NoWorkersNoOutput(f, input, run, i);
      if AllDecoded(f, input) != [] { assert AllDecoded(f, input)[0] in multiset(AllDecoded(f, input)); }
    }
  }

  lemma {:induction false} NoWorkersNoOutput(f: Unmarshal, input: seq<Item>, run: seq<System>, i: nat)
    requires IsRun(f, input, 0, run) && i < |run|
    ensures run[i].output == [] && run[i].workers == []
  {
    if i > 0 {
      NoWorkersNoOutput(f, input, run, i - 1);
      assert Next(f, run[i - 1], run[i - 1 + 1]);
    }
  }

  // ---------------------------------------------------------------- one decoder keeps the order

  function Queued(s: System): seq<Item> {
    (if s.workers != [] && s.workers[0].Holding? then [s.workers[0].item] else []) + s.source
  }

  lemma {:induction false} OneWorkerInOrder(f: Unmarshal, input: seq<Item>, run: seq<System>, i: nat)
    requires IsRun(f, input, 1, run) && i < |run|
    ensures |run[i].workers| == 1 && run[i].finished + Queued(run[i]) == input
  {
    if i > 0 {
      OneWorkerInOrder(f, input, run, i - 1);
      var s, s' := run[i - 1], run[i];
      assert Next(f, run[i - 1], run[i - 1 + 1]);
      if w :| Receive(s, s', w) { assert Queued(s') == Queued(s); }
      else if w :| Work(f, s, s', w) { assert s'.finished + Queued(s') == s.finished + Queued(s); }
      else if w :| Finish(s, s', w) { assert Queued(s') == Queued(s); }
    }
  }

  lemma OneWorkerOutput(f: Unmarshal, input: seq<Item>, run: seq<System>, i: nat)
    requires IsRun(f, input, 1, run) && i < |run|
    ensures run[i].output <= AllDecoded(f, input)
    ensures run[i].closed ==> run[i].output == AllDecoded(f, input)
  {
    RunsKeepInv(f, input, 1, run, i);
    OneWorkerInOrder(f, input, run, i);
    AllDecodedSplit(f, run[i].finished, Queued(run[i]));
    if run[i].closed {
      assert run[i].workers[0].Done?;
      assert run[i].finished == input;
    }
  }

  // ---------------------------------------------------------------- every run ends closed

  function Weight(workers: seq<Worker>): nat {
    if workers == [] then 0 else Weight(workers[..|workers| - 1]) + Burden(workers[|workers| - 1])
  }

  function Burden(w: Worker): nat {
    match w
    case Idle => 1
    case Holding(_) => 3
    case Done => 0
  }

  function Left(s: System): nat {
    3 * |s.source| + Weight(s.workers) + if s.closed then 0 else 1
  }

  lemma {:induction false} WeightAfter(workers: seq<Worker>, w: nat, now: Worker)
    requires w < |workers|
    ensures Weight(workers[w := now]) + Burden(workers[w]) == Weight(workers) + Burden(now)
  {
    var n := |workers| - 1;
    if w < n {
      WeightAfter(workers[..n], w, now);
      assert workers[w := now][..n] == workers[..n][w := now];
    } else {
      assert workers[w := now][..n] == workers[..n];
    }
  }

  /** Each step uses up work, so no run goes on forever ... */
  lemma StepsUseUpWork(f: Unmarshal, s: System, s': System)
    requires Next(f, s, s')
    ensures Left(s') < Left(s)
  {
    if w :| Receive(s, s', w) { WeightAfter(s.workers, w, Holding(s.source[0])); }
    else if w :| Work(f, s, s', w) { WeightAfter(s.workers, w, Idle); }
    else if w :| Finish(s, s', w) { WeightAfter(s.workers, w, Done); }
  }

  /** ... and a run can always go on until the output is closed. */
  lemma NeverStuck(f: Unmarshal, s: System) returns (s': System)
    requires !s.closed
    ensures Next(f, s, s')
  {
    if AllDone(s.workers) {
      s' := s.(closed := true);
    } else {
      var w :| 0 <= w < |s.workers| && !s.workers[w].Done?;
      if s.workers[w].Holding? {
        var item := s.workers[w].item;
        s' := s.(workers := s.workers[w := Idle], output := s.output + Decoded(f, item),
                 errors := s.errors + Reported(f, item), finished := s.finished + [item],
                 panicked := s.panicked || (s.closed && Decoded(f, item) != []));
        assert Work(f, s, s', w);
      } else if s.source != [] {
        s' := s.(source := s.source[1..], workers := s.workers[w := Holding(s.source[0])]);
        assert Receive(s, s', w);
      } else {
        s' := s.(workers := s.workers[w := Done]);
        assert Finish(s, s', w);
      }
    }
  }
}
