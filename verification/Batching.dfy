/** The batcher of resources/pipeline.go and the CSV reader of resources/utils.go that hands out batches. */
module Batching {
  import opened Arithmetic

  // ---------------------------------------------------------------- batches

  /** A sent batch is a prefix of an array; the sender must not write into it afterwards. */
  datatype Batch<T> = Batch(data: array<T>, size: nat)

  ghost predicate Intact<T>(b: Batch<T>) {
    b.size <= b.data.Length
  }

  ghost function Items<T>(b: Batch<T>): seq<T>
    requires Intact(b)
    reads b.data
  {
    b.data[..b.size]
  }

  ghost function Arrays<T>(batches: seq<Batch<T>>): set<array<T>> {
    set b | b in batches :: b.data
  }

  /** Everything the batches hold, one after the other. */
  ghost function Unbatched<T>(batches: seq<Batch<T>>): seq<T>
    requires forall b :: b in batches ==> Intact(b)
    reads Arrays(batches)
  {
    if batches == [] then [] else Unbatched(batches[..|batches| - 1]) + Items(batches[|batches| - 1])
  }

  /** All batches are full. */
  ghost predicate AllFull<T>(sent: seq<Batch<T>>, batchSize: nat) {
    forall b :: b in sent ==> Intact(b) && b.size == batchSize
  }

  method MapBatches<T(0)>(src: seq<T>, batchSize: nat) returns (sent: seq<Batch<T>>)
    requires batchSize > 0
    ensures forall b :: b in sent ==> Intact(b) && 0 < b.size <= batchSize
    ensures Unbatched(sent) == src
    ensures forall i :: 0 <= i < |sent| - 1 ==> sent[i].size == batchSize
  {
    hide Unbatched;
    sent := [];
    SentNothing<T>();
    var currentSize := 0;
    var batch := new T[batchSize];
    for i := 0 to |src|
      invariant currentSize < batchSize == batch.Length && fresh(batch) && batch !in Arrays(sent)
      invariant AllFull(sent, batchSize) && fresh(Arrays(sent))
      invariant Unbatched(sent) + batch[..currentSize] == src[..i]
    {
      FillSlot(batch, currentSize, src[i], sent);
      currentSize := currentSize + 1;
      assert Unbatched(sent) + batch[..currentSize] == src[..i + 1];
      if currentSize % batchSize == 0 {
        FullBatch(currentSize, batchSize);
        sent := SendBatch(batch, batchSize, sent);
        currentSize := 0;
        batch := new T[batchSize];
      }
    }
    if currentSize > 0 { sent := SendBatch(batch, currentSize, sent); }
  }

  method SendBatch<T>(batch: array<T>, size: nat, before: seq<Batch<T>>) returns (sent: seq<Batch<T>>)
    requires size <= batch.Length && forall b :: b in before ==> Intact(b)
    ensures sent == before + [Batch(batch, size)] && Arrays(sent) == Arrays(before) + {batch}
    ensures forall b :: b in sent ==> Intact(b)
    ensures Unbatched(sent) == Unbatched(before) + batch[..size]
  {
    SentOneMore(before, Batch(batch, size));
    sent := before + [Batch(batch, size)];
  }

  lemma SentNothing<T>()
    ensures Unbatched<T>([]) == []
  {
  }

  lemma SentOneMore<T>(sent: seq<Batch<T>>, b: Batch<T>)
    requires forall x :: x in sent + [b] ==> Intact(x)
    ensures Unbatched(sent + [b]) == Unbatched(sent) + Items(b)
  {
    assert (sent + [b])[..|sent|] == sent;
  }

  lemma FullBatch(size: nat, batchSize: nat)
    requires 0 < size <= batchSize && size % batchSize == 0
    ensures size == batchSize
  {
    if size < batchSize { SmallModulus(size, batchSize); }
  }

  method FillSlot<T>(batch: array<T>, i: nat, val: T, ghost sent: seq<Batch<T>>)
    requires i < batch.Length && batch !in Arrays(sent) && forall b :: b in sent ==> Intact(b)
    modifies batch
    ensures batch[..i + 1] == old(batch[..i]) + [val]
    ensures Unbatched(sent) == old(Unbatched(sent))
  {
    batch[i] := val;
  }

  // ---------------------------------------------------------------- CSV records in batches

  datatype Read = Row(cells: seq<string>) | Failure

  /** A call of `onBatch`: the valid prefix of the buffer and the running total. */
  datatype Call = Call(rows: seq<seq<string>>, totalRead: nat)

  datatype Outcome = Finished(ok: bool) | Aborted | Panicked

  function Rows(input: seq<Read>): seq<seq<string>> {
    if input == [] then []
    else Rows(input[..|input| - 1]) + (if input[|input| - 1].Row? then [input[|input| - 1].cells] else [])
  }

  function Handed(calls: seq<Call>): seq<seq<string>> {
    if calls == [] then [] else Handed(calls[..|calls| - 1]) + calls[|calls| - 1].rows
  }

  /** Every call got a full buffer and the number of rows handed over so far. */
  predicate FullCalls(calls: seq<Call>, batchSize: nat) {
    calls == [] ||
    (var n := |calls| - 1;
     FullCalls(calls[..n], batchSize) && |calls[n].rows| == batchSize && calls[n].totalRead == |Handed(calls)|)
  }

  lemma OneMoreCall(calls: seq<Call>, call: Call, batchSize: nat)
    ensures Handed(calls + [call]) == Handed(calls) + call.rows
    ensures FullCalls(calls, batchSize) && |call.rows| == batchSize && call.totalRead == |Handed(calls)| + batchSize ==>
      FullCalls(calls + [call], batchSize)
  {
    assert (calls + [call])[..|calls|] == calls;
  }

  lemma OneMoreRead(done: seq<Read>, read: Read)
    ensures Rows(done + [read]) == if read.Row? then Rows(done) + [read.cells] else Rows(done)
    ensures FailedReads(done + [read]) == FailedReads(done) + if read.Failure? then 1 else 0
  {
    assert (done + [read])[..|done|] == done;
  }

  lemma NextModulus(total: nat, m: nat)
    requires m > 0
    ensures (total + 1) % m == if total % m == m - 1 then 0 else total % m + 1
  {
    var q, r := total / m, total % m;
    if r == m - 1 {
      assert total + 1 == (q + 1) * m + 0;
      DivisionIs(total + 1, q + 1, m, 0);
    } else {
      DivisionIs(total + 1, q, m, r + 1);
    }
  }

  predicate AllSucceed(calls: seq<Call>, succeeds: nat -> bool) {
    forall n :: 0 <= n < |calls| ==> succeeds(n)
  }

  /** The last batch was refused, all earlier ones were taken. */
  predicate LastRefused(calls: seq<Call>, succeeds: nat -> bool) {
    calls != [] && AllSucceed(calls[..|calls| - 1], succeeds) && !succeeds(|calls| - 1)
  }

  function FailedReads(input: seq<Read>): nat {
    if input == [] then 0 else FailedReads(input[..|input| - 1]) + if input[|input| - 1].Failure? then 1 else 0
  }

  /** How many errors have been shown to the error handler. */
  function ErrorsSeen(input: seq<Read>, calls: seq<Call>, succeeds: nat -> bool): nat {
    FailedReads(input) + if calls == [] || succeeds(|calls| - 1) then 0 else 1
  }

  predicate AllTolerated(tolerates: nat -> bool, errors: nat) {
    forall n :: 0 <= n < errors ==> tolerates(n)
  }

  /** What the callers of `ReadAllLines` see, by outcome.  Before the last call every call is full, and what
      has been read but not handed over never fills a batch. */
  ghost predicate Ended(input: seq<Read>, batchSize: nat, succeeds: nat -> bool, tolerates: nat -> bool,
                        calls: seq<Call>, outcome: Outcome, consumed: nat)
    requires batchSize > 0
  {
    && consumed <= |input|
    && match outcome
       case Finished(ok) =>
         && consumed == |input| && calls != [] && ok == succeeds(|calls| - 1)
         && var before, last := calls[..|calls| - 1], calls[|calls| - 1];
            && FullCalls(before, batchSize) && last.totalRead == |Rows(input)|
            && AllTolerated(tolerates, ErrorsSeen(input, before, succeeds))
            && if AllSucceed(before, succeeds)
               then Handed(calls) == Rows(input) && |last.rows| == |Rows(input)| % batchSize
               else LastRefused(before, succeeds) && Handed(before) == Rows(input) && last == before[|before| - 1]
       case Panicked =>
         && consumed < |input| && input[consumed].Row? && LastRefused(calls, succeeds)
         && FullCalls(calls, batchSize) && Handed(calls) == Rows(input[..consumed])
         && AllTolerated(tolerates, ErrorsSeen(input[..consumed], calls, succeeds))
       case Aborted =>
         var read, errors := Rows(input[..consumed]), ErrorsSeen(input[..consumed], calls, succeeds);
         && consumed > 0 && FullCalls(calls, batchSize)
         && (if AllSucceed(calls, succeeds)
             then input[consumed - 1].Failure? && Handed(calls) <= read && |read| < |Handed(calls)| + batchSize
             else LastRefused(calls, succeeds) && Handed(calls) == read)
         && errors > 0 && !tolerates(errors - 1) && AllTolerated(tolerates, errors - 1)
  }

  /** The state of the loop after the reads `done`: `held` is the filled prefix of the buffer. */
  ghost predicate Going(done: seq<Read>, batchSize: nat, succeeds: nat -> bool,
                        calls: seq<Call>, held: seq<seq<string>>, total: nat, errors: nat)
  {
    && |held| <= batchSize && total == |Rows(done)|
    && FullCalls(calls, batchSize) && errors == ErrorsSeen(done, calls, succeeds)
    && if |held| == batchSize
       then LastRefused(calls, succeeds) && Handed(calls) == Rows(done) && calls[|calls| - 1] == Call(held, total)
       else AllSucceed(calls, succeeds) && Handed(calls) + held == Rows(done) && |held| == total % batchSize
  }

  lemma NothingRead(batchSize: nat, succeeds: nat -> bool)
    requires batchSize > 0
    ensures Going([], batchSize, succeeds, [], [], 0, 0)
  {
    SmallModulus(0, batchSize);
  }

  lemma AfterFailure(done: seq<Read>, batchSize: nat, succeeds: nat -> bool,
                     calls: seq<Call>, held: seq<seq<string>>, total: nat, errors: nat)
    requires batchSize > 0 && Going(done, batchSize, succeeds, calls, held, total, errors)
    ensures Going(done + [Failure], batchSize, succeeds, calls, held, total, errors + 1)
  {
    hide Handed, Rows, FullCalls, FailedReads;
    OneMoreRead(done, Failure);
  }

  /** A row that fits is put into the buffer; a full buffer is handed over. */
  lemma AfterRow(done: seq<Read>, batchSize: nat, succeeds: nat -> bool,
                 calls: seq<Call>, held: seq<seq<string>>, total: nat, errors: nat, cells: seq<string>)
    requires batchSize > 0 && |held| < batchSize && Going(done, batchSize, succeeds, calls, held, total, errors)
    ensures var done', held', total' := done + [Row(cells)], held + [cells], total + 1;
      var calls' := calls + [Call(held', total')];
      && (total' % batchSize == 0 <==> |held'| == batchSize)
      && if |held'| < batchSize then Going(done', batchSize, succeeds, calls, held', total', errors)
         else if succeeds(|calls|) then Going(done', batchSize, succeeds, calls', [], total', errors)
         else Going(done', batchSize, succeeds, calls', held', total', errors + 1)
  {
    hide Handed, Rows, FullCalls, FailedReads;
    var held' := held + [cells];
    OneMoreRead(done, Row(cells));
    NextModulus(total, batchSize);
    OneMoreCall(calls, Call(held', total + 1), batchSize);
    assert Handed(calls) + held' == Rows(done) + [cells];
    assert (calls + [Call(held', total + 1)])[..|calls|] == calls;
    assert Handed(calls) + held' + [] == Handed(calls) + held';
  }

  lemma AtEnd(input: seq<Read>, batchSize: nat, succeeds: nat -> bool, tolerates: nat -> bool,
              calls: seq<Call>, held: seq<seq<string>>, total: nat, errors: nat)
    requires batchSize > 0
    requires Going(input, batchSize, succeeds, calls, held, total, errors) && AllTolerated(tolerates, errors)
    ensures Ended(input, batchSize, succeeds, tolerates,
                  calls + [Call(held, total)], Finished(succeeds(|calls|)), |input|)
  {
    hide Handed, Rows, FullCalls, FailedReads;
    OneMoreCall(calls, Call(held, total), batchSize);
    assert (calls + [Call(held, total)])[..|calls|] == calls;
  }

  lemma AtAbort(input: seq<Read>, batchSize: nat, succeeds: nat -> bool, tolerates: nat -> bool,
                calls: seq<Call>, held: seq<seq<string>>, total: nat, errors: nat, consumed: nat)
    requires batchSize > 0 && 0 < consumed <= |input| && (input[consumed - 1].Failure? || |held| == batchSize)
    requires Going(input[..consumed], batchSize, succeeds, calls, held, total, errors)
    requires errors > 0 && !tolerates(errors - 1) && AllTolerated(tolerates, errors - 1)
    ensures Ended(input, batchSize, succeeds, tolerates, calls, Aborted, consumed)
  {
    hide Handed, Rows, FullCalls, FailedReads;
  }

  lemma AtPanic(input: seq<Read>, batchSize: nat, succeeds: nat -> bool, tolerates: nat -> bool,
                calls: seq<Call>, held: seq<seq<string>>, total: nat, errors: nat, consumed: nat)
    requires batchSize > 0 && consumed < |input| && input[consumed].Row? && |held| == batchSize
    requires AllTolerated(tolerates, errors)
    requires Going(input[..consumed], batchSize, succeeds, calls, held, total, errors)
    ensures Ended(input, batchSize, succeeds, tolerates, calls, Panicked, consumed)
  {
    hide Handed, Rows, FullCalls, FailedReads;
  }

  /** `succeeds(n)` is the outcome of the n-th batch call, `tolerates(n)` whether the n-th error is to be
      survived (a missing error handler survives all).  A tolerated batch failure keeps the full buffer:
      the next row no longer fits, and without one the batch is handed over a second time. */
  method ReadAllLines(input: seq<Read>, batchSize: nat, succeeds: nat -> bool, tolerates: nat -> bool)
    returns (calls: seq<Call>, outcome: Outcome, consumed: nat)
    requires batchSize > 0
    ensures Ended(input, batchSize, succeeds, tolerates, calls, outcome, consumed)
  {
    hide Handed, Rows, FullCalls, FailedReads, ErrorsSeen;
    calls := [];
    NothingRead(batchSize, succeeds);
    assert input[..0] == [];
    var i, total, errors := 0, 0, 0;
    var translates := new seq<string>[batchSize];
    for k := 0 to |input|
      invariant i <= batchSize == translates.Length && fresh(translates)
      invariant Going(input[..k], batchSize, succeeds, calls, translates[..i], total, errors)
      invariant AllTolerated(tolerates, errors)
    {
      hide Going, Ended;
      assert input[..k + 1] == input[..k] + [input[k]];
      match input[k]
      case Failure =>
        AfterFailure(input[..k], batchSize, succeeds, calls, translates[..i], total, errors);
        errors := errors + 1;
        if !tolerates(errors - 1) {
          AtAbort(input, batchSize, succeeds, tolerates, calls, translates[..i], total, errors, k + 1);
          return calls, Aborted, k + 1;
        }
      case Row(cells) =>
        if i == batchSize {
          AtPanic(input, batchSize, succeeds, tolerates, calls, translates[..i], total, errors, k);
          return calls, Panicked, k;
        }
        AfterRow(input[..k], batchSize, succeeds, calls, translates[..i], total, errors, cells);
        ghost var held := translates[..i];
        translates[i] := cells;
        i, total := i + 1, total + 1;
        assert translates[..i] == held + [cells];
        if total % batchSize == 0 {
          calls := calls + [Call(translates[..i], total)];
          if !succeeds(|calls| - 1) {
            errors := errors + 1;
            if !tolerates(errors - 1) {
              AtAbort(input, batchSize, succeeds, tolerates, calls, translates[..i], total, errors, k + 1);
              return calls, Aborted, k + 1;
            }
            continue;
          }
          i := 0;
          translates := new seq<string>[batchSize];
        }
    }
    assert input[..|input|] == input;
    AtEnd(input, batchSize, succeeds, tolerates, calls, translates[..i], total, errors);
    calls := calls + [Call(translates[..i], total)];
    outcome, consumed := Finished(succeeds(|calls| - 1)), |input|;
  }

  // ---------------------------------------------------------------- when everything is handed over once

  lemma {:induction false} FullCallsCount(calls: seq<Call>, batchSize: nat)
    requires FullCalls(calls, batchSize)
    ensures |Handed(calls)| == |calls| * batchSize
  {
    if calls != [] {
      FullCallsCount(calls[..|calls| - 1], batchSize);
      OneMore(|calls| - 1, batchSize);
    }
  }

  lemma {:induction false} PrefixCounts(input: seq<Read>, k: nat)
    requires k <= |input|
    ensures |Rows(input[..k])| <= |Rows(input)| && FailedReads(input[..k]) <= FailedReads(input)
  {
    if k == |input| {
      assert input[..k] == input;
    } else {
      var n := |input| - 1;
      PrefixCounts(input[..n], k);
      assert input[..n][..k] == input[..k];
    }
  }

  lemma RefusedBatchIsDue(calls: seq<Call>, batchSize: nat, rows: nat)
    requires batchSize > 0 && calls != [] && FullCalls(calls, batchSize) && |Handed(calls)| <= rows
    ensures |calls| - 1 < rows / batchSize
  {
    FullCallsCount(calls, batchSize);
    var q, r := rows / batchSize, rows % batchSize;
    assert rows == q * batchSize + r;
    MultiplesApart(q, |calls|, batchSize);
  }

  /** Each full batch that the rows make is taken. */
  ghost predicate FullBatchesTaken(input: seq<Read>, batchSize: nat, succeeds: nat -> bool)
    requires batchSize > 0
  {
    forall n: nat :: n < |Rows(input)| / batchSize ==> succeeds(n)
  }

  /** Every row is handed over exactly once exactly when all full batches are taken and all read errors
      are tolerated, whatever becomes of the last, partial batch. */
  lemma HandedOverExactly(input: seq<Read>, batchSize: nat, succeeds: nat -> bool, tolerates: nat -> bool,
                          calls: seq<Call>, outcome: Outcome, consumed: nat)
    requires batchSize > 0 && Ended(input, batchSize, succeeds, tolerates, calls, outcome, consumed)
    ensures outcome.Finished? && Handed(calls) == Rows(input) <==>
      FullBatchesTaken(input, batchSize, succeeds) && AllTolerated(tolerates, FailedReads(input))
  {
    hide Handed, Rows, FullCalls, FailedReads;
    PrefixCounts(input, consumed);
    if outcome.Finished? {
      FinishedInFull(input, batchSize, succeeds, tolerates, calls, outcome, consumed);
    } else if calls != [] && !succeeds(|calls| - 1) {
      RefusedBatchIsDue(calls, batchSize, |Rows(input)|);
    } else {
      assert outcome.Aborted? && ErrorsSeen(input[..consumed], calls, succeeds) <= FailedReads(input);
    }
  }

  lemma FinishedInFull(input: seq<Read>, batchSize: nat, succeeds: nat -> bool, tolerates: nat -> bool,
                       calls: seq<Call>, outcome: Outcome, consumed: nat)
    requires batchSize > 0 && Ended(input, batchSize, succeeds, tolerates, calls, outcome, consumed)
    requires outcome.Finished?
    ensures AllTolerated(tolerates, FailedReads(input))
    ensures Handed(calls) == Rows(input) <==> FullBatchesTaken(input, batchSize, succeeds)
  {
    hide Handed, Rows, FullCalls, FailedReads;
    var before, last, rows := calls[..|calls| - 1], calls[|calls| - 1], |Rows(input)|;
    assert calls == before + [last];
    OneMoreCall(before, last, batchSize);
    FullCallsCount(before, batchSize);
    if AllSucceed(before, succeeds) {
      DivisionIs(rows, |before|, batchSize, rows % batchSize);
    } else {
      RefusedBatchIsDue(before, batchSize, rows);
      LastOfFull(before, batchSize);
    }
  }

  lemma LastOfFull(calls: seq<Call>, batchSize: nat)
    requires calls != [] && FullCalls(calls, batchSize)
    ensures |calls[|calls| - 1].rows| == batchSize
  {
  }

  lemma OneCall(call: Call)
    ensures Handed([call]) == call.rows && (FullCalls([call], 1) ==> call == Call(call.rows, 1) && |call.rows| == 1)
  {
    assert [call][..0] == [];
    OneMoreCall([], call, 1);
    assert [] + [call] == [call];
  }

  lemma OneOrTwoRows(a: seq<string>, b: seq<string>)
    ensures Rows([]) == [] && Rows([Row(a)]) == [a] && Rows([Row(a), Row(b)]) == [a, b]
  {
    OneMoreRead([], Row(a));
    OneMoreRead([Row(a)], Row(b));
    assert [] + [Row(a)] == [Row(a)];
  }

  /** When every batch is refused, nobody sees more than one call before the last one. */
  lemma AllRefused(calls: seq<Call>, succeeds: nat -> bool)
    requires forall n: nat :: !succeeds(n)
    ensures AllSucceed(calls, succeeds) <==> calls == []
    ensures LastRefused(calls, succeeds) ==> |calls| == 1 && calls == [calls[0]]
  {
    assert !succeeds(0);
  }

  /** Two rows in batches of one, the first batch refused and the refusal tolerated: the second row is
      written past the end of the buffer. */
  lemma RefusalPanics(a: seq<string>, b: seq<string>, succeeds: nat -> bool, tolerates: nat -> bool,
                      calls: seq<Call>, outcome: Outcome, consumed: nat)
    requires forall n: nat :: !succeeds(n) && tolerates(n)
    requires Ended([Row(a), Row(b)], 1, succeeds, tolerates, calls, outcome, consumed)
    ensures outcome == Panicked && calls == [Call([a], 1)] && consumed == 1
  {
    hide Handed, Rows, FullCalls, FailedReads, AllSucceed, LastRefused;
    var input := [Row(a), Row(b)];
    OneOrTwoRows(a, b);
    assert input[..0] == [] && input[..1] == [Row(a)];
    AllRefused(calls, succeeds);
    if calls != [] {
      AllRefused(calls[..|calls| - 1], succeeds);
      OneCall(calls[0]);
    }
  }

  /** The only row in a batch of one, refused and tolerated: it is handed over twice. */
  lemma RefusalRepeats(a: seq<string>, succeeds: nat -> bool, tolerates: nat -> bool,
                       calls: seq<Call>, outcome: Outcome, consumed: nat)
    requires forall n: nat :: !succeeds(n) && tolerates(n)
    requires Ended([Row(a)], 1, succeeds, tolerates, calls, outcome, consumed)
    ensures outcome == Finished(false) && calls == [Call([a], 1), Call([a], 1)]
  {
    hide Handed, Rows, FullCalls, FailedReads, AllSucceed, LastRefused;
    OneOrTwoRows(a, a);
    assert [Row(a)][..0] == [];
    AllRefused(calls, succeeds);
    if calls != [] {
      AllRefused(calls[..|calls| - 1], succeeds);
      OneCall(calls[0]);
    }
  }
}
