/** resources/pipeline.go: the scanner feeding the decoders. */
module Pipeline {
  import opened LineScanner
  import opened LineFiles
  import opened DecoderPool

  /** The scanner sends byte slices. */
  function AsItems(texts: seq<string>): seq<Item> {
    seq(|texts|, i requires 0 <= i < |texts| => Bytes(texts[i]))
  }

  lemma {:induction false} DecodedOrReported(f: Unmarshal, texts: seq<string>)
    ensures |AllDecoded(f, AsItems(texts))| + |AllReported(f, AsItems(texts))| == |texts|
  {
    if texts != [] {
      var front, last := texts[..|texts| - 1], texts[|texts| - 1];
      DecodedOrReported(f, front);
      DecoderPool.OneMore(f, AsItems(front), Bytes(last));
      assert AsItems(texts) == AsItems(front) + [Bytes(last)];
    }
  }

  /** Whatever the number of decoders and the interleaving: when the output closes, it holds the decodings
      of what was sent and the decoders have reported the rest of it.  What was sent are lines that were
      due, whole and in order; together with the read errors they account for every such line exactly
      when the scanner delivered them all, or all were to be skipped. */
  lemma EveryLineOnce(files: seq<File>, max: nat, skip: int, f: Unmarshal, goroutines: nat, run: seq<System>, i: nat)
    requires goroutines > 0 && IsRun(f, AsItems(Sent(files, max, skip)), goroutines, run)
    requires i < |run| && run[i].closed
    ensures var sent, due := Sent(files, max, skip), Texts(AfterSkip(WrittenLines(files), skip));
      var accounted := |run[i].output| + |run[i].errors| + ErrorsCount(Reports(files, max, skip));
      && multiset(run[i].output) == multiset(AllDecoded(f, AsItems(sent)))
      && multiset(run[i].errors) == multiset(AllReported(f, AsItems(sent)))
      && Subsequence(sent, due)
      && (AllWhole(files, max) ==> sent == due)
      && (accounted == |due| <==> AllDelivered(files, max) || |WrittenLines(files)| <= skip)
  {
    hide Sent, Reports, ErrorsCount, WrittenLines, Texts, AfterSkip, AllDelivered, AllWhole, Subsequence;
    var items := AsItems(Sent(files, max, skip));
    ClosedIsComplete(f, items, goroutines, run, i);
    DecodedOrReported(f, Sent(files, max, skip));
    SentAreLines(files, max, skip);
    NothingLostExactly(files, max, skip);
    DueTexts(files, max, skip);
    if AllWhole(files, max) { WholeFilesAreSent(files, max, skip); }
    assert |run[i].output| == |multiset(run[i].output)| == |multiset(AllDecoded(f, items))|;
    assert |run[i].errors| == |multiset(run[i].errors)| == |multiset(AllReported(f, items))|;
  }

  /** For files of short rows: the output holds the decodings of their texts after the skipped ones. */
  lemma EveryRowOnce(files: seq<File>, docs: seq<Doc>, max: nat, skip: nat, f: Unmarshal, goroutines: nat,
                     run: seq<System>, i: nat)
    requires AllHold(files, docs) && Short(docs, max) && skip <= |AllTexts(docs)|
    requires goroutines > 0 && IsRun(f, AsItems(Sent(files, max, skip)), goroutines, run)
    requires i < |run| && run[i].closed
    ensures var items := AsItems(AllTexts(docs)[skip..]);
      && multiset(run[i].output) == multiset(AllDecoded(f, items))
      && multiset(run[i].errors) == multiset(AllReported(f, items))
      && |run[i].output| + |run[i].errors| == |AllTexts(docs)| - skip
  {
    hide AllHold, Short, Sent, AllTexts;
    ShortRowsAreSent(files, docs, max, skip);
    var texts := AllTexts(docs)[skip..];
    assert Sent(files, max, skip) == texts;
    ClosedIsComplete(f, AsItems(texts), goroutines, run, i);
    DecodedOrReported(f, texts);
    assert |run[i].output| == |multiset(run[i].output)| == |multiset(AllDecoded(f, AsItems(texts)))|;
    assert |run[i].errors| == |multiset(run[i].errors)| == |multiset(AllReported(f, AsItems(texts)))|;
  }

  lemma DueTexts(files: seq<File>, max: nat, skip: int)
    ensures |Texts(AfterSkip(WrittenLines(files), skip))| == |AfterSkip(WrittenLines(files), skip)|
  {
    hide Texts, AfterSkip, WrittenLines, Failures;
    TokensEmbed(files, max);
    DueHasNoFailures(WrittenLines(files), skip);
    TextOrFailure(AfterSkip(WrittenLines(files), skip));
  }
}
