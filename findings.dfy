/** The loop of handle_limit_order as its source writes it, without the emptiness check: once an
    execution step that asked to continue has emptied the opposite book, the loop test reads the head of
    an empty list and the engine stops with an IndexError. */
module Findings {
  import opened Books
  import opened Matching

  /** A run of the loop either stops on the empty-list index or finishes. */
  datatype Run = Crashed | Finished(progress: Progress)

  /** The loop of handle_limit_order as written: its test reads the head of the opposite book every time. */
  function LimitLoopAsWritten(side: Side, o: OrderRecord, book: seq<Entry>, log: seq<Trade>): Run
    requires Sorted(side.Opposite(), book) && LimitScanSafe(side, o.price, book)
    decreases |book|
  {
    if book == [] then
      Crashed
    else if !Crosses(side, o.price, book[0].price) then
      Finished(Progress(o.volume, book, log))
    else
      var s := Execute(side, o, book);
      ExecuteKeepsBook(side, o, book);
      if s.more then
        LimitLoopAsWritten(side, o.(volume := s.volume), s.book, log + [s.trade])
      else
        Finished(Progress(s.volume, s.book, log + [s.trade]))
  }

  /** Entered with a non-empty opposite book, as handle_limit_order enters it, the loop as written agrees
      with the corrected LimitLoop except in exactly one case: the order exhausts the opposite book and
      still has volume left, and then the loop as written crashes. */
  lemma {:induction false} AsWrittenCrashesWhenBookExhausted(side: Side, o: OrderRecord, book: seq<Entry>, log: seq<Trade>)
    requires Sorted(side.Opposite(), book) && LimitScanSafe(side, o.price, book) && book != []
    ensures var r := LimitLoop(side, o, book, log);
      LimitLoopAsWritten(side, o, book, log) == if r.book == [] && r.volume > 0 then Crashed else Finished(r)
    decreases |book|
  {
    if Crosses(side, o.price, book[0].price) {
      var s := Execute(side, o, book);
      ExecuteKeepsBook(side, o, book);
      if s.more && s.book != [] {
        AsWrittenCrashesWhenBookExhausted(side, o.(volume := s.volume), s.book, log + [s.trade]);
      }
    }
  }

  /** A buy of 10 at 100 against a single ask of 5 at 100 crashes as written. */
  lemma AsWrittenCrashExample()
    ensures HasPriced([Entry(100, 5, 1, Limit)])
    ensures LimitLoopAsWritten(Buy, OrderRecord(LIMIT, BUY, 100, 10, 2), [Entry(100, 5, 1, Limit)], []) == Crashed
  {
    assert [Entry(100, 5, 1, Limit)][0].kind == Limit;
    var s := Execute(Buy, OrderRecord(LIMIT, BUY, 100, 10, 2), [Entry(100, 5, 1, Limit)]);
    assert s.more && s.book == [];
  }

  /** The sell side at the test of the bid book: a sell of 8 at 90 against a single bid of 5 at 100 pops
      that bid, asks to continue, and crashes as written. */
  lemma AsWrittenSellCrashExample()
    ensures HasPriced([Entry(100, 5, 1, Limit)])
    ensures LimitLoopAsWritten(Sell, OrderRecord(LIMIT, SELL, 90, 8, 2), [Entry(100, 5, 1, Limit)], []) == Crashed
  {
    assert [Entry(100, 5, 1, Limit)][0].kind == Limit;
    var s := Execute(Sell, OrderRecord(LIMIT, SELL, 90, 8, 2), [Entry(100, 5, 1, Limit)]);
    assert s.more && s.book == [];
  }

  /** With the emptiness check the buy of AsWrittenCrashExample trades 5 and rests its remaining 5 on the
      bid book. */
  lemma CorrectedRestsRemainder()
    ensures HasPriced([Entry(100, 5, 1, Limit)])
    ensures DispatchLimit(EngineState([], [Entry(100, 5, 1, Limit)], []), OrderRecord(LIMIT, BUY, 100, 10, 2))
      == Outcome(EngineState([Entry(100, 5, 2, Limit)], [], [Trade(100, 5, 2, Part, 1, Fill)]), OrderRecord(LIMIT, BUY, 100, 5, 2))
  {
    assert [Entry(100, 5, 1, Limit)][0].kind == Limit;
    var s := Execute(Buy, OrderRecord(LIMIT, BUY, 100, 10, 2), [Entry(100, 5, 1, Limit)]);
    assert s.more && s.book == [];
  }
}
