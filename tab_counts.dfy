/**
 * The counter bookkeeping of the window controller: which ids are in the tab
 * list, the open-tab counter and how many times the window was asked to close.
 * The counter is adjusted blindly, so it matches the tab list only while every
 * added id is fresh and every closed id is present.
 */
module TabCounts {
  import opened Tabs

  datatype Ledger = Ledger(ids: set<TabId>, open: int, closeRequests: nat)

  datatype Op = Add(id: TabId) | Close(id: TabId)

  /** The ledger right after the window opened its first tab. */
  function Opened(first: TabId): Ledger {
    Ledger({first}, 1, 0)
  }

  /**
   * addNewTab and closeTabViewById, as far as the bookkeeping goes: an add
   * files the id and counts one tab more; a close drops the id, counts one tab
   * fewer whether or not the id was listed, and asks for the window to close
   * exactly when the counter reaches 0. No other id is touched.
   */
  function Step(l: Ledger, op: Op): (r: Ledger)
    ensures forall k :: k != op.id ==> (k in r.ids <==> k in l.ids)
    ensures op.Add? ==> op.id in r.ids && r.open == l.open + 1 && r.closeRequests == l.closeRequests
    ensures op.Close? ==> op.id !in r.ids && r.open == l.open - 1 &&
                          r.closeRequests == l.closeRequests + (if r.open == 0 then 1 else 0)
  {
    match op
    case Add(id) => Ledger(l.ids + {id}, l.open + 1, l.closeRequests)
    case Close(id) =>
      var open := l.open - 1;
      Ledger(l.ids - {id}, open, if open == 0 then l.closeRequests + 1 else l.closeRequests)
  }

  /** The ledger after the operations `ops`, in order. */
  function Run(l: Ledger, ops: seq<Op>): Ledger
    decreases |ops|
  {
    if ops == [] then l else Run(Step(l, ops[0]), ops[1..])
  }

  /** The open-tab counter agrees with the tab list. */
  predicate Consistent(l: Ledger) {
    l.open == |l.ids|
  }

  /** Ids are fresh when added and present when closed. */
  predicate Allowed(l: Ledger, op: Op) {
    match op
    case Add(id) => id !in l.ids
    case Close(id) => id in l.ids
  }

  predicate Admissible(l: Ledger, ops: seq<Op>)
    decreases |ops|
  {
    ops == [] || (Allowed(l, ops[0]) && Admissible(Step(l, ops[0]), ops[1..]))
  }

  /**
   * From a consistent ledger, one step stays consistent exactly when it is
   * allowed: re-adding a present id or closing an absent one leaves the
   * counter off by one.
   */
  lemma StepConsistentIff(l: Ledger, op: Op)
    requires Consistent(l)
    ensures Consistent(Step(l, op)) <==> Allowed(l, op)
  {
  }

  /** For every admissible sequence of adds and closes, the counter equals the number of tabs. */
  lemma {:induction false} RunKeepsConsistent(l: Ledger, ops: seq<Op>)
    requires Consistent(l) && Admissible(l, ops)
    ensures Consistent(Run(l, ops))
    decreases |ops|
  {
    if ops != [] {
      StepConsistentIff(l, ops[0]);
      RunKeepsConsistent(Step(l, ops[0]), ops[1..]);
    }
  }

  /** Closing a present tab asks for the window to close exactly when it was the last tab. */
  lemma CloseRequestsWhenLastTab(l: Ledger, id: TabId)
    requires Consistent(l) && id in l.ids
    ensures Step(l, Close(id)).closeRequests
         == l.closeRequests + (if l.ids == {id} then 1 else 0)
    ensures Step(l, Close(id)).ids == {} <==> l.ids == {id}
  {
    var rest := l.ids - {id};
    assert l.ids == rest + {id};
    assert |l.ids| == |rest| + 1;
    if rest != {} {
      var other :| other in rest;
      assert l.ids != {id} by { assert other in l.ids && other != id; }
    }
  }

  /** How many of `ops` are closes that leave the tab list empty. */
  function LastTabCloses(l: Ledger, ops: seq<Op>): nat
    decreases |ops|
  {
    if ops == [] then 0
    else
      var next := Step(l, ops[0]);
      (if ops[0].Close? && next.ids == {} then 1 else 0) + LastTabCloses(next, ops[1..])
  }

  /**
   * Along an admissible run, the window is asked to close once for every
   * close that leaves the tab list empty, and at no other time.
   */
  lemma {:induction false} CloseRequestsCountLastTabCloses(l: Ledger, ops: seq<Op>)
    requires Consistent(l) && Admissible(l, ops)
    ensures Run(l, ops).closeRequests == l.closeRequests + LastTabCloses(l, ops)
    decreases |ops|
  {
    if ops != [] {
      var next := Step(l, ops[0]);
      if ops[0].Close? {
        CloseRequestsWhenLastTab(l, ops[0].id);
      } else {
        assert ops[0].id in next.ids;
      }
      StepConsistentIff(l, ops[0]);
      CloseRequestsCountLastTabCloses(next, ops[1..]);
    }
  }

  /**
   * The scenario that starts with one tab, opens a second, then closes the
   * second and the first: the window is asked to close once.
   */
  lemma TwoTabsOpenedAndClosed(t1: TabId, t2: TabId)
    requires t1 != t2
    ensures Run(Opened(t1), [Add(t2), Close(t2), Close(t1)]) == Ledger({}, 0, 1)
  {
    var ops := [Add(t2), Close(t2), Close(t1)];
    var l1 := Step(Opened(t1), Add(t2));
    var l2 := Step(l1, Close(t2));
    var l3 := Step(l2, Close(t1));
    assert l2.ids == {t1};
    assert l3 == Ledger({}, 0, 1);
    assert ops[1..] == [Close(t2), Close(t1)];
    assert ops[1..][1..] == [Close(t1)];
    assert Run(l2, [Close(t1)]) == Run(l3, []);
  }
}
