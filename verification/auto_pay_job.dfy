/** One auto-pay job from start to end, and the steps of the interleaved system it goes through. */
module AutoPayJob {
  import opened Options
  import opened CivilCalendar
  import opened AutoPay
  import opened AutoPayRuns

  lemma {:induction false} Extend(s: System, events: seq<Event>, e: Event)
    requires IsRun(s, events) && Enabled(Final(s, events), e)
    ensures IsRun(s, events + [e])
    ensures Final(s, events + [e]) == Next(Final(s, events), e)
    decreases |events|
  {
    hide Enabled, Next;
    var longer := events + [e];
    if events == [] {
      assert longer[0] == e && longer[1..] == [];
    } else {
      assert longer[0] == events[0] && longer[1..] == events[1..] + [e];
      Extend(Next(s, events[0]), events[1..], e);
    }
  }

  /** The tables with no job running and no auto-payment on record yet. */
  ghost function Idle(bills: map<nat, Bill>, entries: map<nat, Entry>, transactions: seq<Transaction>, made: seq<Made>): System {
    System(bills, entries, map[], transactions, made)
  }

  /** The run has come to these tables with worker 0 still to pay `pending`. */
  ghost predicate Working(s: System, events: seq<Event>, bills: map<nat, Bill>, entries: map<nat, Entry>,
                          transactions: seq<Transaction>, today: Day, pending: seq<Item>, made: seq<Made>)
  {
    IsRun(s, events) && Final(s, events) == System(bills, entries, map[0 := Worker(today, pending)], transactions, made)
  }

  lemma Starts(bills: map<nat, Bill>, entries: map<nat, Entry>, transactions: seq<Transaction>, today: Day, pending: seq<Item>)
    returns (events: seq<Event>)
    requires forall i :: 0 <= i < |pending| ==> Listed(bills, entries, pending[i], today)
    requires forall i, j :: 0 <= i < j < |pending| ==> pending[i].entry != pending[j].entry
    requires forall id :: id in DueIds(bills, entries, today) ==> exists i :: 0 <= i < |pending| && pending[i].entry == id
    ensures Working(Idle(bills, entries, transactions, []), events, bills, entries, transactions, today, pending, [])
  {
    hide Listed, DueIds;
    var s, e := Idle(bills, entries, transactions, []), Start(0, today, pending);
    Extend(s, [], e);
    events := [] + [e];
  }

  lemma Pays(s: System, events: seq<Event>, bills: map<nat, Bill>, entries: map<nat, Entry>, transactions: seq<Transaction>,
             today: Day, pending: seq<Item>, made: seq<Made>, at: real)
    returns (longer: seq<Event>)
    requires Working(s, events, bills, entries, transactions, today, pending, made) && pending != []
    requires pending[0].entry in entries && entries[pending[0].entry].bill in bills && Claimable(entries[pending[0].entry])
    ensures var item := pending[0];
      var bucket := bills[entries[item.entry].bill].bucket;
      Working(s, longer, bills, Stamped(entries, item, bucket, |transactions|, at), transactions + Payment(item, bucket),
              today, pending[1..], made + [Made(item.entry, item.due, today)])
  {
    hide Stamped, Payment, Claimable;
    Extend(s, events, Claim(0, at));
    longer := events + [Claim(0, at)];
    assert map[0 := Worker(today, pending)][0 := Worker(today, pending[1..])] == map[0 := Worker(today, pending[1..])];
  }

  lemma Stops(s: System, events: seq<Event>, bills: map<nat, Bill>, entries: map<nat, Entry>, transactions: seq<Transaction>,
              today: Day, made: seq<Made>)
    returns (longer: seq<Event>)
    requires Working(s, events, bills, entries, transactions, today, [], made)
    ensures IsRun(s, longer) && Final(s, longer) == Idle(bills, entries, transactions, made)
  {
    Extend(s, events, Stop(0));
    longer := events + [Stop(0)];
    assert map[0 := Worker(today, [])] - {0} == map[];
  }

  /** The tables after the job, entry by entry. */
  lemma JobMeans(bills: map<nat, Bill>, was: map<nat, Entry>, before: seq<Transaction>,
                 entries: map<nat, Entry>, transactions: seq<Transaction>, today: Day, now: nat -> real)
    requires PaidSoFar(bills, was, before, entries, transactions, DueIds(bills, was, today), now)
    ensures entries.Keys == was.Keys && forall id :: id in was ==> was[id].bill in bills
    ensures forall id :: id in entries ==>
      var e, b, after := was[id], bills[was[id].bill], entries[id];
      && (ToBePaid(b, e, today) ==>
            && after == e.(status := Paid, paidAt := Some(now(id)), paidBy := b.payer, autoPaidAt := Some(now(id)),
                           transaction := after.transaction)
            && (after.transaction.Some? <==> b.bucket.Some?)
            && (after.transaction.Some? ==>
                  && |before| <= after.transaction.value < |transactions|
                  && var t := transactions[after.transaction.value];
                     && t.entry == id && t.payer == b.payer && Some(t.bucket) == b.bucket
                     && (e.amount.Some? ==> t.amount == e.amount.value)
                     && (e.amount == None ==> b.amount == Some(t.amount))))
      && (!ToBePaid(b, e, today) ==> after == e)
  {
    AllPaid(bills, was, before, entries, transactions, DueIds(bills, was, today), now);
    hide PaidSoFar, ToBePaid, DueIds;
    forall id | id in entries
      ensures id in DueIds(bills, was, today) <==> ToBePaid(bills[was[id].bill], was[id], today)
    {
      DueMeans(bills, was, today, id);
    }
  }

  /** The loop over the list: every item is paid in turn. */
  method PayListed(ledger: Ledger, pending: seq<Item>, today: Day, now: nat -> real, ghost begun: seq<Event>)
    returns (count: nat, ghost events: seq<Event>, ghost made: seq<Made>)
    requires ledger.Valid() && forall i, j :: 0 <= i < j < |pending| ==> pending[i].entry != pending[j].entry
    requires forall i :: 0 <= i < |pending| ==> Listed(ledger.bills, ledger.entries, pending[i], today)
    requires forall id :: id in DueIds(ledger.bills, ledger.entries, today) <==>
      exists i :: 0 <= i < |pending| && pending[i].entry == id
    requires Working(Idle(ledger.bills, ledger.entries, ledger.transactions, []), begun,
                     ledger.bills, ledger.entries, ledger.transactions, today, pending, [])
    modifies ledger`entries, ledger`transactions
    ensures ledger.Valid() && count == |DueIds(ledger.bills, old(ledger.entries), today)| == |made|
    ensures PaidSoFar(ledger.bills, old(ledger.entries), old(ledger.transactions), ledger.entries, ledger.transactions,
                      DueIds(ledger.bills, old(ledger.entries), today), now)
    ensures Working(Idle(ledger.bills, old(ledger.entries), old(ledger.transactions), []), events,
                    ledger.bills, ledger.entries, ledger.transactions, today, [], made)
  {
    hide PaidSoFar, AutoPaid, WithBucket, DueIds, Listed, Stamped, Payment, Claimable, IsAmountFor, Selected;
    hide Working, IsRun, Final, Idle;
    count, made, events := 0, [], begun;
    ghost var was, before := ledger.entries, ledger.transactions;
    ghost var s := Idle(ledger.bills, was, before, []);
    ghost var done: set<nat> := {};
    NothingPaid(ledger.bills, was, before, now);
    assert pending[0..] == pending;
    var k := 0;
    while k < |pending|
      invariant 0 <= k <= |pending| && count == |done| == |made| && ledger.Valid()
      invariant forall id :: id in done <==> exists i :: 0 <= i < k && pending[i].entry == id
      invariant PaidSoFar(ledger.bills, was, before, ledger.entries, ledger.transactions, done, now)
      invariant Working(s, events, ledger.bills, ledger.entries, ledger.transactions, today, pending[k..], made)
    {
      var item := pending[k];
      assert item.entry !in done;
      ListedIsClaimable(ledger.bills, was, item, today);
      StillUnpaid(ledger.bills, was, before, ledger.entries, ledger.transactions, done, now, item.entry);
      PaysOneMore(ledger.bills, was, before, ledger.entries, ledger.transactions, done, now, item);
      events := Pays(s, events, ledger.bills, ledger.entries, ledger.transactions, today, pending[k..], made, now(item.entry));
      var paid := ledger.PayItem(item, now(item.entry));
      made := made + [Made(item.entry, item.due, today)];
      if paid {
        count := count + 1;
      }
      done := done + {item.entry};
      k := k + 1;
    }
    assert done == DueIds(ledger.bills, was, today);
    assert pending[k..] == [];
  }

  /** A job alone, with the table's ids in any order and a clock reading per item: a run of the
      system in which every selected entry is paid once, stamped, and linked to one new transaction
      for its own amount if its bill has a bucket; no other entry and no earlier transaction is
      touched. */
  method AutoPayDueBills(ledger: Ledger, ids: seq<nat>, today: Day, now: nat -> real)
    returns (count: nat, ghost events: seq<Event>, ghost made: seq<Made>)
    requires ledger.Valid() && forall i, j :: 0 <= i < j < |ids| ==> ids[i] != ids[j]
    requires forall id :: id in ids <==> id in ledger.entries
    modifies ledger`entries, ledger`transactions
    ensures ledger.Valid() && ledger.entries.Keys == old(ledger.entries).Keys
    ensures forall id :: id in ledger.entries ==>
      var e, b, after := old(ledger.entries[id]), ledger.bills[old(ledger.entries[id]).bill], ledger.entries[id];
      && (ToBePaid(b, e, today) ==>
            && after == e.(status := Paid, paidAt := Some(now(id)), paidBy := b.payer, autoPaidAt := Some(now(id)),
                           transaction := after.transaction)
            && (after.transaction.Some? <==> b.bucket.Some?)
            && (after.transaction.Some? ==>
                  && |old(ledger.transactions)| <= after.transaction.value < |ledger.transactions|
                  && var t := ledger.transactions[after.transaction.value];
                     && t.entry == id && t.payer == b.payer && Some(t.bucket) == b.bucket
                     && (e.amount.Some? ==> t.amount == e.amount.value)
                     && (e.amount == None ==> b.amount == Some(t.amount))))
      && (!ToBePaid(b, e, today) ==> after == e)
    ensures old(ledger.transactions) <= ledger.transactions
    ensures count == |DueIds(old(ledger.bills), old(ledger.entries), today)| == |made|
    ensures |ledger.transactions| == |old(ledger.transactions)|
            + |WithBucket(old(ledger.bills), old(ledger.entries), DueIds(old(ledger.bills), old(ledger.entries), today))|
    ensures IsRun(Idle(ledger.bills, old(ledger.entries), old(ledger.transactions), []), events)
    ensures Final(Idle(ledger.bills, old(ledger.entries), old(ledger.transactions), []), events)
         == Idle(ledger.bills, ledger.entries, ledger.transactions, made)
  {
    hide PaidSoFar, AutoPaid, WithBucket, DueIds, Listed, Stamped, Payment, Claimable, IsAmountFor, Selected, ToBePaid;
    hide Working, IsRun, Final, Idle;
    var pending := ledger.Snapshot(ids, today);
    ghost var was, before := ledger.entries, ledger.transactions;
    events := Starts(ledger.bills, was, before, today, pending);
    count, events, made := PayListed(ledger, pending, today, now, events);
    AllPaid(ledger.bills, was, before, ledger.entries, ledger.transactions, DueIds(ledger.bills, was, today), now);
    JobMeans(ledger.bills, was, before, ledger.entries, ledger.transactions, today, now);
    events := Stops(Idle(ledger.bills, was, before, []), events, ledger.bills, ledger.entries, ledger.transactions, today, made);
  }
}
