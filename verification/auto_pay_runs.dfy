/** Any number of auto-pay jobs, on any days and in any number of workers, interleaved claim by
    claim with what the user does to the entries meanwhile. */
module AutoPayRuns {
  import opened Options
  import opened CivilCalendar
  import opened AutoPay

  /** A running job: its day and the items of its list still to pay. */
  datatype Worker = Worker(today: Day, pending: seq<Item>)

  /** An auto-payment that was made. */
  datatype Made = Made(entry: nat, due: Day, today: Day)

  datatype System = System(
    bills: map<nat, Bill>,
    entries: map<nat, Entry>,
    workers: map<nat, Worker>,
    transactions: seq<Transaction>,
    made: seq<Made>)

  datatype Event =
    | SetBill(bill: nat, newBill: Bill)
    | Create(entry: nat, newEntry: Entry)
    | Reschedule(entry: nat, due: Day)
    | Pay(entry: nat, paidBy: Option<string>, at: real, transaction: Option<nat>)
    | Skip(entry: nat)
    | Undo(entry: nat)
    | DeleteTransaction(entry: nat)
    | Start(worker: nat, today: Day, pending: seq<Item>)
    | Claim(worker: nat, at: real)
    | Stop(worker: nat)

  predicate HasBill(s: System, id: nat) {
    id in s.entries && s.entries[id].bill in s.bills
  }

  predicate Enabled(s: System, e: Event) {
    match e
    case SetBill(_, _) => true
    case Create(entry, newEntry) => entry !in s.entries && newEntry.autoPaidAt == None && Claimable(newEntry)
    case Reschedule(entry, _) => entry in s.entries
    case Pay(entry, _, _, _) => entry in s.entries && Claimable(s.entries[entry])
    case Skip(entry) => entry in s.entries && s.entries[entry].status != Paid
    case Undo(entry) => entry in s.entries && s.entries[entry].status != Unpaid
    case DeleteTransaction(entry) => entry in s.entries && s.entries[entry].transaction.Some?
    case Start(worker, today, pending) => worker !in s.workers && Lists(s, today, pending)
    case Claim(worker, _) => CanClaim(s, worker)
    case Stop(worker) => worker in s.workers
  }

  predicate CanClaim(s: System, worker: nat) {
    worker in s.workers && s.workers[worker].pending != [] && HasBill(s, s.workers[worker].pending[0].entry)
  }

  /** The list a job makes: today's selected entries, each once. */
  predicate Lists(s: System, today: Day, pending: seq<Item>) {
    && (forall i :: 0 <= i < |pending| ==> Listed(s.bills, s.entries, pending[i], today))
    && (forall i, j :: 0 <= i < j < |pending| ==> pending[i].entry != pending[j].entry)
    && (forall id :: id in DueIds(s.bills, s.entries, today) ==> exists i :: 0 <= i < |pending| && pending[i].entry == id)
  }

  function Reopened(e: Entry): Entry {
    e.(status := Unpaid, paidAt := None, paidBy := None, transaction := None)
  }

  function SetEntry(s: System, id: nat, e: Entry): System {
    s.(entries := s.entries[id := e])
  }

  /** The worker's next claim succeeds. */
  predicate Wins(s: System, worker: nat)
    requires CanClaim(s, worker)
  {
    Claimable(s.entries[s.workers[worker].pending[0].entry])
  }

  function AfterClaim(s: System, worker: nat, at: real): System
    requires CanClaim(s, worker)
  {
    var w := s.workers[worker];
    var item := w.pending[0];
    var rest := s.workers[worker := w.(pending := w.pending[1..])];
    if !Wins(s, worker) then s.(workers := rest)
    else
      var bucket := s.bills[s.entries[item.entry].bill].bucket;
      System(s.bills, Stamped(s.entries, item, bucket, |s.transactions|, at), rest,
             s.transactions + Payment(item, bucket), s.made + [Made(item.entry, item.due, w.today)])
  }

  function Next(s: System, e: Event): System
    requires Enabled(s, e)
  {
    match e
    case SetBill(bill, newBill) => s.(bills := s.bills[bill := newBill])
    case Create(entry, newEntry) => SetEntry(s, entry, newEntry)
    case Reschedule(entry, due) => SetEntry(s, entry, s.entries[entry].(due := due))
    case Pay(entry, paidBy, at, transaction) =>
      SetEntry(s, entry, Claimed(s.entries[entry], paidBy, at).(transaction := transaction))
    case Skip(entry) => SetEntry(s, entry, s.entries[entry].(status := Skipped))
    case Undo(entry) => SetEntry(s, entry, Reopened(s.entries[entry]))
    case DeleteTransaction(entry) => SetEntry(s, entry, Reopened(s.entries[entry]))
    case Start(worker, today, pending) => s.(workers := s.workers[worker := Worker(today, pending)])
    case Claim(worker, at) => AfterClaim(s, worker, at)
    case Stop(worker) => s.(workers := s.workers - {worker})
  }

  // ---- The invariant ----

  predicate WasMade(s: System, id: nat) {
    exists i :: 0 <= i < |s.made| && s.made[i].entry == id
  }

  /** A job still means to pay this entry. */
  predicate Pending(s: System, id: nat) {
    exists w, i :: w in s.workers && 0 <= i < |s.workers[w].pending| && s.workers[w].pending[i].entry == id
  }

  /** Undo and delete keep the stamp, so it tells which entries were ever auto-paid. */
  ghost predicate StampsTell(s: System) {
    && (forall id :: id in s.entries && s.entries[id].autoPaidAt.Some? ==> WasMade(s, id))
    && (forall i :: 0 <= i < |s.made| ==> s.made[i].entry in s.entries && s.entries[s.made[i].entry].autoPaidAt.Some?)
  }

  ghost predicate InWindow(s: System) {
    && (forall i :: 0 <= i < |s.made| ==> InPayWindow(s.made[i].due, s.made[i].today))
    && (forall w, i :: w in s.workers && 0 <= i < |s.workers[w].pending| ==>
          InPayWindow(s.workers[w].pending[i].due, s.workers[w].today))
  }

  /** No job is about to pay an entry that was auto-paid and is open again. */
  ghost predicate NoneReopened(s: System) {
    forall w, i :: w in s.workers && 0 <= i < |s.workers[w].pending| ==>
      Settles(s, s.workers[w].pending[i].entry)
  }

  predicate Settles(s: System, id: nat) {
    id in s.entries && (s.entries[id].autoPaidAt.Some? ==> s.entries[id].status == Paid)
  }

  ghost predicate PaidOnce(s: System) {
    forall i, j :: 0 <= i < j < |s.made| ==> s.made[i].entry != s.made[j].entry
  }

  /** The step reopens an entry some running job still has on its list. */
  predicate ReopensPending(s: System, e: Event) {
    (e.Undo? || e.DeleteTransaction?) && Pending(s, e.entry)
  }

  lemma StepKeepsStamps(s: System, e: Event)
    requires Enabled(s, e) && StampsTell(s)
    ensures StampsTell(Next(s, e))
  {
    hide Lists, Selected;
    var t := Next(s, e);
    if e.Claim? && Wins(s, e.worker) {
      var id := s.workers[e.worker].pending[0].entry;
      assert t.made[|s.made|].entry == id;
      forall k | k in t.entries && t.entries[k].autoPaidAt.Some?
        ensures WasMade(t, k)
      {
        if k != id {
          var i :| 0 <= i < |s.made| && s.made[i].entry == k;
          assert t.made[i].entry == k;
        }
      }
    }
  }

  lemma StepKeepsWindow(s: System, e: Event)
    requires Enabled(s, e) && InWindow(s)
    ensures InWindow(Next(s, e))
  {
  }

  lemma StepKeepsNoneReopened(s: System, e: Event)
    requires Enabled(s, e) && NoneReopened(s) && !ReopensPending(s, e)
    ensures NoneReopened(Next(s, e))
  {
    var t := Next(s, e);
    forall w, i | w in t.workers && 0 <= i < |t.workers[w].pending|
      ensures Settles(t, t.workers[w].pending[i].entry)
    {
      ListedSettles(s, e, w, i);
    }
  }

  lemma ListedSettles(s: System, e: Event, w: nat, i: nat)
    requires Enabled(s, e) && NoneReopened(s) && !ReopensPending(s, e)
    requires w in Next(s, e).workers && i < |Next(s, e).workers[w].pending|
    ensures Settles(Next(s, e), Next(s, e).workers[w].pending[i].entry)
  {
    var t := Next(s, e);
    var id := t.workers[w].pending[i].entry;
    if !(e.Start? && e.worker == w) {
      if e.Claim? && e.worker == w {
        assert s.workers[w].pending[i + 1].entry == id;
      } else {
        assert s.workers[w].pending[i].entry == id;
      }
      assert Settles(s, id) && Pending(s, id);
    }
  }

  /** The worker's next claim would pay an entry that carries the stamp of an earlier
      auto-payment and is open again: the claiming update does not look at the stamp. */
  predicate Repays(s: System, worker: nat)
    requires CanClaim(s, worker)
  {
    var e := s.entries[s.workers[worker].pending[0].entry];
    Claimable(e) && e.autoPaidAt.Some?
  }

  lemma ClaimPaysOnceIff(s: System, worker: nat, at: real)
    requires StampsTell(s) && PaidOnce(s) && CanClaim(s, worker)
    ensures PaidOnce(AfterClaim(s, worker, at)) <==> !Repays(s, worker)
  {
    var t := AfterClaim(s, worker, at);
    if Wins(s, worker) {
      var id := s.workers[worker].pending[0].entry;
      assert t.made[|s.made|].entry == id;
      if s.entries[id].autoPaidAt.Some? {
        var i :| 0 <= i < |s.made| && s.made[i].entry == id;
        assert t.made[i].entry == id;
      }
    }
  }

  /** Payments are never taken back from the record. */
  lemma StepKeepsPaidTwice(s: System, e: Event)
    requires Enabled(s, e)
    ensures PaidOnce(Next(s, e)) ==> PaidOnce(s)
    ensures !e.Claim? ==> Next(s, e).made == s.made
  {
    hide Lists, Selected, Stamped;
    var t := Next(s, e);
    assert forall i :: 0 <= i < |s.made| ==> t.made[i] == s.made[i];
  }

  lemma NoneReopenedNoRepay(s: System, worker: nat)
    requires NoneReopened(s) && CanClaim(s, worker)
    ensures !Repays(s, worker)
  {
    assert Settles(s, s.workers[worker].pending[0].entry);
  }

  // ---- Every run ----

  ghost predicate IsRun(s: System, events: seq<Event>)
    decreases |events|
  {
    events == [] || (Enabled(s, events[0]) && IsRun(Next(s, events[0]), events[1..]))
  }

  ghost function Final(s: System, events: seq<Event>): System
    requires IsRun(s, events)
    decreases |events|
  {
    if events == [] then s else Final(Next(s, events[0]), events[1..])
  }

  /** Some step of the run reopens an entry while a running job has it on its list. */
  ghost predicate ReopensDuringJob(s: System, events: seq<Event>)
    requires IsRun(s, events)
    decreases |events|
  {
    events != [] && (ReopensPending(s, events[0]) || ReopensDuringJob(Next(s, events[0]), events[1..]))
  }

  const NOTHING_YET: System := System(map[], map[], map[], [], [])

  lemma {:induction false} RunStaysInWindow(s: System, events: seq<Event>)
    requires InWindow(s) && StampsTell(s) && IsRun(s, events)
    ensures InWindow(Final(s, events)) && StampsTell(Final(s, events))
    decreases |events|
  {
    hide InWindow, StampsTell, Enabled, Next;
    if events != [] {
      StepKeepsWindow(s, events[0]);
      StepKeepsStamps(s, events[0]);
      RunStaysInWindow(Next(s, events[0]), events[1..]);
    }
  }

  /** Some claim of the run pays an entry that was auto-paid before. */
  ghost predicate RepaysDuring(s: System, events: seq<Event>)
    requires IsRun(s, events)
    decreases |events|
  {
    events != [] &&
    ((events[0].Claim? && Repays(s, events[0].worker)) || RepaysDuring(Next(s, events[0]), events[1..]))
  }

  lemma {:induction false} RunPaidTwice(s: System, events: seq<Event>)
    requires IsRun(s, events) && PaidOnce(Final(s, events))
    ensures PaidOnce(s)
    decreases |events|
  {
    hide PaidOnce, Enabled, Next;
    if events != [] {
      RunPaidTwice(Next(s, events[0]), events[1..]);
      StepKeepsPaidTwice(s, events[0]);
    }
  }

  lemma {:induction false} RunPaysOnce(s: System, events: seq<Event>)
    requires PaidOnce(s) && StampsTell(s) && IsRun(s, events)
    ensures PaidOnce(Final(s, events)) <==> !RepaysDuring(s, events)
    decreases |events|
  {
    hide PaidOnce, StampsTell, Repays, AfterClaim;
    if events != [] {
      var e, t := events[0], Next(s, events[0]);
      StepKeepsPaidTwice(s, e);
      StepKeepsStamps(s, e);
      if e.Claim? {
        ClaimPaysOnceIff(s, e.worker, e.at);
      } else {
        SameMade(s, t);
      }
      hide Enabled, Next;
      if PaidOnce(t) {
        RunPaysOnce(t, events[1..]);
      } else if PaidOnce(Final(t, events[1..])) {
        RunPaidTwice(t, events[1..]);
      }
    }
  }

  lemma SameMade(s: System, t: System)
    requires PaidOnce(s) && s.made == t.made
    ensures PaidOnce(t)
  {
  }

  lemma {:induction false} RepaysOnlyIfReopened(s: System, events: seq<Event>)
    requires NoneReopened(s) && IsRun(s, events) && !ReopensDuringJob(s, events)
    ensures !RepaysDuring(s, events)
    decreases |events|
  {
    hide NoneReopened, Next, ReopensPending, Repays, CanClaim, Lists;
    if events != [] {
      if events[0].Claim? {
        NoneReopenedNoRepay(s, events[0].worker);
      }
      StepKeepsNoneReopened(s, events[0]);
      RepaysOnlyIfReopened(Next(s, events[0]), events[1..]);
    }
  }

  /** In any state a run reaches with no entry auto-paid twice, the next claim keeps it so
      exactly when its entry is not both open and stamped. */
  lemma ClaimPaysTwiceIff(events: seq<Event>, worker: nat, at: real)
    requires IsRun(NOTHING_YET, events) && PaidOnce(Final(NOTHING_YET, events)) && CanClaim(Final(NOTHING_YET, events), worker)
    ensures var s := Final(NOTHING_YET, events);
      var e := s.entries[s.workers[worker].pending[0].entry];
      PaidOnce(AfterClaim(s, worker, at)) <==> !(Claimable(e) && e.autoPaidAt.Some?)
  {
    hide Enabled, Next, IsRun, Final, AfterClaim, PaidOnce;
    RunStaysInWindow(NOTHING_YET, events);
    ClaimPaysOnceIff(Final(NOTHING_YET, events), worker, at);
  }

  /** Over a whole run, whatever the user does and however many jobs overlap, each entry is
      auto-paid at most once exactly when no claim meets an entry that is open and stamped. */
  lemma PaidOnceIff(events: seq<Event>)
    requires IsRun(NOTHING_YET, events)
    ensures PaidOnce(Final(NOTHING_YET, events)) <==> !RepaysDuring(NOTHING_YET, events)
  {
    hide Enabled, Next, IsRun, Final, RepaysDuring;
    RunPaysOnce(NOTHING_YET, events);
  }

  /** In every run, on any days and with any user steps, an entry is auto-paid only on its due
      date or up to three days after it, and the stamps record exactly the entries paid. */
  lemma PaidOnlyInWindow(events: seq<Event>, i: nat)
    requires IsRun(NOTHING_YET, events) && i < |Final(NOTHING_YET, events).made|
    ensures var s := Final(NOTHING_YET, events);
      && 0 <= s.made[i].today - s.made[i].due <= 3
      && (forall id :: id in s.entries ==> (s.entries[id].autoPaidAt.Some? <==> WasMade(s, id)))
  {
    hide Enabled, Next, IsRun, Final, WasMade;
    RunStaysInWindow(NOTHING_YET, events);
    var s := Final(NOTHING_YET, events);
    forall id | id in s.entries && WasMade(s, id)
      ensures s.entries[id].autoPaidAt.Some?
    {
      MadeIsStamped(s, id);
    }
  }

  lemma MadeIsStamped(s: System, id: nat)
    requires StampsTell(s) && WasMade(s, id)
    ensures id in s.entries && s.entries[id].autoPaidAt.Some?
  {
    var i :| 0 <= i < |s.made| && s.made[i].entry == id;
  }

  /** So whatever the user does between jobs, and however many jobs overlap, an entry is
      auto-paid at most once, unless the user reopens it while a job still has it on its list. */
  lemma PaidTwiceOnlyIfReopened(events: seq<Event>, i: nat, j: nat)
    requires IsRun(NOTHING_YET, events) && i < j < |Final(NOTHING_YET, events).made|
    requires var made := Final(NOTHING_YET, events).made; made[i].entry == made[j].entry
    ensures ReopensDuringJob(NOTHING_YET, events)
  {
    hide Enabled, Next, IsRun, Final, RepaysDuring;
    PaidOnceIff(events);
    if !ReopensDuringJob(NOTHING_YET, events) {
      RepaysOnlyIfReopened(NOTHING_YET, events);
    }
  }

  /** When two workers are about to claim the same open entry, the first to claim pays it and
      the second writes nothing. */
  lemma RaceHasOneWinner(s: System, a: nat, b: nat, at: real, later: real)
    requires a != b && CanClaim(s, a) && CanClaim(s, b) && Wins(s, a)
    requires s.workers[a].pending[0].entry == s.workers[b].pending[0].entry
    ensures var t := AfterClaim(s, a, at);
      && |t.made| == |s.made| + 1 && t.entries[s.workers[a].pending[0].entry].status == Paid
      && CanClaim(t, b) && !Wins(t, b)
      && AfterClaim(t, b, later).entries == t.entries && AfterClaim(t, b, later).made == t.made
  {
  }

  lemma {:induction false} FirstThen(s: System, first: Event, rest: seq<Event>, end: System)
    requires Enabled(s, first) && IsRun(Next(s, first), rest) && Final(Next(s, first), rest) == end
    ensures IsRun(s, [first] + rest) && Final(s, [first] + rest) == end
  {
    hide Enabled, Next;
    var events := [first] + rest;
    assert events[0] == first && events[1..] == rest;
  }

  /** The claim does not look at the stamp, so for every bill and entry the query selects, an
      undo between one worker's payment and another worker's claim from an earlier list lets the
      entry be auto-paid twice. */
  lemma UndoDuringJobPaysTwice(bill: Bill, open: Entry, today: Day) returns (events: seq<Event>)
    requires Selected(bill, open, today)
    ensures IsRun(NOTHING_YET, events)
    ensures var made := Final(NOTHING_YET, events).made; |made| == 2 && made[0].entry == made[1].entry
  {
    var item := Item(0, open.due, PayAmount(bill, open).value, bill.payer);
    var bills, entries, worker := map[open.bill := bill], map[0 := open], Worker(today, [item]);
    var s1 := System(bills, map[], map[], [], []);
    var s2 := System(bills, entries, map[], [], []);
    var s3 := System(bills, entries, map[1 := worker], [], []);
    var s4 := System(bills, entries, map[1 := worker, 2 := worker], [], []);
    assert Lists(s2, today, [item]) && Lists(s3, today, [item]) by {
      assert [item][0].entry == 0;
    }
    assert Next(NOTHING_YET, SetBill(open.bill, bill)) == s1;
    assert Next(s1, Create(0, open)) == s2;
    assert Next(s2, Start(1, today, [item])) == s3;
    assert Next(s3, Start(2, today, [item])) == s4;
    var rest := ClaimUndoClaim(s4, today, item);
    var end := Final(s4, rest);
    FirstThen(s3, Start(2, today, [item]), rest, end);
    rest := [Start(2, today, [item])] + rest;
    FirstThen(s2, Start(1, today, [item]), rest, end);
    rest := [Start(1, today, [item])] + rest;
    FirstThen(s1, Create(0, open), rest, end);
    rest := [Create(0, open)] + rest;
    FirstThen(NOTHING_YET, SetBill(open.bill, bill), rest, end);
    events := [SetBill(open.bill, bill)] + rest;
  }

  lemma ClaimUndoClaim(s: System, today: Day, item: Item) returns (events: seq<Event>)
    requires CanClaim(s, 1) && CanClaim(s, 2) && Wins(s, 1) && s.made == []
    requires s.workers[1] == s.workers[2] == Worker(today, [item])
    ensures IsRun(s, events)
    ensures var made := Final(s, events).made; |made| == 2 && made[0].entry == made[1].entry
  {
    var paid := Next(s, Claim(1, 0.0));
    var reopened := Next(paid, Undo(item.entry));
    var end := Next(reopened, Claim(2, 1.0));
    FirstThen(reopened, Claim(2, 1.0), [], end);
    FirstThen(paid, Undo(item.entry), [Claim(2, 1.0)], end);
    events := [Claim(1, 0.0)] + ([Undo(item.entry)] + [Claim(2, 1.0)]);
    FirstThen(s, Claim(1, 0.0), [Undo(item.entry)] + [Claim(2, 1.0)], end);
  }

  // ---- Every payment is of the amount, and from the payer, its job listed ----

  /** On day `today` the tables say that `t` should be paid: its entry is to be paid, and `t` has the
      entry's own amount if it has one, otherwise the bill's, and the bill's payer. */
  predicate Owed(s: System, today: Day, t: Transaction) {
    && t.entry in s.entries && s.entries[t.entry].bill in s.bills
    && var e, b := s.entries[t.entry], s.bills[s.entries[t.entry].bill];
       && ToBePaid(b, e, today) && t.payer == b.payer
       && (e.amount.Some? ==> t.amount == e.amount.value)
       && (e.amount == None ==> b.amount == Some(t.amount))
  }

  /** Some job that starts in the run finds `t` owed on its day. */
  ghost predicate ListedInRun(s: System, events: seq<Event>, t: Transaction)
    requires IsRun(s, events)
    decreases |events|
  {
    events != [] &&
    ((events[0].Start? && Owed(s, events[0].today, t)) || ListedInRun(Next(s, events[0]), events[1..], t))
  }

  /** A job still means to make the payment `t`. */
  ghost predicate ToBeMade(s: System, t: Transaction) {
    exists w, i :: w in s.workers && 0 <= i < |s.workers[w].pending| && PaysAs(s.workers[w].pending[i], t)
  }

  predicate PaysAs(item: Item, t: Transaction) {
    item.entry == t.entry && item.amount == t.amount && item.payer == t.payer
  }

  lemma ListedIsOwed(s: System, today: Day, item: Item, t: Transaction)
    requires Listed(s.bills, s.entries, item, today) && PaysAs(item, t)
    ensures Owed(s, today, t)
  {
  }

  /** A payment a step makes was on a worker's list, and an item a step lists is owed. */
  lemma WhereFrom(s: System, e: Event, t: Transaction)
    requires Enabled(s, e)
    ensures t in Next(s, e).transactions ==> t in s.transactions || ToBeMade(s, t)
    ensures ToBeMade(Next(s, e), t) ==> ToBeMade(s, t) || (e.Start? && Owed(s, e.today, t))
  {
    hide Stamped, Owed, Listed;
    var after := Next(s, e);
    if e.Claim? {
      var w := s.workers[e.worker];
      if t in after.transactions && t !in s.transactions {
        assert PaysAs(w.pending[0], t);
      }
    }
    if ToBeMade(after, t) {
      var w, i :| w in after.workers && 0 <= i < |after.workers[w].pending| && PaysAs(after.workers[w].pending[i], t);
      if e.Start? && e.worker == w {
        ListedIsOwed(s, e.today, e.pending[i], t);
      } else if e.Claim? && e.worker == w {
        assert PaysAs(s.workers[w].pending[i + 1], t);
      } else {
        assert PaysAs(s.workers[w].pending[i], t);
      }
    }
  }

  lemma {:induction false} RunPaysAsListed(s: System, events: seq<Event>, t: Transaction)
    requires IsRun(s, events) && t in Final(s, events).transactions
    ensures t in s.transactions || ToBeMade(s, t) || ListedInRun(s, events, t)
    decreases |events|
  {
    hide Enabled, Next, ToBeMade, Owed;
    if events != [] {
      RunPaysAsListed(Next(s, events[0]), events[1..], t);
      WhereFrom(s, events[0], t);
    }
  }

  /** Over every run each transaction an auto-payment made is of an entry that was to be paid when some
      job of the run started, in the amount the entry had of its own then, or else the bill's. */
  lemma PaidAsListed(events: seq<Event>, t: Transaction)
    requires IsRun(NOTHING_YET, events) && t in Final(NOTHING_YET, events).transactions
    ensures ListedInRun(NOTHING_YET, events, t)
  {
    hide Enabled, Next, Owed;
    RunPaysAsListed(NOTHING_YET, events, t);
  }

  /** Every job of the run is given exactly the entries to be paid on its day, each with its own amount
      if it has one, and otherwise the bill's. */
  ghost predicate ListsAreRight(s: System, events: seq<Event>)
    requires IsRun(s, events)
    decreases |events|
  {
    events != [] ==>
      && (events[0].Start? ==> ListIsRight(s, events[0].today, events[0].pending))
      && ListsAreRight(Next(s, events[0]), events[1..])
  }

  ghost predicate ListIsRight(s: System, today: Day, pending: seq<Item>) {
    && (forall item :: item in pending ==>
          && item.entry in s.entries && s.entries[item.entry].bill in s.bills
          && var e, b := s.entries[item.entry], s.bills[s.entries[item.entry].bill];
             && ToBePaid(b, e, today) && item.due == e.due && item.payer == b.payer
             && (e.amount.Some? ==> item.amount == e.amount.value)
             && (e.amount == None ==> b.amount == Some(item.amount)))
    && (forall id :: id in s.entries && s.entries[id].bill in s.bills
                     && ToBePaid(s.bills[s.entries[id].bill], s.entries[id], today) ==>
          exists item :: item in pending && item.entry == id)
    && (forall i, j :: 0 <= i < j < |pending| ==> pending[i].entry != pending[j].entry)
  }

  lemma ListedIsRight(s: System, today: Day, pending: seq<Item>)
    requires Lists(s, today, pending)
    ensures ListIsRight(s, today, pending)
  {
    forall id | id in s.entries && s.entries[id].bill in s.bills
                && ToBePaid(s.bills[s.entries[id].bill], s.entries[id], today)
      ensures exists item :: item in pending && item.entry == id
    {
      DueMeans(s.bills, s.entries, today, id);
      var i :| 0 <= i < |pending| && pending[i].entry == id;
      assert pending[i] in pending;
    }
  }

  lemma {:induction false} EveryListIsRight(s: System, events: seq<Event>)
    requires IsRun(s, events)
    ensures ListsAreRight(s, events)
    decreases |events|
  {
    hide Next, Lists, ListIsRight;
    if events != [] {
      if events[0].Start? {
        ListedIsRight(s, events[0].today, events[0].pending);
      }
      EveryListIsRight(Next(s, events[0]), events[1..]);
    }
  }
}
