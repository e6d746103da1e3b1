/** The entries of recurring bills and the daily job that pays the ones that have come due. */
module AutoPay {
  import opened Options
  import opened CivilCalendar

  const AUTO_PAY_WINDOW_DAYS := 3

  datatype Status = Unpaid | Paid | Skipped

  /** `payer` is who the bill's payer mode credits: nobody when each pays their own share. */
  datatype Bill = Bill(
    isAutoPay: bool,
    isActive: bool,
    outgoing: bool,
    amount: Option<int>,
    bucket: Option<string>,
    payer: Option<string>)

  datatype Entry = Entry(
    bill: nat,
    due: Day,
    amount: Option<int>,
    status: Status,
    paidAt: Option<real>,
    paidBy: Option<string>,
    transaction: Option<nat>,
    autoPaidAt: Option<real>)

  datatype Transaction = Transaction(entry: nat, amount: int, payer: Option<string>, bucket: string)

  /** The condition of the claiming update. */
  predicate Claimable(e: Entry) {
    e.status == Unpaid && e.transaction == None
  }

  predicate InPayWindow(due: Day, today: Day) {
    due <= today <= due + AUTO_PAY_WINDOW_DAYS
  }

  function PayAmount(b: Bill, e: Entry): Option<int> {
    if e.amount.Some? then e.amount else b.amount
  }

  /** What the job's query selects. */
  predicate Selected(b: Bill, e: Entry, today: Day) {
    && Claimable(e) && InPayWindow(e.due, today) && e.autoPaidAt == None
    && b.isAutoPay && b.isActive && b.outgoing && (b.amount.Some? || e.amount.Some?)
  }

  /** An item of the list the job makes before it pays anything. */
  datatype Item = Item(entry: nat, due: Day, amount: int, payer: Option<string>)

  class Ledger {
    var bills: map<nat, Bill>
    var entries: map<nat, Entry>
    var transactions: seq<Transaction>

    ghost predicate Valid()
      reads this
    {
      && (forall id :: id in entries ==> entries[id].bill in bills)
      && (forall id :: id in entries && entries[id].transaction.Some? ==> entries[id].transaction.value < |transactions|)
    }

    /** Today's query over the table's ids, with what will be paid for each entry it selects. */
    method Snapshot(ids: seq<nat>, today: Day) returns (pending: seq<Item>)
      requires Valid() && forall i, j :: 0 <= i < j < |ids| ==> ids[i] != ids[j]
      requires forall id :: id in ids <==> id in entries
      ensures forall i :: 0 <= i < |pending| ==> Listed(bills, entries, pending[i], today)
      ensures forall i, j :: 0 <= i < j < |pending| ==> pending[i].entry != pending[j].entry
      ensures forall id :: id in DueIds(bills, entries, today) <==> exists i :: 0 <= i < |pending| && pending[i].entry == id
      ensures forall item :: item in pending ==>
        && item.entry in entries
        && var e, b := entries[item.entry], bills[entries[item.entry].bill];
           && ToBePaid(b, e, today) && item.due == e.due && item.payer == b.payer
           && (e.amount.Some? ==> item.amount == e.amount.value)
           && (e.amount == None ==> b.amount == Some(item.amount))
    {
      pending := [];
      var k := 0;
      while k < |ids|
        invariant 0 <= k <= |ids|
        invariant forall i :: 0 <= i < |pending| ==> Listed(bills, entries, pending[i], today) && pending[i].entry in ids[..k]
        invariant forall i, j :: 0 <= i < j < |pending| ==> pending[i].entry != pending[j].entry
        invariant forall id :: id in ids[..k] && id in DueIds(bills, entries, today) ==>
          exists i :: 0 <= i < |pending| && pending[i].entry == id
      {
        var id := ids[k];
        var e := entries[id];
        if Selected(bills[e.bill], e, today) {
          ghost var before := pending;
          pending := pending + [Item(id, e.due, PayAmount(bills[e.bill], e).value, bills[e.bill].payer)];
          assert pending[|before|].entry == id;
          assert forall i :: 0 <= i < |before| ==> pending[i] == before[i];
        }
        k := k + 1;
      }
    }

    /** The atomic claim: turns an unpaid, unlinked entry into a paid one, with the time and the
        payer, or changes nothing. */
    method ClaimOccurrence(id: nat, paidBy: Option<string>, paidOn: real) returns (claimed: bool)
      requires Valid() && id in entries
      modifies this`entries
      ensures Valid()
      ensures claimed <==> old(entries[id]).status == Unpaid && old(entries[id]).transaction == None
      ensures entries ==
        if claimed then old(entries)[id := old(entries[id]).(status := Paid, paidAt := Some(paidOn), paidBy := paidBy)]
        else old(entries)
    {
      claimed := entries[id].status == Unpaid && entries[id].transaction == None;
      if claimed {
        entries := entries[id := entries[id].(status := Paid, paidAt := Some(paidOn), paidBy := paidBy)];
      }
    }

    /** Pays a bill with a bucket by a transaction of its own; a bill without one is only claimed. */
    method SettleOccurrence(item: Item, paidOn: real) returns (settled: bool)
      requires Valid() && item.entry in entries
      modifies this`entries, this`transactions
      ensures Valid()
      ensures settled == Claimable(old(entries[item.entry]))
      ensures !settled ==> entries == old(entries) && transactions == old(transactions)
      ensures settled ==>
        var bucket := bills[old(entries[item.entry]).bill].bucket;
        && entries == old(entries)[item.entry := Settled(old(entries[item.entry]), item, bucket, |old(transactions)|, paidOn)]
        && transactions == old(transactions) + Payment(item, bucket)
    {
      settled := ClaimOccurrence(item.entry, item.payer, paidOn);
      if settled {
        var bucket := bills[entries[item.entry].bill].bucket;
        if bucket.Some? {
          entries := entries[item.entry := entries[item.entry].(transaction := Some(|transactions|))];
          transactions := transactions + [Transaction(item.entry, item.amount, item.payer, bucket.value)];
        }
      }
    }

    /** One item of the list: claim, payment and stamp, committed together. */
    method PayItem(item: Item, paidOn: real) returns (paid: bool)
      requires Valid() && item.entry in entries
      modifies this`entries, this`transactions
      ensures Valid()
      ensures paid == Claimable(old(entries[item.entry]))
      ensures !paid ==> entries == old(entries) && transactions == old(transactions)
      ensures paid ==>
        var bucket := bills[old(entries[item.entry]).bill].bucket;
        && entries == Stamped(old(entries), item, bucket, |old(transactions)|, paidOn)
        && transactions == old(transactions) + Payment(item, bucket)
    {
      paid := SettleOccurrence(item, paidOn);
      if paid {
        entries := entries[item.entry := entries[item.entry].(autoPaidAt := Some(paidOn))];
      }
    }
  }

  function Claimed(e: Entry, paidBy: Option<string>, paidOn: real): Entry {
    e.(status := Paid, paidAt := Some(paidOn), paidBy := paidBy)
  }

  /** The entry after its payment; `next` is the number a new transaction would get. */
  function Settled(e: Entry, item: Item, bucket: Option<string>, next: nat, paidOn: real): Entry {
    Claimed(e, item.payer, paidOn).(transaction := if bucket.Some? then Some(next) else e.transaction)
  }

  function Stamped(entries: map<nat, Entry>, item: Item, bucket: Option<string>, next: nat, paidOn: real): map<nat, Entry>
    requires item.entry in entries
  {
    entries[item.entry := Settled(entries[item.entry], item, bucket, next, paidOn).(autoPaidAt := Some(paidOn))]
  }

  function Payment(item: Item, bucket: Option<string>): seq<Transaction> {
    if bucket.Some? then [Transaction(item.entry, item.amount, item.payer, bucket.value)] else []
  }

  /** The amount to pay: the entry's own if it has one, and otherwise the bill's. */
  predicate IsAmountFor(b: Bill, e: Entry, amount: int) {
    (e.amount.Some? ==> amount == e.amount.value) && (e.amount == None ==> b.amount == Some(amount))
  }

  /** `after` is `before` auto-paid at `now`: stamped, and linked to a transaction added since
      number `from` that is its own. */
  predicate AutoPaid(id: nat, before: Entry, after: Entry, b: Bill, transactions: seq<Transaction>, from: nat, now: real) {
    && after == Claimed(before, b.payer, now).(autoPaidAt := Some(now), transaction := after.transaction)
    && (b.bucket == None ==> after.transaction == None)
    && (b.bucket.Some? ==>
          && after.transaction.Some? && from <= after.transaction.value < |transactions|
          && IsAmountFor(b, before, transactions[after.transaction.value].amount)
          && transactions[after.transaction.value].entry == id
          && transactions[after.transaction.value].payer == b.payer
          && transactions[after.transaction.value].bucket == b.bucket.value)
  }

  /** An item of the list, as the query saw its entry. */
  predicate Listed(bills: map<nat, Bill>, entries: map<nat, Entry>, item: Item, today: Day) {
    && item.entry in entries && entries[item.entry].bill in bills
    && var e := entries[item.entry];
       && Selected(bills[e.bill], e, today) && item.due == e.due
       && IsAmountFor(bills[e.bill], e, item.amount) && item.payer == bills[e.bill].payer
  }

  lemma ListedIsClaimable(bills: map<nat, Bill>, entries: map<nat, Entry>, item: Item, today: Day)
    requires Listed(bills, entries, item, today)
    ensures item.entry in entries && entries[item.entry].bill in bills && Claimable(entries[item.entry])
    ensures IsAmountFor(bills[entries[item.entry].bill], entries[item.entry], item.amount)
    ensures item.payer == bills[entries[item.entry].bill].payer
  {
  }

  function DueIds(bills: map<nat, Bill>, entries: map<nat, Entry>, today: Day): set<nat> {
    set id | id in entries && entries[id].bill in bills && Selected(bills[entries[id].bill], entries[id], today)
  }

  ghost function WithBucket(bills: map<nat, Bill>, entries: map<nat, Entry>, ids: set<nat>): set<nat> {
    set id | id in ids && id in entries && entries[id].bill in bills && bills[entries[id].bill].bucket.Some?
  }

  lemma WithBucketGrows(bills: map<nat, Bill>, entries: map<nat, Entry>, ids: set<nat>, id: nat)
    requires id !in ids && id in entries && entries[id].bill in bills
    ensures |WithBucket(bills, entries, ids + {id})|
         == |WithBucket(bills, entries, ids)| + (if bills[entries[id].bill].bucket.Some? then 1 else 0)
  {
    if bills[entries[id].bill].bucket.Some? {
      assert WithBucket(bills, entries, ids + {id}) == WithBucket(bills, entries, ids) + {id};
    } else {
      assert WithBucket(bills, entries, ids + {id}) == WithBucket(bills, entries, ids);
    }
  }

  /** The tables once the ids in `done` have been auto-paid and nothing else. */
  ghost predicate PaidSoFar(bills: map<nat, Bill>, was: map<nat, Entry>, before: seq<Transaction>,
                            entries: map<nat, Entry>, transactions: seq<Transaction>, done: set<nat>, now: nat -> real)
  {
    && entries.Keys == was.Keys
    && before <= transactions
    && |transactions| == |before| + |WithBucket(bills, was, done)|
    && (forall id :: id in was ==> was[id].bill in bills)
    && (forall id :: id in entries ==>
          if id in done
          then AutoPaid(id, was[id], entries[id], bills[was[id].bill], transactions, |before|, now(id))
          else entries[id] == was[id])
  }

  lemma NothingPaid(bills: map<nat, Bill>, was: map<nat, Entry>, before: seq<Transaction>, now: nat -> real)
    requires forall id :: id in was ==> was[id].bill in bills
    ensures PaidSoFar(bills, was, before, was, before, {}, now)
  {
    assert WithBucket(bills, was, {}) == {};
  }

  lemma StillUnpaid(bills: map<nat, Bill>, was: map<nat, Entry>, before: seq<Transaction>,
                    entries: map<nat, Entry>, transactions: seq<Transaction>, done: set<nat>, now: nat -> real, id: nat)
    requires PaidSoFar(bills, was, before, entries, transactions, done, now)
    requires id in was && id !in done
    ensures id in entries && entries[id] == was[id]
  {
  }

  lemma PaysOneMore(bills: map<nat, Bill>, was: map<nat, Entry>, before: seq<Transaction>,
                    entries: map<nat, Entry>, transactions: seq<Transaction>, done: set<nat>, now: nat -> real, item: Item)
    requires PaidSoFar(bills, was, before, entries, transactions, done, now)
    requires item.entry in was && item.entry !in done && was[item.entry].bill in bills && Claimable(was[item.entry])
    requires var b := bills[was[item.entry].bill]; IsAmountFor(b, was[item.entry], item.amount) && b.payer == item.payer
    ensures item.entry in entries && entries[item.entry] == was[item.entry]
    ensures var bucket := bills[was[item.entry].bill].bucket;
      PaidSoFar(bills, was, before, Stamped(entries, item, bucket, |transactions|, now(item.entry)),
                transactions + Payment(item, bucket), done + {item.entry}, now)
  {
    WithBucketGrows(bills, was, done, item.entry);
    hide WithBucket, IsAmountFor;
  }

  lemma AllPaid(bills: map<nat, Bill>, was: map<nat, Entry>, before: seq<Transaction>,
                entries: map<nat, Entry>, transactions: seq<Transaction>, done: set<nat>, now: nat -> real)
    requires PaidSoFar(bills, was, before, entries, transactions, done, now)
    ensures entries.Keys == was.Keys && before <= transactions
    ensures forall id :: id in was ==> was[id].bill in bills
    ensures |transactions| == |before| + |WithBucket(bills, was, done)|
    ensures forall id :: id in entries ==>
      if id in done
      then AutoPaid(id, was[id], entries[id], bills[was[id].bill], transactions, |before|, now(id))
      else entries[id] == was[id]
  {
    hide AutoPaid, WithBucket;
  }

  /** Unpaid and unlinked, due today or up to three days ago, never auto-paid, of an active outgoing bill
      with auto-pay, and with an amount of its own or the bill's. */
  predicate ToBePaid(b: Bill, e: Entry, today: Day) {
    && e.status == Unpaid && e.transaction == None && e.autoPaidAt == None && e.due <= today <= e.due + 3
    && b.isAutoPay && b.isActive && b.outgoing && (e.amount.Some? || b.amount.Some?)
  }

  lemma DueMeans(bills: map<nat, Bill>, entries: map<nat, Entry>, today: Day, id: nat)
    ensures id in DueIds(bills, entries, today) <==>
      id in entries && entries[id].bill in bills && ToBePaid(bills[entries[id].bill], entries[id], today)
  {
  }
}
