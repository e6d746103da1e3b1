/** The expenses a page keeps in the browser while there is no connection, and the flush that
    replays them to the server. */
module OfflineQueue {
  import opened Options

  /** What a posted transaction is. The form that can be queued always says Spending. */
  datatype Kind = Spending | Income | Transfer

  /** A queued form: its stable id, its kind, the bucket chosen if any, the rest. */
  datatype Expense = Expense(clientId: string, kind: Kind, bucket: Option<string>, details: string)

  /** What `fetch` reports after following redirects. `path` is None if the URL cannot be parsed. */
  datatype Response = Response(status: nat, redirected: bool, path: Option<string>)

  datatype Verdict = Sent | Rejected | Failed

  predicate Ok(r: Response) {
    200 <= r.status < 300
  }

  predicate OwnDestination(path: string) {
    "/buckets/" <= path || path == "/transactions" || "/transactions/" <= path
  }

  /** Did the replayed POST store the expense? */
  predicate ReplaySucceeded(r: Response) {
    Ok(r) && (!r.redirected || (r.path.Some? && OwnDestination(r.path.value)))
  }

  function Judge(r: Response): Verdict {
    if ReplaySucceeded(r) then Sent
    else if 400 <= r.status < 500 && r.status != 403 then Rejected
    else Failed
  }

  /** What a flush makes of an answer: sent is a 2xx not redirected, or redirected to a bucket page or
      to the transactions; rejected is a 4xx other than 403; anything else failed. */
  lemma JudgeMeans(r: Response)
    ensures Judge(r) == Sent <==>
      && 200 <= r.status <= 299
      && (!r.redirected || (r.path.Some? &&
            ("/buckets/" <= r.path.value || r.path.value == "/transactions" || "/transactions/" <= r.path.value)))
    ensures Judge(r) == Rejected <==> 400 <= r.status <= 499 && r.status != 403
  {
  }

  /** One round trip of a flush: an answer, and whether the record could be deleted after it,
      or no answer at all. */
  datatype Exchange = Answered(response: Response, deletes: bool) | Lost

  function Outcome(x: Exchange): Verdict {
    if x.Lost? || !x.deletes then Failed else Judge(x.response)
  }

  /** The records a flush leaves, when record `id` meets `exchange(id)`. */
  function Remaining(records: map<nat, Expense>, exchange: nat -> Exchange): map<nat, Expense> {
    map id | id in records && Outcome(exchange(id)) == Failed :: records[id]
  }

  /** The ids whose exchange ends in `v`. */
  function Tally(ids: set<nat>, exchange: nat -> Exchange, v: Verdict): set<nat> {
    set id | id in ids && Outcome(exchange(id)) == v
  }

  function Named(form: Expense, freshId: string): Expense {
    if form.clientId == "" then form.(clientId := freshId) else form
  }

  class OfflineStore {
    var records: map<nat, Expense>
    var nextId: nat

    /** Keys are handed out in increasing order and never again. */
    predicate Valid()
      reads this
    {
      forall id :: id in records ==> id < nextId
    }

    constructor ()
      ensures Valid() && records == map[]
    {
      records, nextId := map[], 0;
    }

    /** A saved expense always has a client id, and nothing queued before is touched. */
    method Save(form: Expense, freshId: string) returns (id: nat)
      requires Valid() && freshId != ""
      modifies this
      ensures Valid() && id !in old(records)
      ensures records == old(records)[id := Named(form, freshId)]
      ensures records[id] == form.(clientId := if form.clientId == "" then freshId else form.clientId)
      ensures records[id].clientId != "" && nextId > old(nextId)
    {
      id := nextId;
      records := records[id := Named(form, freshId)];
      nextId := nextId + 1;
    }

    /** Every queued id, in key order. */
    method AllPending() returns (ids: seq<nat>)
      requires Valid()
      ensures forall id :: id in ids <==> id in records
      ensures forall i, j :: 0 <= i < j < |ids| ==> ids[i] < ids[j]
    {
      ids := [];
      var k := 0;
      while k < nextId
        invariant k <= nextId
        invariant forall id :: id in ids <==> id in records && id < k
        invariant forall i :: 0 <= i < |ids| ==> ids[i] < k
        invariant forall i, j :: 0 <= i < j < |ids| ==> ids[i] < ids[j]
      {
        if k in records {
          ids := ids + [k];
        }
        k := k + 1;
      }
    }

    method DeletePending(id: nat)
      requires Valid()
      modifies this`records
      ensures Valid() && records == old(records) - {id}
    {
      records := records - {id};
    }

    /** A flush keeps exactly the records whose exchange failed, removes the others, and counts
        every record once under the verdict it met. An unreadable queue is left alone. */
    method Flush(readable: bool, exchange: nat -> Exchange) returns (sent: nat, failed: nat, rejected: nat)
      requires Valid()
      modifies this`records
      ensures Valid()
      ensures !readable ==> records == old(records) && sent == failed == rejected == 0
      ensures readable ==> records == Remaining(old(records), exchange)
      ensures readable ==> sent == |Tally(old(records).Keys, exchange, Sent)|
      ensures readable ==> rejected == |Tally(old(records).Keys, exchange, Rejected)|
      ensures readable ==> failed == |records|
      ensures readable ==>
        sent == |set id | id in old(records) && exchange(id).Answered? && exchange(id).deletes
                          && 200 <= exchange(id).response.status <= 299
                          && (!exchange(id).response.redirected
                              || (exchange(id).response.path.Some?
                                  && ("/buckets/" <= exchange(id).response.path.value
                                      || exchange(id).response.path.value == "/transactions"
                                      || "/transactions/" <= exchange(id).response.path.value)))|
      ensures readable ==>
        rejected == |set id | id in old(records) && exchange(id).Answered? && exchange(id).deletes
                              && 400 <= exchange(id).response.status <= 499 && exchange(id).response.status != 403|
    {
      sent, failed, rejected := 0, 0, 0;
      if !readable {
        return;
      }
      hide Tally, Left, Remaining, Judge;
      var ids := AllPending();
      ghost var done: set<nat> := {};
      NothingFlushed(records, exchange);
      var i := 0;
      while i < |ids|
        invariant 0 <= i <= |ids| && Valid()
        invariant forall id :: id in done <==> id in ids[..i]
        invariant records == Left(old(records), done, exchange)
        invariant sent == |Tally(done, exchange, Sent)|
        invariant rejected == |Tally(done, exchange, Rejected)|
        invariant failed == |Tally(done, exchange, Failed)|
      {
        var id := ids[i];
        OneFlushed(old(records), done, id, exchange);
        match exchange(id) {
          case Answered(response, true) =>
            match Judge(response) {
              case Sent =>
                DeletePending(id);
                sent := sent + 1;
              case Rejected =>
                DeletePending(id);
                rejected := rejected + 1;
              case Failed =>
                failed := failed + 1;
            }
          case Answered(response, false) =>
            failed := failed + 1;
          case Lost =>
            failed := failed + 1;
        }
        done := done + {id};
        i := i + 1;
      }
      assert done == old(records).Keys;
      AllFlushed(old(records), exchange);
      TallyMeans(old(records), exchange);
    }
  }

  /** What is left of `records` once the ids in `done` have been replayed. */
  ghost function Left(records: map<nat, Expense>, done: set<nat>, exchange: nat -> Exchange): map<nat, Expense> {
    map id | id in records && (id in done ==> Outcome(exchange(id)) == Failed) :: records[id]
  }

  lemma NothingFlushed(records: map<nat, Expense>, exchange: nat -> Exchange)
    ensures Left(records, {}, exchange) == records
    ensures forall v :: Tally({}, exchange, v) == {}
  {
  }

  lemma OneFlushed(records: map<nat, Expense>, done: set<nat>, id: nat, exchange: nat -> Exchange)
    requires id in records && id !in done
    ensures Left(records, done + {id}, exchange) ==
      if Outcome(exchange(id)) == Failed then Left(records, done, exchange) else Left(records, done, exchange) - {id}
    ensures forall v ::
      |Tally(done + {id}, exchange, v)| == |Tally(done, exchange, v)| + (if Outcome(exchange(id)) == v then 1 else 0)
  {
    hide Judge, Outcome;
    forall v
      ensures |Tally(done + {id}, exchange, v)| == |Tally(done, exchange, v)| + (if Outcome(exchange(id)) == v then 1 else 0)
    {
      OneTallied(done, id, exchange, v);
    }
    hide Tally;
  }

  lemma OneTallied(done: set<nat>, id: nat, exchange: nat -> Exchange, v: Verdict)
    requires id !in done
    ensures |Tally(done + {id}, exchange, v)| == |Tally(done, exchange, v)| + (if Outcome(exchange(id)) == v then 1 else 0)
  {
    hide Outcome;
    if Outcome(exchange(id)) == v {
      assert Tally(done + {id}, exchange, v) == Tally(done, exchange, v) + {id};
    } else {
      assert Tally(done + {id}, exchange, v) == Tally(done, exchange, v);
    }
  }

  lemma AllFlushed(records: map<nat, Expense>, exchange: nat -> Exchange)
    ensures Left(records, records.Keys, exchange) == Remaining(records, exchange)
    ensures |Tally(records.Keys, exchange, Failed)| == |Remaining(records, exchange)|
  {
    assert Tally(records.Keys, exchange, Failed) == Remaining(records, exchange).Keys;
  }

  /** The tallies, on the answers themselves. */
  lemma TallyMeans(records: map<nat, Expense>, exchange: nat -> Exchange)
    ensures Tally(records.Keys, exchange, Sent) ==
      set id | id in records && exchange(id).Answered? && exchange(id).deletes
               && 200 <= exchange(id).response.status <= 299
               && (!exchange(id).response.redirected
                   || (exchange(id).response.path.Some?
                       && ("/buckets/" <= exchange(id).response.path.value
                           || exchange(id).response.path.value == "/transactions"
                           || "/transactions/" <= exchange(id).response.path.value)))
    ensures Tally(records.Keys, exchange, Rejected) ==
      set id | id in records && exchange(id).Answered? && exchange(id).deletes
               && 400 <= exchange(id).response.status <= 499 && exchange(id).response.status != 403
  {
    forall id: nat
      ensures Outcome(exchange(id)) == Sent <==>
        exchange(id).Answered? && exchange(id).deletes && Judge(exchange(id).response) == Sent
      ensures Outcome(exchange(id)) == Rejected <==>
        exchange(id).Answered? && exchange(id).deletes && Judge(exchange(id).response) == Rejected
    {
      if exchange(id).Answered? {
        JudgeMeans(exchange(id).response);
      }
    }
  }

  /** Every queued record is counted exactly once. */
  lemma FlushCountsEveryRecord(records: map<nat, Expense>, exchange: nat -> Exchange)
    ensures |Tally(records.Keys, exchange, Sent)| + |Tally(records.Keys, exchange, Rejected)|
            + |Remaining(records, exchange)| == |records|
  {
    var s, r := Tally(records.Keys, exchange, Sent), Tally(records.Keys, exchange, Rejected);
    var f := Remaining(records, exchange).Keys;
    assert s !! r && (s + r) !! f;
    assert s + r + f == records.Keys;
    assert |s + r + f| == |s| + |r| + |f|;
    assert |records.Keys| == |records| && |f| == |Remaining(records, exchange)|;
  }
}
