/** A flush inside a run of the whole system: what one window's steps do to the queue is what the
    flush loop does with the answers that window got. */
module OfflineFlush {
  import opened Options
  import opened OfflineQueue
  import opened OfflineReplay

  function ResponseTo(s: System, request: nat): Option<Response> {
    if request in s.requests && s.requests[request].stage.Replied?
    then Some(s.requests[request].stage.response) else None
  }

  /** The exchange a step of window `w` brings to its end, under the id of its record. */
  function Settled(home: map<string, string>, s: System, e: Event, w: nat): map<nat, Exchange>
    requires Enabled(home, s, e)
  {
    match e
    case Receive(window) =>
      var response := s.requests[s.windows[window].wait.request].stage.response;
      if window == w && Judge(response) == Failed then map[s.windows[w].todo[0] := Answered(response, true)] else map[]
    case GiveUp(window) => if window == w then map[s.windows[w].todo[0] := Lost] else map[]
    case Remove(window) => if window == w then AfterAnswer(s, w, true) else map[]
    case RemoveFails(window) => if window == w then AfterAnswer(s, w, false) else map[]
    case _ => map[]
  }

  function AfterAnswer(s: System, w: nat, deletes: bool): map<nat, Exchange>
    requires w in s.windows && s.windows[w].wait.Removing? && s.windows[w].todo != []
  {
    var response := ResponseTo(s, s.windows[w].wait.request);
    if response.Some? then map[s.windows[w].todo[0] := Answered(response.value, deletes)] else map[]
  }

  /** All exchanges of window `w` in a run. */
  ghost function Exchanges(home: map<string, string>, s: System, events: seq<Event>, w: nat): map<nat, Exchange>
    requires IsRun(home, s, events)
    decreases |events|
  {
    if events == [] then map[]
    else Exchanges(home, Next(home, s, events[0]), events[1..], w) + Settled(home, s, events[0], w)
  }

  /** Meanwhile nothing is saved, no other window takes a record off the queue, and `w` stays open. */
  predicate LeavesAlone(e: Event, w: nat) {
    !e.Save? && (e.Remove? ==> e.window == w) && (e.Begin? || e.Close? ==> e.window != w)
  }

  predicate Distinct(ids: seq<nat>) {
    forall i, j :: 0 <= i < j < |ids| ==> ids[i] != ids[j]
  }

  /** The step brings the exchange of the window's first record to its end. */
  predicate Ends(home: map<string, string>, s: System, e: Event, w: nat)
    requires Enabled(home, s, e)
  {
    match e
    case Receive(window) => window == w && Judge(s.requests[s.windows[w].wait.request].stage.response) == Failed
    case GiveUp(window) => window == w
    case Remove(window) => window == w
    case RemoveFails(window) => window == w
    case _ => false
  }

  lemma ListAfter(home: map<string, string>, s: System, e: Event, w: nat)
    requires Enabled(home, s, e) && w in s.windows && LeavesAlone(e, w)
    ensures w in Next(home, s, e).windows
    ensures Ends(home, s, e, w) ==> s.windows[w].todo != [] && Next(home, s, e).windows[w].todo == s.windows[w].todo[1..]
    ensures !Ends(home, s, e, w) ==> Next(home, s, e).windows[w].todo == s.windows[w].todo
  {
    hide Has, Find, Possible, CanLand, BucketAccepted, Replay, Landed, Refused, Judge;
  }

  lemma SettledAfter(home: map<string, string>, s: System, e: Event, w: nat)
    requires WindowsSound(s) && Enabled(home, s, e) && w in s.windows
    ensures !Ends(home, s, e, w) ==> Settled(home, s, e, w) == map[]
    ensures Ends(home, s, e, w) ==>
      && s.windows[w].todo != [] && Settled(home, s, e, w).Keys == {s.windows[w].todo[0]}
      && (Outcome(Settled(home, s, e, w)[s.windows[w].todo[0]]) == Failed <==> !e.Remove?)
  {
    hide Has, Find, Possible, CanLand, BucketAccepted, Replay, Landed, Refused, Judge;
    assert WindowSound(s, s.windows[w]);
  }

  /** A step either leaves the window's list and the queue, or settles its first record. */
  lemma StepSettles(home: map<string, string>, s: System, e: Event, w: nat)
    requires Invariant(home, s) && Enabled(home, s, e) && w in s.windows && LeavesAlone(e, w)
    ensures w in Next(home, s, e).windows
    ensures var t, x, todo := Next(home, s, e), Settled(home, s, e, w), s.windows[w].todo;
      if Ends(home, s, e, w) then
        && todo != [] && t.windows[w].todo == todo[1..] && x.Keys == {todo[0]}
        && t.queue == if Outcome(x[todo[0]]) == Failed then s.queue else s.queue - {todo[0]}
      else x == map[] && t.windows[w].todo == todo && t.queue == s.queue
  {
    ListAfter(home, s, e, w);
    SettledAfter(home, s, e, w);
    SavedAfter(home, s, e);
    hide Next, Enabled, Settled, Invariant, Outcome;
  }

  /** What is left of a queue once the records on the list have been exchanged. */
  function LeftOf(queue: map<nat, Expense>, todo: seq<nat>, x: map<nat, Exchange>): map<nat, Expense> {
    map id | id in queue && (id in todo && id in x ==> Outcome(x[id]) == Failed) :: queue[id]
  }

  ghost predicate Covers(x: map<nat, Exchange>, todo: seq<nat>) {
    forall id :: id in x <==> id in todo
  }

  lemma OneMoreSettled(queue: map<nat, Expense>, todo: seq<nat>, now: map<nat, Exchange>, later: map<nat, Exchange>)
    requires todo != [] && Distinct(todo) && now.Keys == {todo[0]} && Covers(later, todo[1..])
    ensures Distinct(todo[1..]) && Covers(later + now, todo)
    ensures var rest := if Outcome(now[todo[0]]) == Failed then queue else queue - {todo[0]};
      LeftOf(rest, todo[1..], later) == LeftOf(queue, todo, later + now)
  {
    hide Outcome;
    assert todo == [todo[0]] + todo[1..];
    assert forall id :: id in todo <==> id == todo[0] || id in todo[1..];
    assert todo[0] !in todo[1..];
  }

  lemma DistinctRest(todo: seq<nat>)
    requires Distinct(todo) && todo != []
    ensures Distinct(todo[1..])
  {
  }

  /** When the window has come to the end of its list, every record on it has met one exchange, and
      the queue has lost exactly those whose exchange did not fail. */
  lemma {:induction false} FlushSettles(home: map<string, string>, s: System, events: seq<Event>, w: nat)
    requires Invariant(home, s) && IsRun(home, s, events) && w in s.windows && Distinct(s.windows[w].todo)
    requires forall e :: e in events ==> LeavesAlone(e, w)
    ensures w in Final(home, s, events).windows
    ensures Final(home, s, events).windows[w].todo == [] ==>
      && Covers(Exchanges(home, s, events, w), s.windows[w].todo)
      && Final(home, s, events).queue == LeftOf(s.queue, s.windows[w].todo, Exchanges(home, s, events, w))
    decreases |events|
  {
    hide Invariant, Enabled, Next, Settled, Outcome, LeavesAlone, Ends, Distinct, Covers, LeftOf;
    if events == [] {
      NothingLeft(s.queue);
    } else {
      var e, t := events[0], Next(home, s, events[0]);
      assert e in events && forall x :: x in events[1..] ==> x in events;
      StepSettles(home, s, e, w);
      StepKeepsInvariant(home, s, e);
      var todo, now := s.windows[w].todo, Settled(home, s, e, w);
      var later := Exchanges(home, t, events[1..], w);
      if Ends(home, s, e, w) {
        DistinctRest(todo);
        FlushSettles(home, t, events[1..], w);
        if Covers(later, todo[1..]) {
          OneMoreSettled(s.queue, todo, now, later);
        }
      } else {
        FlushSettles(home, t, events[1..], w);
        assert later + now == later;
      }
    }
  }

  lemma NothingLeft(queue: map<nat, Expense>)
    ensures Covers(map[], []) && LeftOf(queue, [], map[]) == queue
  {
  }

  lemma OrderIsDistinct(order: seq<nat>, ids: set<nat>)
    requires multiset(order) == multiset(ids)
    ensures Distinct(order) && forall id :: id in order <==> id in ids
  {
    forall i, j | 0 <= i < j < |order|
      ensures order[i] != order[j]
    {
      var first, second := order[..j], order[j..];
      assert order == first + second && first[i] == order[i] && second[0] == order[j];
      assert multiset(first)[order[i]] > 0 && multiset(second)[order[j]] > 0;
      assert multiset(ids)[order[i]] <= 1;
    }
    forall id
      ensures id in order <==> id in ids
    {
      assert id in order <==> multiset(order)[id] > 0;
    }
  }

  /** The answers a window got, as the flush loop takes them. */
  function AsLoop(x: map<nat, Exchange>): nat -> Exchange {
    (id: nat) => if id in x then x[id] else Lost
  }

  lemma LeftIsRemaining(queue: map<nat, Expense>, order: seq<nat>, x: map<nat, Exchange>)
    requires Covers(x, order) && forall id :: id in order <==> id in queue.Keys
    ensures (forall id :: id in x <==> id in queue) && LeftOf(queue, order, x) == Remaining(queue, AsLoop(x))
  {
    hide Outcome;
  }

  lemma Begun(home: map<string, string>, s: System, w: nat, order: seq<nat>)
    requires Enabled(home, s, Begin(w, order))
    ensures var t := Next(home, s, Begin(w, order));
      w in t.windows && t.windows[w] == Window(order, Ready) && t.queue == s.queue
    ensures Distinct(order) && forall id :: id in order <==> id in s.queue.Keys
  {
    OrderIsDistinct(order, s.queue.Keys);
  }

  /** In any run, a window that flushes the queue to the end with nothing saved and no other window
      removing meanwhile leaves exactly what the flush loop leaves, given the answers it got. */
  lemma SoloFlushIsTheLoop(home: map<string, string>, s: System, w: nat, order: seq<nat>, events: seq<Event>)
    requires Invariant(home, s) && Enabled(home, s, Begin(w, order)) && IsRun(home, Next(home, s, Begin(w, order)), events)
    requires forall e :: e in events ==> LeavesAlone(e, w)
    ensures var t := Next(home, s, Begin(w, order));
      && w in Final(home, t, events).windows
      && (Final(home, t, events).windows[w].todo == [] ==>
            && (forall id :: id in Exchanges(home, t, events, w) <==> id in s.queue)
            && Final(home, t, events).queue == Remaining(s.queue, AsLoop(Exchanges(home, t, events, w))))
  {
    hide *;
    var t := Next(home, s, Begin(w, order));
    Begun(home, s, w, order);
    StepKeepsInvariant(home, s, Begin(w, order));
    FlushSettles(home, t, events, w);
    if Final(home, t, events).windows[w].todo == [] {
      LeftIsRemaining(s.queue, order, Exchanges(home, t, events, w));
    }
  }

  // ---- What a flush sends leaves the queue ----

  /** Window `w` is waiting to take the record `id` off the queue. */
  predicate AboutToRemove(s: System, w: nat, id: nat) {
    w in s.windows && s.windows[w].wait.Removing? && s.windows[w].todo != [] && s.windows[w].todo[0] == id
  }

  lemma StaysAboutToRemove(home: map<string, string>, s: System, e: Event, w: nat, id: nat)
    requires Enabled(home, s, e) && LeavesAlone(e, w) && e != RemoveFails(w) && AboutToRemove(s, w, id)
    ensures e == Remove(w) ==> id !in Next(home, s, e).queue
    ensures e != Remove(w) ==> AboutToRemove(Next(home, s, e), w, id)
  {
    hide Has, Find, Possible, CanLand, BucketAccepted, Replay, Landed, Refused, Judge;
  }

  lemma {:induction false} OffTheQueueStaysOff(home: map<string, string>, s: System, events: seq<Event>, id: nat)
    requires IsRun(home, s, events) && id !in s.queue && forall e :: e in events ==> !e.Save?
    ensures id !in Final(home, s, events).queue
    decreases |events|
  {
    hide Enabled, Next;
    if events != [] {
      assert events[0] in events && forall x :: x in events[1..] ==> x in events;
      SavedAfter(home, s, events[0]);
      OffTheQueueStaysOff(home, Next(home, s, events[0]), events[1..], id);
    }
  }

  lemma {:induction false} RemovedInTheEnd(home: map<string, string>, s: System, events: seq<Event>, w: nat, id: nat)
    requires IsRun(home, s, events) && AboutToRemove(s, w, id)
    requires forall e :: e in events ==> LeavesAlone(e, w) && e != RemoveFails(w)
    requires w in Final(home, s, events).windows && Final(home, s, events).windows[w].todo == []
    ensures id !in Final(home, s, events).queue
    decreases |events|
  {
    hide Enabled, Next;
    if events == [] {
      assert false;
    } else {
      var e := events[0];
      assert e in events && forall x :: x in events[1..] ==> x in events;
      StaysAboutToRemove(home, s, e, w, id);
      if e == Remove(w) {
        OffTheQueueStaysOff(home, Next(home, s, e), events[1..], id);
      } else {
        RemovedInTheEnd(home, Next(home, s, e), events[1..], w, id);
      }
    }
  }

  /** A window that flushes the queue to the end, with nothing saved and no other window removing
      meanwhile, takes off the queue every record for which it receives the page of a stored expense,
      if the browser can delete records. */
  lemma StoredLeavesTheQueue(home: map<string, string>, s: System, events: seq<Event>, w: nat,
                             bucket: Option<string>, status: nat)
    requires events != [] && events[0] == Receive(w) && IsRun(home, s, events)
    requires forall e :: e in events ==> LeavesAlone(e, w) && e != RemoveFails(w)
    requires w in Final(home, s, events).windows && Final(home, s, events).windows[w].todo == []
    requires 200 <= status <= 299
    requires s.requests[s.windows[w].wait.request].stage.response == Landed(bucket, Shown(status))
    ensures s.windows[w].todo[0] !in Final(home, s, events).queue
  {
    OwnPageIsSuccess(bucket, Shown(status));
    hide Judge, Landed, Has, Find, Possible, CanLand, BucketAccepted, Replay, Refused;
    assert forall x :: x in events[1..] ==> x in events;
    assert AboutToRemove(Next(home, s, events[0]), w, s.windows[w].todo[0]);
    RemovedInTheEnd(home, Next(home, s, events[0]), events[1..], w, s.windows[w].todo[0]);
  }

  // ---- With nothing in its way a flush empties the queue ----

  /** Nothing is refused, lost or deleted, every redirect ends on the expense's own page, the browser
      can delete records, and window `w` flushes alone. */
  predicate GoesWell(e: Event, w: nat) {
    && LeavesAlone(e, w) && e != GiveUp(w) && e != RemoveFails(w) && !e.Refuse? && !e.Crash?
    && (e.LookUp? || e.Insert? ==> e.landing.Shown? && 200 <= e.landing.status <= 299)
    && (e.MarkDeleted? ==> !e.deleted)
  }

  ghost predicate NoneDeleted(rows: seq<Row>) {
    RowsUnique(rows) && forall i :: 0 <= i < |rows| ==> !rows[i].deleted
  }

  /** The requests not in `stale` that have their answers have good ones. */
  ghost predicate AnswersGood(s: System, stale: set<nat>) {
    && (forall r :: r in stale ==> r in s.requests)
    && forall r :: r in s.requests && r !in stale && s.requests[r].stage.Replied? ==>
         Judge(s.requests[r].stage.response) == Sent
  }

  /** The window waits for no stale request, and whatever is queued is on its list. */
  predicate ListsQueue(s: System, w: nat, stale: set<nat>) {
    && w in s.windows
    && (!s.windows[w].wait.Ready? ==> s.windows[w].wait.request !in stale)
    && forall id :: id in s.queue ==> id in s.windows[w].todo
  }

  lemma RowsStayUndeleted(home: map<string, string>, s: System, e: Event, w: nat)
    requires Enabled(home, s, e) && GoesWell(e, w) && NoneDeleted(s.rows)
    ensures NoneDeleted(Next(home, s, e).rows)
  {
    StepKeepsRows(home, s, e);
    hide Has, Find, Possible, CanLand, BucketAccepted, Replay, Landed, Refused, Judge, RowsUnique;
  }

  lemma AnswerIsGood(home: map<string, string>, s: System, e: Event, w: nat, r: nat)
    requires Enabled(home, s, e) && GoesWell(e, w) && NoneDeleted(s.rows) && Concerns(e, r)
    ensures r in Next(home, s, e).requests
    ensures var stage := Next(home, s, e).requests[r].stage; stage.Replied? ==> Judge(stage.response) == Sent
  {
    hide Has, Find, Possible, CanLand, BucketAccepted, Replay, Landed, Refused, Judge, RowsUnique;
    match e
    case Send(_, _) =>
    case LookUp(_, household, landing) => AnswerToRecognised(home, s, r, household, landing);
    case Insert(_, landing) => AnswerToStored(home, s, r, landing);
    case _ =>
  }

  lemma AnswersStayGood(home: map<string, string>, s: System, e: Event, w: nat, stale: set<nat>)
    requires Enabled(home, s, e) && GoesWell(e, w) && NoneDeleted(s.rows) && AnswersGood(s, stale)
    ensures AnswersGood(Next(home, s, e), stale)
  {
    hide Next, Enabled, GoesWell, NoneDeleted, Judge, Concerns;
    var t := Next(home, s, e);
    forall r
      ensures r in s.requests ==> r in t.requests
      ensures r in t.requests && r !in stale && t.requests[r].stage.Replied? ==> Judge(t.requests[r].stage.response) == Sent
    {
      RequestsAfter(home, s, e, r);
      if Concerns(e, r) {
        AnswerIsGood(home, s, e, w, r);
      }
    }
  }

  lemma ListStillCovers(home: map<string, string>, s: System, e: Event, w: nat, stale: set<nat>)
    requires Enabled(home, s, e) && GoesWell(e, w) && AnswersGood(s, stale) && ListsQueue(s, w, stale)
    ensures ListsQueue(Next(home, s, e), w, stale)
  {
    hide Has, Find, Possible, CanLand, BucketAccepted, Replay, Landed, Refused, Judge;
    SavedAfter(home, s, e);
    ListAfter(home, s, e, w);
    var todo := s.windows[w].todo;
    if e == Remove(w) {
      assert todo == [todo[0]] + todo[1..];
    }
  }

  lemma {:induction false} GoodRun(home: map<string, string>, s: System, events: seq<Event>, w: nat, stale: set<nat>)
    requires IsRun(home, s, events) && forall e :: e in events ==> GoesWell(e, w)
    requires NoneDeleted(s.rows) && AnswersGood(s, stale) && ListsQueue(s, w, stale)
    ensures ListsQueue(Final(home, s, events), w, stale)
    decreases |events|
  {
    hide Enabled, Next, GoesWell, NoneDeleted, AnswersGood, ListsQueue;
    if events != [] {
      var e := events[0];
      assert e in events && forall x :: x in events[1..] ==> x in events;
      RowsStayUndeleted(home, s, e, w);
      AnswersStayGood(home, s, e, w, stale);
      ListStillCovers(home, s, e, w, stale);
      GoodRun(home, Next(home, s, e), events[1..], w, stale);
    }
  }

  /** From any state in which no stored transaction is deleted, a flush in which all goes well and that
      comes to the end of its list leaves the queue empty. */
  lemma GoodFlushEmptiesTheQueue(home: map<string, string>, s: System, w: nat, order: seq<nat>, events: seq<Event>)
    requires NoneDeleted(s.rows) && Enabled(home, s, Begin(w, order))
    requires IsRun(home, Next(home, s, Begin(w, order)), events) && forall e :: e in events ==> GoesWell(e, w)
    ensures var last := Final(home, Next(home, s, Begin(w, order)), events);
      w in last.windows && (last.windows[w].todo == [] ==> last.queue == map[])
  {
    hide Enabled, GoesWell, NoneDeleted, Judge, IsRun;
    Begun(home, s, w, order);
    var t := Next(home, s, Begin(w, order));
    assert AnswersGood(t, s.requests.Keys);
    GoodRun(home, t, events, w, s.requests.Keys);
  }
}
