/** The offline queue, any number of windows flushing it at once, a network that loses requests
    and answers, and a server that recognises a client id it has already stored. */
module OfflineReplay {
  import opened Options
  import opened OfflineQueue

  /** A stored transaction. Deleting one only marks it. */
  datatype Row = Row(household: string, clientId: string, bucket: Option<string>, deleted: bool)

  /** How far the server is with a request: not started, past the replay check in `household`
      with nothing found, or answered. */
  datatype Stage = Arrived | Unknown(household: string) | Replied(response: Response)

  datatype Request = Request(expense: Expense, stage: Stage)

  /** A running flush: the records of its snapshot still to do, and what it waits for. */
  datatype Wait = Ready | Sending(request: nat) | Removing(request: nat)
  datatype Window = Window(todo: seq<nat>, wait: Wait)

  datatype System = System(
    saved: map<nat, Expense>,
    queue: map<nat, Expense>,
    windows: map<nat, Window>,
    requests: map<nat, Request>,
    rows: seq<Row>)

  /** Why a request was turned away before anything was stored. */
  datatype Refusal =
    | BadCsrf
    | SignedOut(page: string, status: nat)
    | Invalid(status: nat)

  /** What the browser sees after the redirect that follows a stored or recognised expense. */
  datatype Landing =
    | Shown(status: nat)
    | SessionEnded(page: string, status: nat)
    | Broken(status: nat)

  datatype Event =
    | Save(id: nat, expense: Expense)
    | Begin(window: nat, order: seq<nat>)
    | Send(window: nat, request: nat)
    | Refuse(request: nat, refusal: Refusal)
    | LookUp(request: nat, household: string, landing: Landing)
    | Insert(request: nat, landing: Landing)
    | Crash(request: nat, status: nat)
    | Receive(window: nat)
    | GiveUp(window: nat)
    | Remove(window: nat)
    | RemoveFails(window: nat)
    | Close(window: nat)
    | MarkDeleted(row: nat, deleted: bool)

  // ---- The server's answers ----

  /** The pages a request can be sent on to when the session behind it is not good enough. */
  const OTHER_PAGES: set<string> := {"/login", "/login/verify", "/settings/2fa/enroll", "/dashboard"}

  function AfterSave(bucket: Option<string>): string {
    if bucket.Some? then "/buckets/" + bucket.value else "/transactions/search"
  }

  predicate Possible(refusal: Refusal) {
    match refusal
    case BadCsrf => true
    case SignedOut(page, _) => !OwnDestination(page)
    case Invalid(status) => 400 <= status < 600
  }

  predicate CanLand(landing: Landing) {
    match landing
    case Shown(_) => true
    case SessionEnded(page, _) => !OwnDestination(page)
    case Broken(status) => 400 <= status < 600
  }

  function Refused(refusal: Refusal): Response {
    match refusal
    case BadCsrf => Response(403, false, Some("/transactions"))
    case SignedOut(page, status) => Response(status, true, Some(page))
    case Invalid(status) => Response(status, false, Some("/transactions"))
  }

  function Landed(bucket: Option<string>, landing: Landing): Response {
    match landing
    case Shown(status) => Response(status, true, Some(AfterSave(bucket)))
    case SessionEnded(page, status) => Response(status, true, Some(page))
    case Broken(status) => Response(status, false, Some("/transactions"))
  }

  const GONE: Response := Response(409, false, Some("/transactions"))

  predicate Matches(row: Row, household: string, clientId: string) {
    row.household == household && row.clientId == clientId
  }

  predicate Has(rows: seq<Row>, household: string, clientId: string) {
    exists i :: 0 <= i < |rows| && Matches(rows[i], household, clientId)
  }

  /** The first row with this id, deleted ones included. */
  function Find(rows: seq<Row>, household: string, clientId: string): (i: nat)
    requires Has(rows, household, clientId)
    ensures i < |rows| && Matches(rows[i], household, clientId)
  {
    if Matches(rows[0], household, clientId) then 0 else 1 + Find(rows[1..], household, clientId)
  }

  /** The answer to a request whose id is already stored. */
  function Replay(rows: seq<Row>, household: string, e: Expense, landing: Landing): Response
    requires Has(rows, household, e.clientId)
  {
    if rows[Find(rows, household, e.clientId)].deleted then GONE else Landed(e.bucket, landing)
  }

  // ---- Steps ----

  /** `home` names the household a bucket belongs to. Only income may go without a bucket. */
  predicate BucketAccepted(home: map<string, string>, e: Expense, household: string) {
    if e.bucket.None? then e.kind == Income
    else e.bucket.value in home && home[e.bucket.value] == household
  }

  predicate At(s: System, request: nat, stage: Stage) {
    request in s.requests && s.requests[request].stage == stage
  }

  predicate Enabled(home: map<string, string>, s: System, e: Event) {
    match e
    case Save(id, expense) =>
      && id !in s.saved && expense.kind == Spending && expense.clientId != ""
      && forall k :: k in s.saved ==> s.saved[k].clientId != expense.clientId
    case Begin(window, order) => window !in s.windows && multiset(order) == multiset(s.queue.Keys)
    case Send(window, request) =>
      && window in s.windows && s.windows[window].wait.Ready? && s.windows[window].todo != []
      && s.windows[window].todo[0] in s.saved && request !in s.requests
    case Refuse(request, refusal) => At(s, request, Arrived) && Possible(refusal)
    case LookUp(request, household, landing) =>
      At(s, request, Arrived) && CanLand(landing) && BucketAccepted(home, s.requests[request].expense, household)
    case Insert(request, landing) => request in s.requests && s.requests[request].stage.Unknown? && CanLand(landing)
    case Crash(request, status) => request in s.requests && !s.requests[request].stage.Replied? && 500 <= status < 600
    case Receive(window) =>
      && window in s.windows && s.windows[window].wait.Sending? && s.windows[window].wait.request in s.requests
      && s.requests[s.windows[window].wait.request].stage.Replied? && s.windows[window].todo != []
    case GiveUp(window) => window in s.windows && s.windows[window].wait.Sending? && s.windows[window].todo != []
    case Remove(window) => window in s.windows && s.windows[window].wait.Removing? && s.windows[window].todo != []
    case RemoveFails(window) => window in s.windows && s.windows[window].wait.Removing? && s.windows[window].todo != []
    case Close(window) => window in s.windows
    case MarkDeleted(row, _) => row < |s.rows|
  }

  function Answer(s: System, request: nat, response: Response): System
    requires request in s.requests
  {
    s.(requests := s.requests[request := s.requests[request].(stage := Replied(response))])
  }

  function SetWindow(s: System, window: nat, w: Window): System {
    s.(windows := s.windows[window := w])
  }

  /** The window is done with the record at the head of its list. */
  function Skip(s: System, window: nat): System
    requires window in s.windows && s.windows[window].todo != []
  {
    SetWindow(s, window, Window(s.windows[window].todo[1..], Ready))
  }

  function Next(home: map<string, string>, s: System, e: Event): System
    requires Enabled(home, s, e)
  {
    match e
    case Save(id, expense) => s.(saved := s.saved[id := expense], queue := s.queue[id := expense])
    case Begin(window, order) => SetWindow(s, window, Window(order, Ready))
    case Send(window, request) =>
      var sent := s.(requests := s.requests[request := Request(s.saved[s.windows[window].todo[0]], Arrived)]);
      SetWindow(sent, window, s.windows[window].(wait := Sending(request)))
    case Refuse(request, refusal) => Answer(s, request, Refused(refusal))
    case LookUp(request, household, landing) =>
      var expense := s.requests[request].expense;
      if Has(s.rows, household, expense.clientId)
      then Answer(s, request, Replay(s.rows, household, expense, landing))
      else s.(requests := s.requests[request := Request(expense, Unknown(household))])
    case Insert(request, landing) =>
      var expense, household := s.requests[request].expense, s.requests[request].stage.household;
      if Has(s.rows, household, expense.clientId)
      then Answer(s, request, Replay(s.rows, household, expense, landing))
      else Answer(s.(rows := s.rows + [Row(household, expense.clientId, expense.bucket, false)]),
                  request, Landed(expense.bucket, landing))
    case Crash(request, status) => Answer(s, request, Response(status, false, Some("/transactions")))
    case Receive(window) =>
      var w := s.windows[window];
      if Judge(s.requests[w.wait.request].stage.response) == Failed
      then Skip(s, window)
      else SetWindow(s, window, w.(wait := Removing(w.wait.request)))
    case GiveUp(window) => Skip(s, window)
    case Remove(window) => Skip(s.(queue := s.queue - {s.windows[window].todo[0]}), window)
    case RemoveFails(window) => Skip(s, window)
    case Close(window) => s.(windows := s.windows - {window})
    case MarkDeleted(row, deleted) => s.(rows := s.rows[row := s.rows[row].(deleted := deleted)])
  }

  // ---- The invariant ----

  predicate Stored(rows: seq<Row>, clientId: string) {
    exists i :: 0 <= i < |rows| && rows[i].clientId == clientId
  }

  /** The server answered some replay of this expense with a 4xx other than 403. */
  predicate TurnedDown(requests: map<nat, Request>, expense: Expense) {
    exists r :: r in requests && requests[r].expense == expense
                && requests[r].stage.Replied? && Judge(requests[r].stage.response) == Rejected
  }

  predicate Accounted(s: System, id: nat)
    requires id in s.saved
  {
    id in s.queue || Stored(s.rows, s.saved[id].clientId) || TurnedDown(s.requests, s.saved[id])
  }

  ghost predicate AllAccounted(s: System) {
    forall id :: id in s.saved ==> Accounted(s, id)
  }

  /** An answer a flush takes for success is only ever given once the expense is stored. */
  ghost predicate AnswersHonest(s: System) {
    forall r :: r in s.requests && s.requests[r].stage.Replied? && ReplaySucceeded(s.requests[r].stage.response) ==>
      Stored(s.rows, s.requests[r].expense.clientId)
  }

  ghost predicate QueueIsSaved(s: System) {
    forall id :: id in s.queue ==> id in s.saved && s.queue[id] == s.saved[id]
  }

  ghost predicate ClientIdsDiffer(s: System) {
    forall a, b :: a in s.saved && b in s.saved && a != b ==> s.saved[a].clientId != s.saved[b].clientId
  }

  /** The wizard's form is the only one that queues, and it only makes expenses. */
  ghost predicate OnlyExpenses(s: System) {
    forall id :: id in s.saved ==> s.saved[id].kind == Spending
  }

  ghost predicate RequestsAreSaved(home: map<string, string>, s: System) {
    forall r :: r in s.requests ==>
      && s.requests[r].expense in s.saved.Values
      && (s.requests[r].stage.Unknown? ==> BucketAccepted(home, s.requests[r].expense, s.requests[r].stage.household))
  }

  /** A window only knows saved records, and the request it waits for carries its first one. */
  predicate WindowSound(s: System, w: Window) {
    && (forall id :: id in w.todo ==> id in s.saved)
    && (!w.wait.Ready? ==>
          && w.todo != [] && w.wait.request in s.requests
          && s.requests[w.wait.request].expense == s.saved[w.todo[0]])
    && (w.wait.Removing? ==>
          && s.requests[w.wait.request].stage.Replied?
          && Judge(s.requests[w.wait.request].stage.response) != Failed)
  }

  ghost predicate WindowsSound(s: System) {
    forall k :: k in s.windows ==> WindowSound(s, s.windows[k])
  }

  /** The unique constraint on household and client id. */
  ghost predicate RowsUnique(rows: seq<Row>) {
    forall i, j :: 0 <= i < j < |rows| ==> !Matches(rows[i], rows[j].household, rows[j].clientId)
  }

  ghost predicate RowsAreSaved(home: map<string, string>, s: System) {
    forall i :: 0 <= i < |s.rows| ==> HasOrigin(home, s, s.rows[i])
  }

  ghost predicate HasOrigin(home: map<string, string>, s: System, row: Row) {
    exists id :: id in s.saved && RowOf(home, row, s.saved[id])
  }

  predicate RowOf(home: map<string, string>, row: Row, e: Expense) {
    row.clientId == e.clientId && row.bucket == e.bucket && BucketAccepted(home, e, row.household)
  }

  ghost predicate Invariant(home: map<string, string>, s: System) {
    && AllAccounted(s) && AnswersHonest(s) && QueueIsSaved(s) && ClientIdsDiffer(s) && OnlyExpenses(s)
    && RequestsAreSaved(home, s) && WindowsSound(s) && RowsUnique(s.rows) && RowsAreSaved(home, s)
  }

  // ---- Every step keeps it ----

  /** No refusal, whatever other page it ends on, and no answer about a deleted expense is ever
      taken for success. A failed form token, a page shown instead and a server error leave the record
      queued; another 4xx turns it down. */
  lemma RefusalsAreNotSuccess(refusal: Refusal)
    requires Possible(refusal)
    ensures !ReplaySucceeded(Refused(refusal)) && Judge(GONE) == Rejected
    ensures refusal.BadCsrf? ==> Judge(Refused(refusal)) == Failed
    ensures refusal.SignedOut? && refusal.status < 400 ==> Judge(Refused(refusal)) == Failed
    ensures refusal.Invalid? ==>
      Judge(Refused(refusal)) == if refusal.status <= 499 && refusal.status != 403 then Rejected else Failed
  {
  }

  /** The pages the server sends such requests to are none of the create's own destinations. */
  lemma OtherPagesAreForeign(page: string)
    requires page in OTHER_PAGES
    ensures !OwnDestination(page)
  {
    assert page[1] != 'b' && page[1] != 't';
    assert "/buckets/"[1] == 'b' && "/transactions/"[1] == 't' && "/transactions"[1] == 't';
  }

  /** A stored or recognised expense whose own page is shown is taken for success, whatever its
      bucket, and no other ending of the redirect is. */
  lemma OwnPageIsSuccess(bucket: Option<string>, landing: Landing)
    requires CanLand(landing)
    ensures Judge(Landed(bucket, landing)) == Sent <==> landing.Shown? && 200 <= landing.status <= 299
    ensures landing.Shown? ==> Landed(bucket, landing).redirected
    ensures landing.Shown? ==>
      Landed(bucket, landing).path == Some(if bucket.Some? then "/buckets/" + bucket.value else "/transactions/search")
  {
    if bucket.Some? {
      assert "/buckets/" <= AfterSave(bucket);
    } else {
      assert AfterSave(bucket)[..14] == "/transactions/";
    }
  }

  /** The household has this client id on a deleted transaction. */
  ghost predicate DeletedHere(rows: seq<Row>, household: string, clientId: string) {
    exists i :: 0 <= i < |rows| && rows[i].household == household && rows[i].clientId == clientId && rows[i].deleted
  }

  ghost predicate StoredHere(rows: seq<Row>, household: string, clientId: string) {
    exists i :: 0 <= i < |rows| && rows[i].household == household && rows[i].clientId == clientId && !rows[i].deleted
  }

  lemma OnlyRow(rows: seq<Row>, household: string, clientId: string)
    requires RowsUnique(rows)
    ensures DeletedHere(rows, household, clientId) <==>
      Has(rows, household, clientId) && rows[Find(rows, household, clientId)].deleted
    ensures StoredHere(rows, household, clientId) <==>
      Has(rows, household, clientId) && !rows[Find(rows, household, clientId)].deleted
  {
    if Has(rows, household, clientId) {
      var i := Find(rows, household, clientId);
      assert forall j :: 0 <= j < |rows| && Matches(rows[j], household, clientId) ==> j == i;
    } else {
      assert forall j :: 0 <= j < |rows| ==> !Matches(rows[j], household, clientId);
    }
  }

  /** Once the server has an expense, its answer is judged sent exactly when the expense's own page is
      shown, and a deleted expense is turned down. It then has the expense, not deleted, in the
      household it was meant for. */
  lemma AnswerToStored(home: map<string, string>, s: System, r: nat, landing: Landing)
    requires RowsUnique(s.rows) && Enabled(home, s, Insert(r, landing))
    ensures var t, household, id :=
      Next(home, s, Insert(r, landing)), s.requests[r].stage.household, s.requests[r].expense.clientId;
      && r in t.requests && t.requests[r].stage.Replied?
      && (DeletedHere(s.rows, household, id) ==> Judge(t.requests[r].stage.response) == Rejected)
      && (!DeletedHere(s.rows, household, id) ==>
            && StoredHere(t.rows, household, id)
            && (Judge(t.requests[r].stage.response) == Sent <==> landing.Shown? && 200 <= landing.status <= 299))
  {
    hide Judge, Landed, Find;
    var household, expense := s.requests[r].stage.household, s.requests[r].expense;
    OnlyRow(s.rows, household, expense.clientId);
    OwnPageIsSuccess(expense.bucket, landing);
    RefusalsAreNotSuccess(BadCsrf);
    if !Has(s.rows, household, expense.clientId) {
      var t := Next(home, s, Insert(r, landing));
      assert t.rows[|s.rows|] == Row(household, expense.clientId, expense.bucket, false);
    }
  }

  lemma AnswerToRecognised(home: map<string, string>, s: System, r: nat, household: string, landing: Landing)
    requires RowsUnique(s.rows) && Enabled(home, s, LookUp(r, household, landing))
    ensures var t, id := Next(home, s, LookUp(r, household, landing)), s.requests[r].expense.clientId;
      && r in t.requests && t.rows == s.rows
      && (DeletedHere(s.rows, household, id) ==>
            t.requests[r].stage.Replied? && Judge(t.requests[r].stage.response) == Rejected)
      && (StoredHere(s.rows, household, id) ==>
            && t.requests[r].stage.Replied?
            && (Judge(t.requests[r].stage.response) == Sent <==> landing.Shown? && 200 <= landing.status <= 299))
      && (!DeletedHere(s.rows, household, id) && !StoredHere(s.rows, household, id) ==>
            t.requests[r].stage == Unknown(household))
  {
    hide Judge, Landed, Find;
    OnlyRow(s.rows, household, s.requests[r].expense.clientId);
    OwnPageIsSuccess(s.requests[r].expense.bucket, landing);
    RefusalsAreNotSuccess(BadCsrf);
  }

  lemma FoundIsStored(rows: seq<Row>, household: string, clientId: string)
    requires Has(rows, household, clientId)
    ensures Stored(rows, clientId)
  {
    var i := Find(rows, household, clientId);
  }

  /** What is recorded stays recorded: expenses saved, rows stored, requests answered. */
  ghost predicate Grows(s: System, t: System) {
    && (forall id :: id in s.saved ==> id in t.saved && t.saved[id] == s.saved[id])
    && |s.rows| <= |t.rows|
    && (forall i :: 0 <= i < |s.rows| ==> t.rows[i] == s.rows[i].(deleted := t.rows[i].deleted))
    && (forall r :: r in s.requests ==>
          && r in t.requests && t.requests[r].expense == s.requests[r].expense
          && (s.requests[r].stage.Replied? ==> t.requests[r] == s.requests[r]))
  }

  // What a step touches: the saved records and the queue, the requests, the rows.

  lemma SavedAfter(home: map<string, string>, s: System, e: Event)
    requires Enabled(home, s, e)
    ensures Next(home, s, e).saved == if e.Save? then s.saved[e.id := e.expense] else s.saved
    ensures Next(home, s, e).queue ==
      if e.Save? then s.queue[e.id := e.expense]
      else if e.Remove? then s.queue - {s.windows[e.window].todo[0]} else s.queue
  {
    hide Has, Find, Judge, Possible, CanLand, BucketAccepted, Replay, Landed, Refused;
  }

  /** The only request a step touches. */
  predicate Concerns(e: Event, r: nat) {
    match e
    case Send(_, request) => r == request
    case Refuse(request, _) => r == request
    case LookUp(request, _, _) => r == request
    case Insert(request, _) => r == request
    case Crash(request, _) => r == request
    case _ => false
  }

  lemma RequestsAfter(home: map<string, string>, s: System, e: Event, r: nat)
    requires Enabled(home, s, e)
    ensures !Concerns(e, r) ==> (r in Next(home, s, e).requests <==> r in s.requests)
    ensures !Concerns(e, r) && r in s.requests ==> Next(home, s, e).requests[r] == s.requests[r]
    ensures Concerns(e, r) ==> r in Next(home, s, e).requests
    ensures Concerns(e, r) && r in s.requests ==>
      !s.requests[r].stage.Replied? && Next(home, s, e).requests[r].expense == s.requests[r].expense
  {
    hide Has, Find, Judge, Possible, CanLand, BucketAccepted, Replay, Landed, Refused;
  }

  lemma RowsAfter(home: map<string, string>, s: System, e: Event)
    requires Enabled(home, s, e)
    ensures |s.rows| <= |Next(home, s, e).rows|
    ensures forall i :: 0 <= i < |s.rows| ==> Next(home, s, e).rows[i] == s.rows[i].(deleted := Next(home, s, e).rows[i].deleted)
  {
    hide Has, Find, Judge, Possible, CanLand, BucketAccepted, Replay, Landed, Refused;
  }

  lemma StepGrows(home: map<string, string>, s: System, e: Event)
    requires Enabled(home, s, e)
    ensures Grows(s, Next(home, s, e))
  {
    SavedAfter(home, s, e);
    RowsAfter(home, s, e);
    var t := Next(home, s, e);
    forall r | r in s.requests
      ensures r in t.requests && t.requests[r].expense == s.requests[r].expense
      ensures s.requests[r].stage.Replied? ==> t.requests[r] == s.requests[r]
    {
      RequestsAfter(home, s, e, r);
    }
    hide Next, Enabled;
    assert forall id :: id in s.saved ==> id in t.saved && t.saved[id] == s.saved[id] by {
      if e.Save? {
        SaveIsNew(home, s, e);
      }
    }
  }

  lemma SaveIsNew(home: map<string, string>, s: System, e: Event)
    requires Enabled(home, s, e) && e.Save?
    ensures e.id !in s.saved && e.expense.clientId != "" && e.expense.kind == Spending
    ensures forall k :: k in s.saved ==> s.saved[k].clientId != e.expense.clientId
  {
  }

  lemma GrowthKeepsRecords(s: System, t: System, e: Expense)
    requires Grows(s, t)
    ensures Stored(s.rows, e.clientId) ==> Stored(t.rows, e.clientId)
    ensures TurnedDown(s.requests, e) ==> TurnedDown(t.requests, e)
  {
    hide Judge;
    if Stored(s.rows, e.clientId) {
      var i :| 0 <= i < |s.rows| && s.rows[i].clientId == e.clientId;
      assert t.rows[i].clientId == e.clientId;
    }
    if TurnedDown(s.requests, e) {
      var r :| r in s.requests && s.requests[r].expense == e
               && s.requests[r].stage.Replied? && Judge(s.requests[r].stage.response) == Rejected;
      assert t.requests[r] == s.requests[r];
    }
  }

  lemma StepAnswersHonestly(home: map<string, string>, s: System, e: Event)
    requires Enabled(home, s, e) && AnswersHonest(s)
    ensures AnswersHonest(Next(home, s, e))
  {
    var t := Next(home, s, e);
    StepGrows(home, s, e);
    forall r | r in t.requests && t.requests[r].stage.Replied? && ReplaySucceeded(t.requests[r].stage.response)
      ensures Stored(t.rows, t.requests[r].expense.clientId)
    {
      if r in s.requests && s.requests[r].stage.Replied? {
        GrowthKeepsRecords(s, t, s.requests[r].expense);
      } else {
        NewAnswerHonest(home, s, e, r);
      }
    }
  }

  lemma NewAnswerHonest(home: map<string, string>, s: System, e: Event, r: nat)
    requires Enabled(home, s, e)
    requires r in Next(home, s, e).requests && Next(home, s, e).requests[r].stage.Replied?
    requires r in s.requests ==> !s.requests[r].stage.Replied?
    ensures ReplaySucceeded(Next(home, s, e).requests[r].stage.response) ==>
      Stored(Next(home, s, e).rows, Next(home, s, e).requests[r].expense.clientId)
  {
    hide ReplaySucceeded, Has, Find, Landed, Refused, Possible, CanLand, BucketAccepted, Judge, Replay;
    var t := Next(home, s, e);
    match e
    case Refuse(request, refusal) => RefusalsAreNotSuccess(refusal);
    case LookUp(request, household, _) =>
      FoundIsStored(s.rows, household, s.requests[request].expense.clientId);
    case Insert(request, _) =>
      var expense := s.requests[request].expense;
      if Has(s.rows, s.requests[request].stage.household, expense.clientId) {
        FoundIsStored(s.rows, s.requests[request].stage.household, expense.clientId);
      } else {
        assert t.rows[|s.rows|].clientId == expense.clientId;
      }
    case Crash(_, status) => ServerErrorIsNotSuccess(status);
    case _ =>
  }

  lemma ServerErrorIsNotSuccess(status: nat)
    requires status >= 300
    ensures !ReplaySucceeded(Response(status, false, Some("/transactions")))
  {
  }

  lemma StepKeepsAccounts(home: map<string, string>, s: System, e: Event)
    requires Enabled(home, s, e) && AllAccounted(s) && AnswersHonest(s) && WindowsSound(s) && QueueIsSaved(s)
    ensures AllAccounted(Next(home, s, e))
  {
    var t := Next(home, s, e);
    StepGrows(home, s, e);
    forall id | id in t.saved
      ensures Accounted(t, id)
    {
      if id in s.saved {
        GrowthKeepsRecords(s, t, s.saved[id]);
        if id in s.queue {
          QueueChanges(home, s, e, id);
        }
      } else {
        NewIsQueued(home, s, e, id);
      }
    }
  }

  lemma NewIsQueued(home: map<string, string>, s: System, e: Event, id: nat)
    requires Enabled(home, s, e) && id !in s.saved && id in Next(home, s, e).saved
    ensures id in Next(home, s, e).queue
  {
    hide Has, Find, Landed, Refused, Possible, CanLand, BucketAccepted, Judge, Replay;
  }

  /** A record leaves the queue only after an answer that says stored or turned down. */
  lemma QueueChanges(home: map<string, string>, s: System, e: Event, id: nat)
    requires Enabled(home, s, e) && AnswersHonest(s) && WindowsSound(s) && id in s.saved && id in s.queue
    ensures id in Next(home, s, e).queue || Stored(s.rows, s.saved[id].clientId) || TurnedDown(s.requests, s.saved[id])
  {
    hide ReplaySucceeded, Has, Find, Landed, Refused, Possible, CanLand, BucketAccepted, Replay, Stored;
    if id !in Next(home, s, e).queue {
      assert e.Remove?;
      var w := s.windows[e.window];
      assert WindowSound(s, w) && w.todo[0] == id;
    }
  }

  lemma StepKeepsSaved(home: map<string, string>, s: System, e: Event)
    requires Enabled(home, s, e) && QueueIsSaved(s) && ClientIdsDiffer(s) && OnlyExpenses(s)
    ensures QueueIsSaved(Next(home, s, e)) && ClientIdsDiffer(Next(home, s, e)) && OnlyExpenses(Next(home, s, e))
  {
    SavedAfter(home, s, e);
    if e.Save? {
      SaveIsNew(home, s, e);
    }
    hide Next, Enabled;
  }

  lemma StepKeepsRequests(home: map<string, string>, s: System, e: Event)
    requires Enabled(home, s, e) && RequestsAreSaved(home, s)
    ensures RequestsAreSaved(home, Next(home, s, e))
  {
    var t := Next(home, s, e);
    StepGrows(home, s, e);
    forall r | r in t.requests
      ensures t.requests[r].expense in t.saved.Values
      ensures t.requests[r].stage.Unknown? ==> BucketAccepted(home, t.requests[r].expense, t.requests[r].stage.household)
    {
      RequestsAfter(home, s, e, r);
      if Concerns(e, r) {
        TouchedRequestIsSaved(home, s, e, r);
      } else {
        ValuesGrow(s, t, s.requests[r].expense);
      }
    }
    hide Next, Enabled;
  }

  lemma ValuesGrow(s: System, t: System, e: Expense)
    requires Grows(s, t) && e in s.saved.Values
    ensures e in t.saved.Values
  {
    var id :| id in s.saved && s.saved[id] == e;
    assert t.saved[id] == e;
  }

  lemma TouchedRequestIsSaved(home: map<string, string>, s: System, e: Event, r: nat)
    requires Enabled(home, s, e) && RequestsAreSaved(home, s) && Concerns(e, r)
    ensures var x := Next(home, s, e).requests;
      && r in x && x[r].expense in Next(home, s, e).saved.Values
      && (x[r].stage.Unknown? ==> BucketAccepted(home, x[r].expense, x[r].stage.household))
  {
    hide Has, Find, Landed, Refused, Possible, CanLand, Judge, Replay;
    if e.Send? {
      var id := s.windows[e.window].todo[0];
      assert s.saved[id] in s.saved.Values;
    }
    hide BucketAccepted;
  }

  lemma StepKeepsWindows(home: map<string, string>, s: System, e: Event)
    requires Enabled(home, s, e) && WindowsSound(s) && QueueIsSaved(s)
    ensures WindowsSound(Next(home, s, e))
  {
    var t := Next(home, s, e);
    StepGrows(home, s, e);
    forall k | k in t.windows
      ensures WindowSound(t, t.windows[k])
    {
      if k in s.windows && t.windows[k] == s.windows[k] {
        GrowthKeepsWindow(s, t, s.windows[k]);
      } else {
        NewWindowSound(home, s, e, k);
      }
    }
  }

  lemma GrowthKeepsWindow(s: System, t: System, w: Window)
    requires Grows(s, t) && WindowSound(s, w)
    ensures WindowSound(t, w)
  {
    hide Judge;
  }

  /** What a step other than Begin and Send makes of a window it touches. */
  lemma WindowAfter(home: map<string, string>, s: System, e: Event, k: nat)
    requires Enabled(home, s, e) && !e.Begin? && !e.Send? && k in Next(home, s, e).windows
    requires k in s.windows ==> Next(home, s, e).windows[k] != s.windows[k]
    ensures k in s.windows && s.windows[k].todo != []
    ensures var w, v := s.windows[k], Next(home, s, e).windows[k];
      || v == Window(w.todo[1..], Ready)
      || (w.wait.Sending? && w.wait.request in s.requests && s.requests[w.wait.request].stage.Replied?
          && Judge(s.requests[w.wait.request].stage.response) != Failed && v == w.(wait := Removing(w.wait.request)))
  {
    hide Has, Find, Landed, Refused, Possible, CanLand, BucketAccepted, Judge, Replay;
  }

  lemma BegunWindowSound(home: map<string, string>, s: System, e: Event)
    requires Enabled(home, s, e) && e.Begin? && QueueIsSaved(s)
    ensures WindowSound(Next(home, s, e), Window(e.order, Ready)) && Next(home, s, e).windows == s.windows[e.window := Window(e.order, Ready)]
  {
    forall id | id in e.order
      ensures id in s.saved
    {
      assert multiset(e.order)[id] > 0;
      assert id in s.queue.Keys;
    }
    hide Judge;
  }

  lemma SendingWindowSound(home: map<string, string>, s: System, e: Event)
    requires Enabled(home, s, e) && e.Send? && WindowSound(s, s.windows[e.window])
    ensures var w := s.windows[e.window].(wait := Sending(e.request));
      WindowSound(Next(home, s, e), w) && Next(home, s, e).windows == s.windows[e.window := w]
  {
    hide Judge;
  }

  lemma NewWindowSound(home: map<string, string>, s: System, e: Event, k: nat)
    requires Enabled(home, s, e) && WindowsSound(s) && QueueIsSaved(s) && Grows(s, Next(home, s, e))
    requires k in Next(home, s, e).windows
    requires k in s.windows ==> Next(home, s, e).windows[k] != s.windows[k]
    ensures WindowSound(Next(home, s, e), Next(home, s, e).windows[k])
  {
    if e.Begin? {
      BegunWindowSound(home, s, e);
    } else if e.Send? {
      SentWindowKnown(home, s, e);
      SendingWindowSound(home, s, e);
    } else {
      WindowAfter(home, s, e, k);
      GrowthKeepsWindow(s, Next(home, s, e), s.windows[k]);
      hide Judge;
    }
    hide Next, Enabled, Grows;
  }

  lemma SentWindowKnown(home: map<string, string>, s: System, e: Event)
    requires Enabled(home, s, e) && e.Send? && WindowsSound(s)
    ensures e.window in s.windows && WindowSound(s, s.windows[e.window])
  {
    hide WindowSound;
  }

  lemma StepKeepsRows(home: map<string, string>, s: System, e: Event)
    requires Enabled(home, s, e) && RowsUnique(s.rows)
    ensures RowsUnique(Next(home, s, e).rows)
  {
    hide Find, Landed, Refused, Possible, CanLand, BucketAccepted, Judge, Replay;
  }

  lemma StepKeepsOrigins(home: map<string, string>, s: System, e: Event)
    requires Enabled(home, s, e) && RowsAreSaved(home, s) && RequestsAreSaved(home, s)
    ensures RowsAreSaved(home, Next(home, s, e))
  {
    hide Has, Find, Landed, Refused, Possible, CanLand, BucketAccepted, Judge, Replay;
    var t := Next(home, s, e);
    StepGrows(home, s, e);
    forall i | 0 <= i < |t.rows|
      ensures HasOrigin(home, t, t.rows[i])
    {
      if i < |s.rows| {
        assert HasOrigin(home, s, s.rows[i]);
        var id :| id in s.saved && RowOf(home, s.rows[i], s.saved[id]);
        assert RowOf(home, t.rows[i], t.saved[id]);
      } else {
        var expense := s.requests[e.request].expense;
        assert expense in s.saved.Values;
        var id :| id in s.saved && s.saved[id] == expense;
        assert RowOf(home, t.rows[i], t.saved[id]);
      }
    }
  }

  lemma StepKeepsInvariant(home: map<string, string>, s: System, e: Event)
    requires Invariant(home, s) && Enabled(home, s, e)
    ensures Invariant(home, Next(home, s, e))
  {
    hide Enabled, Next, AllAccounted, AnswersHonest, QueueIsSaved, ClientIdsDiffer, OnlyExpenses;
    hide RequestsAreSaved, WindowsSound, RowsUnique, RowsAreSaved;
    StepKeepsAccounts(home, s, e);
    StepAnswersHonestly(home, s, e);
    StepKeepsSaved(home, s, e);
    StepKeepsRequests(home, s, e);
    StepKeepsWindows(home, s, e);
    StepKeepsRows(home, s, e);
    StepKeepsOrigins(home, s, e);
  }

  // ---- Every run ----

  ghost predicate IsRun(home: map<string, string>, s: System, events: seq<Event>)
    decreases |events|
  {
    events == [] || (Enabled(home, s, events[0]) && IsRun(home, Next(home, s, events[0]), events[1..]))
  }

  ghost function Final(home: map<string, string>, s: System, events: seq<Event>): System
    requires IsRun(home, s, events)
    decreases |events|
  {
    if events == [] then s else Final(home, Next(home, s, events[0]), events[1..])
  }

  const NOTHING_YET: System := System(map[], map[], map[], map[], [])

  lemma {:induction false} RunKeepsInvariant(home: map<string, string>, s: System, events: seq<Event>)
    requires Invariant(home, s) && IsRun(home, s, events)
    ensures Invariant(home, Final(home, s, events))
    decreases |events|
  {
    hide Enabled, Next, Invariant;
    if events != [] {
      StepKeepsInvariant(home, s, events[0]);
      RunKeepsInvariant(home, Next(home, s, events[0]), events[1..]);
    }
  }

  /** Whatever is lost, retried, raced or closed half way: every expense ever saved is still
      queued, stored on the server, or was answered with a 4xx other than 403. */
  lemma NoExpenseIsLost(home: map<string, string>, events: seq<Event>, id: nat)
    requires IsRun(home, NOTHING_YET, events) && id in Final(home, NOTHING_YET, events).saved
    ensures var s := Final(home, NOTHING_YET, events);
      id in s.queue || Stored(s.rows, s.saved[id].clientId) || TurnedDown(s.requests, s.saved[id])
  {
    assert Invariant(home, NOTHING_YET);
    hide Enabled, Next, Stored, TurnedDown;
    RunKeepsInvariant(home, NOTHING_YET, events);
    assert Accounted(Final(home, NOTHING_YET, events), id);
  }

  /** Every stored row is one saved expense, in its bucket and its bucket's household. */
  lemma StoredAsSaved(home: map<string, string>, events: seq<Event>, i: nat) returns (id: nat)
    requires IsRun(home, NOTHING_YET, events) && i < |Final(home, NOTHING_YET, events).rows|
    ensures var s := Final(home, NOTHING_YET, events);
      && id in s.saved && s.rows[i].clientId == s.saved[id].clientId
      && s.rows[i].bucket == s.saved[id].bucket && s.rows[i].bucket.Some?
      && s.rows[i].bucket.value in home && home[s.rows[i].bucket.value] == s.rows[i].household
  {
    assert Invariant(home, NOTHING_YET);
    hide Enabled, Next;
    RunKeepsInvariant(home, NOTHING_YET, events);
    var s := Final(home, NOTHING_YET, events);
    assert HasOrigin(home, s, s.rows[i]);
    id :| id in s.saved && RowOf(home, s.rows[i], s.saved[id]);
  }

  /** Over every run, whichever households are active meanwhile, the server stores at most one
      transaction for each client id. */
  lemma StoredAtMostOnce(home: map<string, string>, events: seq<Event>, i: nat, j: nat)
    requires IsRun(home, NOTHING_YET, events)
    requires i < j < |Final(home, NOTHING_YET, events).rows|
    ensures var rows := Final(home, NOTHING_YET, events).rows; rows[i].clientId != rows[j].clientId
  {
    var a := StoredAsSaved(home, events, i);
    var b := StoredAsSaved(home, events, j);
    assert Invariant(home, NOTHING_YET);
    hide Enabled, Next;
    RunKeepsInvariant(home, NOTHING_YET, events);
    var s := Final(home, NOTHING_YET, events);
    assert !Matches(s.rows[i], s.rows[j].household, s.rows[j].clientId);
  }
}
