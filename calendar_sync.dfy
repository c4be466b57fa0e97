/**
 * The sync endpoint for one parent calendar: after the request guards it
 * reads the calendar's feed, keeps the events in a window around now,
 * upserts one row per event into the event table keyed by calendar and
 * event UID, deletes the calendar's rows whose UID left the window, and
 * stamps the calendar with the time of the sync.
 */
module CalendarSync {
  import opened Wrappers
  import opened CivilTime
  import opened ICalTime
  import opened ICalParser
  import ICalLines

  /** The unique key of the event table: `(calendar_id, event_id)`. */
  datatype Key = Key(calendar: int, eventId: string)

  /** The columns an upsert writes; times are kept as milliseconds rather than ISO text. */
  datatype Row = Row(userId: string, title: string, startTime: int, endTime: int, isBusy: bool)

  /** A parent calendar: its owner, its feed URL if any, and when it was last synced. */
  datatype Calendar = Calendar(userId: string, url: Option<string>, lastSynced: Option<int>)

  /** What the feed fetch gives: the text, or the message of the error it threw. */
  datatype Feed = Fetched(text: string) | Thrown(message: string)

  /**
   * The request: its `authorization` header, whether the auth service
   * accepted that token as a signed-in user, and the `calendarId` of the body.
   */
  datatype Request = Request(authHeader: Option<string>, signedIn: bool, calendarId: Option<int>)

  /** The JSON answer: an error with its HTTP status, or the counts of a sync. */
  datatype Response = Failure(status: int, error: string) | Success(synced: nat, errors: nat, total: nat)

  // ---------------------------------------------------------------------
  // The window

  /** Both dates of the event are valid dates. */
  predicate Timed(e: Event) {
    e.start.Valid? && e.end.Valid?
  }

  /**
   * The event ends after 30 days before `now` and starts before 90 days
   * after it; a date comparison with an Invalid Date is false.
   */
  predicate InWindow(e: Event, now: int) {
    Timed(e) && e.end.ms > now - Days(30) && e.start.ms < now + Days(90)
  }

  /** `events.filter(e => e.end > windowStart && e.start < windowEnd)`. */
  function Window(events: seq<Event>, now: int): (relevant: seq<Event>)
    ensures |relevant| <= |events|
    ensures forall i :: 0 <= i < |relevant| ==> InWindow(relevant[i], now)
  {
    if events == [] then []
    else Window(events[..|events| - 1], now)
         + (if InWindow(events[|events| - 1], now) then [events[|events| - 1]] else [])
  }

  /** An event is kept exactly when it is in the window. */
  lemma {:induction false} WindowKeeps(events: seq<Event>, now: int, e: Event)
    ensures e in Window(events, now) <==> e in events && InWindow(e, now)
  {
    if events != [] {
      var init := events[..|events| - 1];
      WindowKeeps(init, now, e);
      assert events == init + [events[|events| - 1]];
    }
  }

  /** Filtering a feed in two parts filters each part in feed order. */
  lemma {:induction false} WindowAppend(a: seq<Event>, b: seq<Event>, now: int)
    ensures Window(a + b, now) == Window(a, now) + Window(b, now)
  {
    if b == [] {
      assert a + b == a;
    } else {
      WindowAppend(a, b[..|b| - 1], now);
      assert (a + b)[..|a + b| - 1] == a + b[..|b| - 1];
    }
  }

  // ---------------------------------------------------------------------
  // The event table

  /** The row an event is upserted as; an empty title becomes `Busy`. */
  function RowOf(userId: string, e: Event): Row
    requires Timed(e)
  {
    Row(userId, if e.summary != "" then e.summary else "Busy", e.start.ms, e.end.ms, e.isBusy)
  }

  /** The UIDs of the kept events: `new Set(relevantEvents.map(e => e.uid))`. */
  function Uids(relevant: seq<Event>): set<string>
  {
    set i | 0 <= i < |relevant| :: relevant[i].uid
  }

  predicate AllTimed(relevant: seq<Event>) {
    forall i :: 0 <= i < |relevant| ==> Timed(relevant[i])
  }

  /**
   * The table after upserting the kept events in order, where `outcomes[i]`
   * says whether the upsert of the `i`-th one succeeded; a failed upsert
   * changes nothing.
   */
  function ApplyUpserts(table: map<Key, Row>, calendar: int, userId: string,
                        relevant: seq<Event>, outcomes: seq<bool>): map<Key, Row>
    requires |outcomes| == |relevant| && AllTimed(relevant)
  {
    if relevant == [] then table
    else
      var n := |relevant| - 1;
      var before := ApplyUpserts(table, calendar, userId, relevant[..n], outcomes[..n]);
      if outcomes[n] then before[Key(calendar, relevant[n].uid) := RowOf(userId, relevant[n])] else before
  }

  /** The position of the last event with UID `uid` whose upsert succeeded, or -1. */
  function LastWritten(relevant: seq<Event>, outcomes: seq<bool>, uid: string): (i: int)
    requires |outcomes| == |relevant|
    ensures -1 <= i < |relevant|
    ensures i >= 0 ==> relevant[i].uid == uid && outcomes[i]
    ensures forall j :: i < j < |relevant| ==> !(relevant[j].uid == uid && outcomes[j])
  {
    if relevant == [] then -1
    else
      var n := |relevant| - 1;
      if relevant[n].uid == uid && outcomes[n] then n else LastWritten(relevant[..n], outcomes[..n], uid)
  }

  /**
   * After the upserts, the row of this calendar under a UID is the row of
   * the last event with that UID whose upsert succeeded; every other row,
   * of this calendar or another, is as it was.
   */
  lemma {:induction false} UpsertedRow(table: map<Key, Row>, calendar: int, userId: string,
                                       relevant: seq<Event>, outcomes: seq<bool>, k: Key)
    requires |outcomes| == |relevant| && AllTimed(relevant)
    ensures var after := ApplyUpserts(table, calendar, userId, relevant, outcomes);
            var i := LastWritten(relevant, outcomes, k.eventId);
            if k.calendar == calendar && i >= 0 then k in after && after[k] == RowOf(userId, relevant[i])
            else (k in after <==> k in table) && (k in table ==> after[k] == table[k])
  {
    if relevant != [] {
      var n := |relevant| - 1;
      assert AllTimed(relevant[..n]) by {
        forall j | 0 <= j < n ensures Timed(relevant[..n][j]) {
          assert relevant[..n][j] == relevant[j];
        }
      }
      UpsertedRow(table, calendar, userId, relevant[..n], outcomes[..n], k);
      var i := LastWritten(relevant[..n], outcomes[..n], k.eventId);
      assert i >= 0 ==> relevant[..n][i] == relevant[i];
    }
  }

  /** The table after the prune: the rows of `calendar` whose UID is not in `keep` are deleted. */
  function PruneTable(table: map<Key, Row>, calendar: int, keep: set<string>): (pruned: map<Key, Row>)
  {
    map k | k in table && (k.calendar != calendar || k.eventId in keep) :: table[k]
  }

  /** Pruning deletes exactly the stale rows of `calendar` and leaves every other row as it was. */
  lemma PruneKeeps(table: map<Key, Row>, calendar: int, keep: set<string>, k: Key)
    ensures k in PruneTable(table, calendar, keep)
        <==> k in table && (k.calendar != calendar || k.eventId in keep)
    ensures k in PruneTable(table, calendar, keep) ==> PruneTable(table, calendar, keep)[k] == table[k]
  {
  }

  /** The table after the upserts and, if it took effect, the prune. */
  function Reconcile(table: map<Key, Row>, calendar: int, userId: string,
                     relevant: seq<Event>, outcomes: seq<bool>, pruned: bool): map<Key, Row>
    requires |outcomes| == |relevant| && AllTimed(relevant)
  {
    var upserted := ApplyUpserts(table, calendar, userId, relevant, outcomes);
    if pruned then PruneTable(upserted, calendar, Uids(relevant)) else upserted
  }

  /** The UID of every kept event is in the set. */
  lemma UidsHas(relevant: seq<Event>, i: nat)
    requires i < |relevant|
    ensures relevant[i].uid in Uids(relevant)
  {
  }

  /**
   * After a sync that reached the prune, the calendar's rows are exactly
   * those whose UID is a kept event's and that either were there before or
   * were written by a successful upsert, the written ones holding the row
   * of the last such event; rows of other calendars are untouched.
   */
  lemma ReconciledRow(table: map<Key, Row>, calendar: int, userId: string,
                      relevant: seq<Event>, outcomes: seq<bool>, k: Key)
    requires |outcomes| == |relevant| && AllTimed(relevant)
    ensures var after := Reconcile(table, calendar, userId, relevant, outcomes, true);
            var i := LastWritten(relevant, outcomes, k.eventId);
            && (k.calendar != calendar ==> (k in after <==> k in table) && (k in table ==> after[k] == table[k]))
            && (k.calendar == calendar && i >= 0 ==> k in after && after[k] == RowOf(userId, relevant[i]))
            && (k.calendar == calendar && i < 0 ==>
                  (k in after <==> k in table && k.eventId in Uids(relevant))
                  && (k in after ==> after[k] == table[k]))
  {
    UpsertedRow(table, calendar, userId, relevant, outcomes, k);
    var i := LastWritten(relevant, outcomes, k.eventId);
    if i >= 0 {
      UidsHas(relevant, i);
    }
  }

  /** Every outcome true: the upserts of a sync in which nothing failed. */
  function AllSucceeded(n: nat): (outcomes: seq<bool>)
    ensures |outcomes| == n && forall i :: 0 <= i < n ==> outcomes[i]
  {
    seq(n, i => true)
  }

  /** When every upsert succeeds, each kept UID has a last writer: the last event carrying it. */
  lemma {:induction false} EveryUidWritten(relevant: seq<Event>, uid: string)
    ensures uid in Uids(relevant) <==> LastWritten(relevant, AllSucceeded(|relevant|), uid) >= 0
  {
    if relevant != [] {
      var n := |relevant| - 1;
      assert AllSucceeded(|relevant|)[..n] == AllSucceeded(n);
      EveryUidWritten(relevant[..n], uid);
      if uid in Uids(relevant) && relevant[n].uid != uid {
        var j :| 0 <= j < |relevant| && relevant[j].uid == uid;
        assert relevant[..n][j] == relevant[j];
      }
      if uid in Uids(relevant[..n]) {
        var j :| 0 <= j < n && relevant[..n][j].uid == uid;
        assert relevant[j].uid == uid;
      }
    }
  }

  /**
   * After a sync in which every upsert succeeds and the prune runs, the
   * calendar's rows mirror the window: one row per kept UID, holding the
   * last event with that UID.
   */
  lemma FullSyncMirrors(table: map<Key, Row>, calendar: int, userId: string, relevant: seq<Event>, uid: string)
    requires AllTimed(relevant)
    ensures var after := Reconcile(table, calendar, userId, relevant, AllSucceeded(|relevant|), true);
            var i := LastWritten(relevant, AllSucceeded(|relevant|), uid);
            && (Key(calendar, uid) in after <==> uid in Uids(relevant))
            && (uid in Uids(relevant) ==> i >= 0 && after[Key(calendar, uid)] == RowOf(userId, relevant[i]))
  {
    ReconciledRow(table, calendar, userId, relevant, AllSucceeded(|relevant|), Key(calendar, uid));
    EveryUidWritten(relevant, uid);
  }

  /**
   * Syncing the same window again after a sync in which nothing failed
   * leaves the table as it is: the upserts rewrite the same rows and the
   * prune finds nothing stale.
   */
  lemma ResyncChangesNothing(table: map<Key, Row>, calendar: int, userId: string, relevant: seq<Event>)
    requires AllTimed(relevant)
    ensures var all := AllSucceeded(|relevant|);
            var once := Reconcile(table, calendar, userId, relevant, all, true);
            Reconcile(once, calendar, userId, relevant, all, true) == once
  {
    var all := AllSucceeded(|relevant|);
    var once := Reconcile(table, calendar, userId, relevant, all, true);
    var twice := Reconcile(once, calendar, userId, relevant, all, true);
    forall k | true
      ensures (k in twice <==> k in once) && (k in once ==> twice[k] == once[k])
    {
      ResyncRow(table, calendar, userId, relevant, k);
    }
  }

  // ---------------------------------------------------------------------
  // Re-parsing a feed

  /**
   * Every `END:VEVENT` that emits a record landing in the window finds a
   * UID of its own in it; records outside the window may lack one.
   */
  predicate WindowNamed(env: Env, lines: seq<string>, now: int) {
    forall i :: 0 <= i < |lines| && lines[i] == "END:VEVENT" && Complete(Run(env, lines[..i]).current)
                && InWindow(Emit(env, Run(env, lines[..i]).current, |Run(env, lines[..i]).events|), now)
                ==> Truthy(Run(env, lines[..i]).current.uid)
  }

  /** A feed whose every event in the window carries a UID of its own. */
  predicate WindowNamedFeed(env: Env, text: string, now: int) {
    WindowNamed(env, ICalLines.UnfoldLines(text), now)
  }

  /** Two machines in the same state whose events agree inside the window. */
  predicate Agree(m1: Machine, m2: Machine, now: int) {
    && m1.inEvent == m2.inEvent && m1.current == m2.current
    && |m1.events| == |m2.events| && Window(m1.events, now) == Window(m2.events, now)
  }

  lemma WindowOne(e: Event, now: int)
    ensures Window([e], now) == if InWindow(e, now) then [e] else []
  {
    assert [e][..0] == [];
  }

  lemma StepAgrees(env1: Env, env2: Env, m1: Machine, m2: Machine, line: string, now: int)
    requires env1.offset == env2.offset && env1.fallback == env2.fallback
    requires Agree(m1, m2, now)
    requires line == "END:VEVENT" && Complete(m1.current) && InWindow(Emit(env1, m1.current, |m1.events|), now)
             ==> Truthy(m1.current.uid)
    ensures Agree(Step(env1, m1, line), Step(env2, m2, line), now)
  {
    SameReading(env1, env2, m1.current, ICalLines.PropertyOf(line));
    if line == "END:VEVENT" && Complete(m1.current) {
      var e1 := Emit(env1, m1.current, |m1.events|);
      var e2 := Emit(env2, m2.current, |m2.events|);
      WindowAppend(m1.events, [e1], now);
      WindowAppend(m2.events, [e2], now);
      WindowOne(e1, now);
      WindowOne(e2, now);
    }
  }

  lemma WindowNamedPrefix(env: Env, lines: seq<string>, n: nat, now: int)
    requires n <= |lines| && WindowNamed(env, lines, now)
    ensures WindowNamed(env, lines[..n], now)
  {
    var init := lines[..n];
    forall i | 0 <= i < |init| ensures init[i] == lines[i] && init[..i] == lines[..i] {
    }
  }

  /**
   * When every record landing in the window has its own UID, two runs that
   * read dates alike keep the same events in the window, whatever UIDs
   * they generate for the others.
   */
  lemma {:induction false} RunWindowIgnoresEntropy(env1: Env, env2: Env, lines: seq<string>, now: int)
    requires env1.offset == env2.offset && env1.fallback == env2.fallback
    requires WindowNamed(env1, lines, now)
    ensures Agree(Run(env1, lines), Run(env2, lines), now)
  {
    if lines == [] {
      assert Run(env1, lines).events == [] == Run(env2, lines).events;
    } else {
      var n := |lines| - 1;
      WindowNamedPrefix(env1, lines, n, now);
      RunWindowIgnoresEntropy(env1, env2, lines[..n], now);
      StepAgrees(env1, env2, Run(env1, lines[..n]), Run(env2, lines[..n]), lines[n], now);
    }
  }

  /** Such a feed keeps the same events in the window on every parse. */
  lemma WindowIgnoresEntropy(env1: Env, env2: Env, text: string, now: int)
    requires env1.offset == env2.offset && env1.fallback == env2.fallback
    requires WindowNamedFeed(env1, text, now)
    ensures Window(EventsOf(env1, text), now) == Window(EventsOf(env2, text), now)
  {
    RunWindowIgnoresEntropy(env1, env2, ICalLines.UnfoldLines(text), now);
  }

  /**
   * Syncing an unchanged feed a second time, at the same moment and with
   * fresh entropy, changes nothing once every event in the window carries
   * its own UID.
   */
  lemma FeedResyncChangesNothing(table: map<Key, Row>, calendar: int, userId: string,
                                 env1: Env, env2: Env, text: string, now: int)
    requires env1.offset == env2.offset && env1.fallback == env2.fallback
    requires WindowNamedFeed(env1, text, now)
    ensures var first := Window(EventsOf(env1, text), now);
            var second := Window(EventsOf(env2, text), now);
            var once := Reconcile(table, calendar, userId, first, AllSucceeded(|first|), true);
            Reconcile(once, calendar, userId, second, AllSucceeded(|second|), true) == once
  {
    WindowIgnoresEntropy(env1, env2, text, now);
    var first := Window(EventsOf(env1, text), now);
    assert AllTimed(first);
    ResyncChangesNothing(table, calendar, userId, first);
  }

  lemma ResyncRow(table: map<Key, Row>, calendar: int, userId: string, relevant: seq<Event>, k: Key)
    requires AllTimed(relevant)
    ensures var all := AllSucceeded(|relevant|);
            var once := Reconcile(table, calendar, userId, relevant, all, true);
            var twice := Reconcile(once, calendar, userId, relevant, all, true);
            (k in twice <==> k in once) && (k in once ==> twice[k] == once[k])
  {
    var all := AllSucceeded(|relevant|);
    var once := Reconcile(table, calendar, userId, relevant, all, true);
    ReconciledRow(table, calendar, userId, relevant, all, k);
    ReconciledRow(once, calendar, userId, relevant, all, k);
    EveryUidWritten(relevant, k.eventId);
  }

  /** The number of upserts that succeeded. */
  function Successes(outcomes: seq<bool>): (n: nat)
    ensures n <= |outcomes|
  {
    if outcomes == [] then 0
    else Successes(outcomes[..|outcomes| - 1]) + (if outcomes[|outcomes| - 1] then 1 else 0)
  }

  // ---------------------------------------------------------------------
  // The store and the endpoint

  /** The two tables the endpoint reads and writes. */
  class CalendarStore {
    var calendars: map<int, Calendar>
    var events: map<Key, Row>

    constructor(calendars: map<int, Calendar>, events: map<Key, Row>)
      ensures this.calendars == calendars && this.events == events
    {
      this.calendars := calendars;
      this.events := events;
    }

    /**
     * `upsert` on conflict `(calendar_id, event_id)`: the row under `key` is
     * inserted or overwritten, unless the database reports an error.
     */
    method Upsert(key: Key, row: Row) returns (ok: bool)
      modifies this
      ensures calendars == old(calendars)
      ensures events == if ok then old(events)[key := row] else old(events)
    {
      ok := *;
      if ok {
        events := events[key := row];
      }
    }

    /**
     * Lists the rows of `calendar` and deletes those whose UID is not in
     * `keep`. `pruned` is false when the listing comes back without data
     * or the delete reports an error (which the endpoint ignores): then
     * nothing is deleted.
     */
    method Prune(calendar: int, keep: set<string>) returns (pruned: bool)
      modifies this
      ensures calendars == old(calendars)
      ensures events == if pruned then PruneTable(old(events), calendar, keep) else old(events)
    {
      pruned := *;
      if pruned {
        events := PruneTable(events, calendar, keep);
      }
    }

    /** `update({ last_synced })` on the calendar `id`. */
    method TouchLastSynced(id: int, at: int)
      requires id in calendars
      modifies this
      ensures events == old(events)
      ensures calendars == old(calendars)[id := old(calendars)[id].(lastSynced := Some(at))]
    {
      calendars := calendars[id := calendars[id].(lastSynced := Some(at))];
    }
  }

  /** A `calendarId` that JavaScript treats as true: present and not 0. */
  predicate IdGiven(id: Option<int>) {
    id.Some? && id.value != 0
  }

  /**
   * The early answers, in the order the endpoint checks them: no or empty
   * authorization header, or a token the auth service rejects, is 401; no
   * `calendarId` 400; an unknown calendar 404; a calendar without a feed
   * URL 400; and a fetch or parse that throws 500. None when the sync runs.
   */
  function Refusal(req: Request, calendars: map<int, Calendar>, fetch: string -> Feed): Option<Response>
  {
    if !Truthy(req.authHeader) || !req.signedIn then Some(Failure(401, "Unauthorized"))
    else if !IdGiven(req.calendarId) then Some(Failure(400, "calendarId is required"))
    else if req.calendarId.value !in calendars then Some(Failure(404, "Calendar not found"))
    else if !Truthy(calendars[req.calendarId.value].url) then Some(Failure(400, "Calendar has no feed URL to sync"))
    else
      var feed := fetch(calendars[req.calendarId.value].url.value);
      if feed.Thrown? then Some(Failure(500, "Failed to sync calendar: " + feed.message)) else None
  }

  /**
   * The sync runs exactly when every guard passes: a non-empty header the
   * auth service accepts, a non-zero `calendarId` of a known calendar with
   * a feed URL, and a fetch that does not throw.
   */
  lemma SyncRunsIff(req: Request, calendars: map<int, Calendar>, fetch: string -> Feed)
    ensures Refusal(req, calendars, fetch).None?
        <==> && Truthy(req.authHeader) && req.signedIn && IdGiven(req.calendarId)
             && req.calendarId.value in calendars && Truthy(calendars[req.calendarId.value].url)
             && fetch(calendars[req.calendarId.value].url.value).Fetched?
  {
  }

  /** Every refusal is one of the five error answers, with its status. */
  lemma RefusalStatus(req: Request, calendars: map<int, Calendar>, fetch: string -> Feed)
    ensures var r := Refusal(req, calendars, fetch);
            r.Some? ==> r.value.Failure? && r.value.status in {400, 401, 404, 500}
  {
  }

  /**
   * The state and answer a sync of calendar `id` leaves, from the tables
   * before it and the kept events: the counts of the upserts, the rows
   * reconciled with the window, and `last_synced` stamped with `now`.
   */
  ghost predicate Synced(calendars: map<int, Calendar>, table: map<Key, Row>, id: int, relevant: seq<Event>, now: int,
                         response: Response, outcomes: seq<bool>, pruned: bool,
                         calendars': map<int, Calendar>, table': map<Key, Row>)
    requires id in calendars
  {
    && |outcomes| == |relevant| && AllTimed(relevant)
    && response == Success(Successes(outcomes), |relevant| - Successes(outcomes), |relevant|)
    && table' == Reconcile(table, id, calendars[id].userId, relevant, outcomes, pruned)
    && calendars' == calendars[id := calendars[id].(lastSynced := Some(now))]
  }

  /**
   * `POST /api/calendar/sync`: the guards answer without writing anything;
   * otherwise every kept event is upserted, failures counted and skipped,
   * the stale rows pruned and `last_synced` stamped. `now` is the clock
   * reading the window and the stamp are made from, `fetch` the network,
   * and the ghost results record the parsed events, which upserts the
   * database accepted and whether the prune took effect.
   */
  method SyncCalendar(store: CalendarStore, req: Request, fetch: string -> Feed, env: Env, now: int)
    returns (response: Response, ghost parsed: seq<Event>, ghost outcomes: seq<bool>, ghost pruned: bool)
    modifies store
    ensures var refusal := Refusal(req, old(store.calendars), fetch);
            refusal.Some? ==> response == refusal.value && unchanged(store)
    ensures var refusal := Refusal(req, old(store.calendars), fetch);
            refusal.None? ==>
              var id := req.calendarId.value;
              && parsed == EventsOf(env, fetch(old(store.calendars)[id].url.value).text)
              && Synced(old(store.calendars), old(store.events), id, Window(parsed, now), now,
                        response, outcomes, pruned, store.calendars, store.events)
  {
    parsed, outcomes, pruned := [], [], false;
    var refusal := Refusal(req, store.calendars, fetch);
    if refusal.Some? {
      return refusal.value, parsed, outcomes, pruned;
    }
    var id := req.calendarId.value;
    var feed := fetch(store.calendars[id].url.value);
    response, parsed, outcomes, pruned := SyncText(store, id, feed.text, env, now);
  }

  /** The feed text parsed into events, then synced. */
  method SyncText(store: CalendarStore, id: int, text: string, env: Env, now: int)
    returns (response: Response, ghost parsed: seq<Event>, ghost outcomes: seq<bool>, ghost pruned: bool)
    requires id in store.calendars
    modifies store
    ensures parsed == EventsOf(env, text)
    ensures Synced(old(store.calendars), old(store.events), id, Window(parsed, now), now,
                   response, outcomes, pruned, store.calendars, store.events)
  {
    var events := ParseICal(env, text);
    parsed := events;
    response, outcomes, pruned := SyncFeed(store, id, events, now);
  }

  /**
   * The sync proper, once the calendar `id` is known and its feed parsed:
   * keep the window, upsert, prune and stamp.
   */
  method SyncFeed(store: CalendarStore, id: int, events: seq<Event>, now: int)
    returns (response: Response, ghost outcomes: seq<bool>, ghost pruned: bool)
    requires id in store.calendars
    modifies store
    ensures Synced(old(store.calendars), old(store.events), id, Window(events, now), now,
                   response, outcomes, pruned, store.calendars, store.events)
  {
    var calendar := store.calendars[id];
    ghost var table := store.events;
    var relevant := Window(events, now);
    var synced, errors;
    synced, errors, outcomes := UpsertAll(store, id, calendar.userId, relevant);
    pruned := store.Prune(id, Uids(relevant));
    assert store.events == Reconcile(table, id, calendar.userId, relevant, outcomes, pruned);
    store.TouchLastSynced(id, now);
    response := Success(synced, errors, |relevant|);
  }

  /**
   * Upserts the kept events one at a time, counting the upserts the
   * database accepts and those it reports an error for; an error does not
   * stop the loop.
   */
  method UpsertAll(store: CalendarStore, calendar: int, userId: string, relevant: seq<Event>)
    returns (synced: nat, errors: nat, ghost outcomes: seq<bool>)
    requires AllTimed(relevant)
    modifies store
    ensures |outcomes| == |relevant| && synced == Successes(outcomes) && synced + errors == |relevant|
    ensures store.calendars == old(store.calendars)
    ensures store.events == ApplyUpserts(old(store.events), calendar, userId, relevant, outcomes)
  {
    synced, errors, outcomes := 0, 0, [];
    for i := 0 to |relevant|
      invariant |outcomes| == i && synced == Successes(outcomes) && synced + errors == i
      invariant store.calendars == old(store.calendars)
      invariant store.events == ApplyUpserts(old(store.events), calendar, userId, relevant[..i], outcomes)
    {
      var e := relevant[i];
      var ok := store.Upsert(Key(calendar, e.uid), RowOf(userId, e));
      UpsertStep(old(store.events), calendar, userId, relevant, outcomes, ok, i);
      outcomes := outcomes + [ok];
      if ok {
        synced := synced + 1;
      } else {
        errors := errors + 1;
      }
    }
    assert relevant[..|relevant|] == relevant;
  }

  /** One more upsert extends the table of the earlier ones. */
  lemma UpsertStep(table: map<Key, Row>, calendar: int, userId: string,
                   relevant: seq<Event>, outcomes: seq<bool>, ok: bool, i: nat)
    requires i < |relevant| && |outcomes| == i && AllTimed(relevant)
    ensures AllTimed(relevant[..i]) && AllTimed(relevant[..i + 1])
    ensures var after := ApplyUpserts(table, calendar, userId, relevant[..i + 1], outcomes + [ok]);
            var before := ApplyUpserts(table, calendar, userId, relevant[..i], outcomes);
            after == if ok then before[Key(calendar, relevant[i].uid) := RowOf(userId, relevant[i])] else before
    ensures Successes(outcomes + [ok]) == Successes(outcomes) + (if ok then 1 else 0)
  {
    assert relevant[..i + 1][..i] == relevant[..i];
    assert (outcomes + [ok])[..i] == outcomes;
  }
}
