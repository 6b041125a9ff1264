/** The scheduler from outside: which calls its clients made, what they were told and which callbacks
    ran, without a look at the map, the heap or the state of any client. */
module SchedulerHistory {
  import opened ObjectIndexes
  import opened ExpireHeap
  import opened Scheduler

  /** What goes over the channels, and the calls. */
  datatype Act =
    | Called(c: nat, key: ObjectID, callback: nat)
    | Accepted(c: nat, x: ExpireTime)
    | Stored(c: nat, key: ObjectID, callback: nat)
    | Expired(x: ExpireTime)
    | CacheCleared
    | HeapCleared
    | Replied(c: nat, key: ObjectID, ok: bool)
    | Other

  ghost function ActOf(s: State, e: Step): Act
    requires Enabled(s, e)
  {
    match e
    case CallAddEvent(c, time) => Called(c, time.key, s.nextCallback)
    case NewExpireTime(c) => Accepted(c, s.clients[c].time)
    case SetRequest(c) => Stored(c, s.clients[c].key, s.clients[c].callback)
    case DeleteRequest => Expired(s.expires.next)
    case CleanupRequest(_) => CacheCleared
    case CleanupExpiresRequest(_) => HeapCleared
    case ContainsResponse(c) => Replied(c, s.clients[c].key, s.storage.ok)
    case _ => Other
  }

  ghost function Acts(s: State, es: seq<Step>): (r: seq<Act>)
    requires CanRun(s, es)
    ensures |r| == |es|
    decreases |es|
  {
    if es == [] then [] else [ActOf(s, es[0])] + Acts(Next(s, es[0]), es[1..])
  }

  /** The act ends what was scheduled for key. */
  predicate Ends(a: Act, key: ObjectID) {
    a.CacheCleared? || (a.Expired? && a.x.key == key) || (a.Stored? && a.key == key)
  }

  /** The callback is the last one scheduled for key, and nothing has ended that since. */
  ghost predicate Pending(acts: seq<Act>, key: ObjectID, callback: nat) {
    exists i, c :: 0 <= i < |acts| && acts[i] == Stored(c, key, callback)
                   && forall j :: i < j < |acts| ==> !Ends(acts[j], key)
  }

  /** How often an expiry was accepted and has not expired since the last cleanup of the heap. */
  function Outstanding(acts: seq<Act>, x: ExpireTime): int {
    if acts == [] then 0
    else
      var before, a := Outstanding(acts[..|acts| - 1], x), acts[|acts| - 1];
      match a
      case Accepted(_, y) => if x == y then before + 1 else before
      case Expired(y) => if x == y then before - 1 else before
      case HeapCleared => 0
      case _ => before
  }

  /** The callback was pending for some key when that key expired. */
  ghost predicate Fired(acts: seq<Act>, callback: nat) {
    exists j :: 0 <= j < |acts| && acts[j].Expired? && Pending(acts[..j], acts[j].x.key, callback)
  }

  ghost predicate CacheIs(s: State, acts: seq<Act>) {
    forall k, f :: (k in s.cache && s.cache[k] == f) <==> Pending(acts, k, f)
  }

  ghost predicate RunsAre(s: State, acts: seq<Act>) {
    forall f :: f in s.runs <==> Fired(acts, f)
  }

  ghost predicate HeapIs(s: State, acts: seq<Act>) {
    forall x :: s.heap[x] == Outstanding(acts, x)
  }

  /** What expired was outstanding, and nothing that was expires earlier. */
  ghost predicate LeastFirst(acts: seq<Act>) {
    forall j :: 0 <= j < |acts| && acts[j].Expired? ==> Least(acts[..j], acts[j].x)
  }

  ghost predicate Least(acts: seq<Act>, x: ExpireTime) {
    Outstanding(acts, x) > 0 && forall y :: Outstanding(acts, y) > 0 ==> x.expires <= y.expires
  }

  /** Every answer so far says whether a callback was pending for the key when it was given; one that is
      about to be given does. */
  ghost predicate RepliesTrue(s: State, acts: seq<Act>) {
    && (s.storage.Responding? ==>
          s.asker < |s.clients| && s.clients[s.asker].Awaiting?
          && (s.storage.ok <==> s.clients[s.asker].key in s.cache))
    && forall j :: 0 <= j < |acts| && acts[j].Replied? ==>
         (acts[j].ok <==> exists f :: Pending(acts[..j], acts[j].key, f))
  }

  /** Callbacks are those of calls, of the same client and for the same key; no two calls share one. */
  ghost predicate CallsKnown(s: State, acts: seq<Act>) {
    && (forall c :: 0 <= c < |s.clients| && s.clients[c].Adding? ==>
          Called(c, s.clients[c].time.key, s.clients[c].callback) in acts)
    && (forall c :: 0 <= c < |s.clients| && s.clients[c].Setting? ==>
          Called(c, s.clients[c].key, s.clients[c].callback) in acts)
    && (forall j :: 0 <= j < |acts| && acts[j].Stored? ==>
          Called(acts[j].c, acts[j].key, acts[j].callback) in acts)
    && (forall j :: 0 <= j < |acts| && acts[j].Called? ==> acts[j].callback < s.nextCallback)
    && (forall i, j :: 0 <= i < j < |acts| && acts[i].Called? && acts[j].Called? ==>
          acts[i].callback != acts[j].callback)
  }

  ghost predicate Agrees(s: State, acts: seq<Act>) {
    && CacheIs(s, acts) && RunsAre(s, acts) && HeapIs(s, acts) && LeastFirst(acts)
    && RepliesTrue(s, acts) && CallsKnown(s, acts)
  }

  /* ---------- One more act ---------- */

  lemma PendingSnoc(acts: seq<Act>, a: Act, key: ObjectID, f: nat)
    ensures Pending(acts + [a], key, f)
       <==> (a.Stored? && a.key == key && a.callback == f) || (Pending(acts, key, f) && !Ends(a, key))
  {
    var now := acts + [a];
    if Pending(acts, key, f) && !Ends(a, key) {
      var i, c :| 0 <= i < |acts| && acts[i] == Stored(c, key, f)
                  && forall j :: i < j < |acts| ==> !Ends(acts[j], key);
      assert now[i] == Stored(c, key, f);
    }
    if a.Stored? && a.key == key && a.callback == f {
      assert now[|acts|] == Stored(a.c, key, f);
    }
    if Pending(now, key, f) {
      var i, c :| 0 <= i < |now| && now[i] == Stored(c, key, f)
                  && forall j :: i < j < |now| ==> !Ends(now[j], key);
      if i < |acts| {
        assert acts[i] == Stored(c, key, f);
        assert forall j :: i < j < |acts| ==> now[j] == acts[j];
        assert now[|acts|] == a;
      }
    }
  }

  lemma FiredSnoc(acts: seq<Act>, a: Act, f: nat)
    ensures Fired(acts + [a], f) <==> Fired(acts, f) || (a.Expired? && Pending(acts, a.x.key, f))
  {
    hide Pending;
    var now := acts + [a];
    assert now[..|acts|] == acts && now[|acts|] == a;
    assert forall j :: 0 <= j < |acts| ==> now[..j] == acts[..j] && now[j] == acts[j];
    if Fired(acts, f) {
      var j :| 0 <= j < |acts| && acts[j].Expired? && Pending(acts[..j], acts[j].x.key, f);
      assert now[j].Expired? && Pending(now[..j], now[j].x.key, f);
    }
  }

  lemma StepKeepsCache(s: State, e: Step, acts: seq<Act>)
    requires Enabled(s, e) && CacheIs(s, acts)
    ensures CacheIs(Next(s, e), acts + [ActOf(s, e)])
  {
    hide Pending, Drop;
    var t := Next(s, e);
    forall k, f ensures (k in t.cache && t.cache[k] == f) <==> Pending(acts + [ActOf(s, e)], k, f) {
      PendingSnoc(acts, ActOf(s, e), k, f);
    }
  }

  lemma StepKeepsRuns(s: State, e: Step, acts: seq<Act>)
    requires Enabled(s, e) && CacheIs(s, acts) && RunsAre(s, acts)
    ensures RunsAre(Next(s, e), acts + [ActOf(s, e)])
  {
    hide Pending, Fired, Drop;
    var t := Next(s, e);
    forall f ensures f in t.runs <==> Fired(acts + [ActOf(s, e)], f) {
      FiredSnoc(acts, ActOf(s, e), f);
      if e.DeleteRequest? {
        var k := s.expires.next.key;
        assert (k in s.cache && s.cache[k] == f) <==> Pending(acts, k, f);
      }
    }
  }

  lemma OutstandingSnoc(acts: seq<Act>, a: Act, x: ExpireTime)
    ensures Outstanding(acts + [a], x)
         == match a
            case Accepted(_, y) => Outstanding(acts, x) + (if x == y then 1 else 0)
            case Expired(y) => Outstanding(acts, x) - (if x == y then 1 else 0)
            case HeapCleared => 0
            case _ => Outstanding(acts, x)
  {
    assert (acts + [a])[..|acts|] == acts;
  }

  lemma StepKeepsHeap(s: State, e: Step, acts: seq<Act>)
    requires Enabled(s, e) && HeapIs(s, acts) && ExpiriesBalance(s)
    ensures HeapIs(Next(s, e), acts + [ActOf(s, e)])
  {
    hide Drop, Outstanding, Next, Enabled, ExpiriesBalance, ActOf;
    var a, t := ActOf(s, e), Next(s, e);
    NextHeap(s, e);
    forall x ensures t.heap[x] == Outstanding(acts + [a], x) {
      OutstandingSnoc(acts, a, x);
      assert s.heap[x] == Outstanding(acts, x);
    }
  }

  lemma StepKeepsLeast(s: State, e: Step, acts: seq<Act>)
    requires Enabled(s, e) && HeapIs(s, acts) && ExpiriesBalance(s) && LeastFirst(acts)
    ensures LeastFirst(acts + [ActOf(s, e)])
  {
    hide Outstanding;
    var a, now := ActOf(s, e), acts + [ActOf(s, e)];
    if e.DeleteRequest? {
      var x := s.expires.next;
      assert s.heap[x] == Outstanding(acts, x) && x in s.heap;
      forall y | Outstanding(acts, y) > 0 ensures x.expires <= y.expires {
        assert s.heap[y] == Outstanding(acts, y) && y in s.heap;
      }
      assert Least(acts, x);
    }
    hide Least;
    forall j | 0 <= j < |now| && now[j].Expired? ensures Least(now[..j], now[j].x) {
      if j < |acts| {
        assert now[..j] == acts[..j] && now[j] == acts[j];
      } else {
        assert now[..j] == acts;
      }
    }
  }

  lemma NextHeap(s: State, e: Step)
    requires Enabled(s, e) && ExpiriesBalance(s)
    ensures forall x :: Next(s, e).heap[x]
                        == match ActOf(s, e)
                           case Accepted(_, y) => s.heap[x] + (if x == y then 1 else 0)
                           case Expired(y) => s.heap[x] - (if x == y then 1 else 0)
                           case HeapCleared => 0
                           case _ => s.heap[x]
  {
    hide Drop;
  }

  lemma StepKeepsReplies(s: State, e: Step, acts: seq<Act>)
    requires Enabled(s, e) && AnswersMatch(s) && CacheIs(s, acts) && RepliesTrue(s, acts)
    ensures RepliesTrue(Next(s, e), acts + [ActOf(s, e)])
  {
    hide Pending, Drop, CacheIs;
    var a, now := ActOf(s, e), acts + [ActOf(s, e)];
    assert now[..|acts|] == acts && now[|acts|] == a;
    assert forall j :: 0 <= j < |acts| ==> now[..j] == acts[..j] && now[j] == acts[j];
    if e.ContainsResponse? {
      InCache(s, acts, s.clients[e.c].key);
    }
  }

  lemma InCache(s: State, acts: seq<Act>, key: ObjectID)
    requires CacheIs(s, acts)
    ensures key in s.cache <==> exists f :: Pending(acts, key, f)
  {
    hide Pending;
    if key in s.cache {
      assert Pending(acts, key, s.cache[key]);
    }
  }

  lemma StepKeepsCalls(s: State, e: Step, acts: seq<Act>)
    requires Enabled(s, e) && CallsKnown(s, acts)
    ensures CallsKnown(Next(s, e), acts + [ActOf(s, e)])
  {
    hide Drop;
    var a, now := ActOf(s, e), acts + [ActOf(s, e)];
    assert now[|acts|] == a && forall j :: 0 <= j < |acts| ==> now[j] == acts[j];
    assert forall b :: b in acts ==> b in now;
    assert a in now;
  }

  lemma {:induction false} RunAgrees(s: State, es: seq<Step>, acts: seq<Act>)
    requires Inv(s) && CanRun(s, es) && Agrees(s, acts)
    ensures Agrees(Run(s, es), acts + Acts(s, es))
    decreases |es|
  {
    hide Inv, CacheIs, RunsAre, HeapIs, LeastFirst, RepliesTrue, CallsKnown, Next, Enabled;
    if es == [] {
      assert acts + Acts(s, es) == acts;
    } else {
      var e, t := es[0], Next(s, es[0]);
      InvParts(s);
      StepKeepsCache(s, e, acts);
      StepKeepsRuns(s, e, acts);
      StepKeepsHeap(s, e, acts);
      StepKeepsLeast(s, e, acts);
      StepKeepsReplies(s, e, acts);
      StepKeepsCalls(s, e, acts);
      StepKeepsInv(s, e);
      RunAgrees(t, es[1..], acts + [ActOf(s, e)]);
      assert acts + Acts(s, es) == acts + [ActOf(s, e)] + Acts(t, es[1..]);
    }
  }

  lemma InvParts(s: State)
    requires Inv(s)
    ensures AnswersMatch(s) && ExpiriesBalance(s)
  {
  }

  lemma InitialAgrees(n: nat)
    ensures Agrees(Initial(n), [])
  {
  }

  /* ---------- What an observer can rely on ---------- */

  /** Over every interleaving of any number of clients: exactly those callbacks have run that were
      pending for a key when the key expired; every answer says whether a callback was pending for its
      key; the heap holds what was accepted and has not expired, and what expires is the earliest of it;
      and every callback that was scheduled is that of a call, of the same client and for the same key. */
  lemma HistoryHolds(n: nat, es: seq<Step>)
    requires CanRun(Initial(n), es)
    ensures var s, acts := Run(Initial(n), es), Acts(Initial(n), es);
            && (forall f :: f in s.runs <==> Fired(acts, f))
            && (forall j :: 0 <= j < |acts| && acts[j].Replied? ==>
                  (acts[j].ok <==> exists f :: Pending(acts[..j], acts[j].key, f)))
            && (forall x :: s.heap[x] == Outstanding(acts, x))
            && (forall j :: 0 <= j < |acts| && acts[j].Expired? ==> Least(acts[..j], acts[j].x))
            && (forall j :: 0 <= j < |acts| && acts[j].Stored? ==>
                  Called(acts[j].c, acts[j].key, acts[j].callback) in acts)
            && (forall i, j :: 0 <= i < j < |acts| && acts[i].Called? && acts[j].Called? ==>
                  acts[i].callback != acts[j].callback)
  {
    hide Pending, Fired, Initial;
    InitialInv(n);
    InitialAgrees(n);
    RunAgrees(Initial(n), es, []);
    assert [] + Acts(Initial(n), es) == Acts(Initial(n), es);
  }

  /** A callback in the map leaves it in no other way than by running, if neither a cleanup nor another
      AddEvent for its key comes in between. */
  lemma LeavesByRunning(n: nat, es: seq<Step>, more: seq<Step>, k: ObjectID, f: nat)
    requires CanRun(Initial(n), es) && CanRun(Run(Initial(n), es), more)
    requires var s := Run(Initial(n), es); k in s.cache && s.cache[k] == f
    requires var t := Run(Run(Initial(n), es), more); !(k in t.cache && t.cache[k] == f)
    requires forall a :: a in Acts(Run(Initial(n), es), more) ==>
               !a.CacheCleared? && !(a.Stored? && a.key == k)
    ensures f in Run(Run(Initial(n), es), more).runs
  {
    hide Initial;
    StaysOrRuns(Run(Initial(n), es), more, k, f);
  }

  lemma {:induction false} StaysOrRuns(s: State, es: seq<Step>, k: ObjectID, f: nat)
    requires CanRun(s, es) && ((k in s.cache && s.cache[k] == f) || f in s.runs)
    requires forall a :: a in Acts(s, es) ==> !a.CacheCleared? && !(a.Stored? && a.key == k)
    ensures var t := Run(s, es); (k in t.cache && t.cache[k] == f) || f in t.runs
    decreases |es|
  {
    hide Drop;
    if es != [] {
      var t := Next(s, es[0]);
      assert Acts(s, es)[0] == ActOf(s, es[0]);
      assert ActOf(s, es[0]) in Acts(s, es);
      assert forall a :: a in Acts(t, es[1..]) ==> a in Acts(s, es);
      StaysOrRuns(t, es[1..], k, f);
    }
  }

  /** The callbacks that have run are those whose place says so. */
  ghost predicate RunPlaces(s: State) {
    forall f :: f in s.runs <==> IsAt(s, f, HasRun)
  }

  lemma StepKeepsRunPlaces(s: State, e: Step)
    requires Inv(s) && Enabled(s, e) && RunPlaces(s)
    ensures RunPlaces(Next(s, e))
  {
    hide Inv, Next, Enabled, IsAt;
    forall f ensures f in Next(s, e).runs <==> IsAt(Next(s, e), f, HasRun) {
      assert f in s.runs <==> IsAt(s, f, HasRun);
      if f in s.runs {
        RunStays(s, e, f);
      } else {
        RunsNow(s, e, f);
      }
    }
  }

  lemma RunStays(s: State, e: Step, f: nat)
    requires Inv(s) && Enabled(s, e) && f in s.runs && IsAt(s, f, HasRun)
    ensures f in Next(s, e).runs && IsAt(Next(s, e), f, HasRun)
  {
    StepKeepsOver(s, e, f);
    hide Inv, Drop, First;
  }

  lemma RunsNow(s: State, e: Step, f: nat)
    requires Enabled(s, e) && f !in s.runs && !IsAt(s, f, HasRun)
    ensures f in Next(s, e).runs <==> IsAt(Next(s, e), f, HasRun)
  {
    hide First;
  }

  lemma {:induction false} RunKeepsRunPlaces(s: State, es: seq<Step>)
    requires Inv(s) && CanRun(s, es) && RunPlaces(s)
    ensures RunPlaces(Run(s, es))
    decreases |es|
  {
    hide Inv, Next, Enabled, RunPlaces;
    if es != [] {
      StepKeepsInv(s, es[0]);
      StepKeepsRunPlaces(s, es[0]);
      RunKeepsRunPlaces(Next(s, es[0]), es[1..]);
    }
  }

  lemma RunIffPlace(n: nat, es: seq<Step>, f: nat)
    requires CanRun(Initial(n), es)
    ensures f in Run(Initial(n), es).runs <==> IsAt(Run(Initial(n), es), f, HasRun)
  {
    InitialInv(n);
    RunKeepsRunPlaces(Initial(n), es);
  }

  /* ---------- The clients ---------- */

  /** The client that takes part in a step. */
  function ClientOf(e: Step): Option<nat> {
    match e
    case Tick(_) => None
    case IdleTick => None
    case DeleteRequest => None
    case _ => Some(e.c)
  }

  /** The steps of one client. */
  function Own(es: seq<Step>, c: nat): seq<Step> {
    if es == [] then []
    else
      var e := es[|es| - 1];
      if ClientOf(e) == Some(c) then Own(es[..|es| - 1], c) + [e] else Own(es[..|es| - 1], c)
  }

  /** Whole calls, one after the other: AddEvent sends the expiry and then the callback, Contains its key
      and then waits, Cleanup clears the map and then the heap. */
  predicate Calls(own: seq<Step>, c: nat) {
    var n := |own|;
    || n == 0
    || (n >= 3 && own[n - 3].CallAddEvent? && own[n - 2] == NewExpireTime(c) && own[n - 1] == SetRequest(c)
        && Calls(own[..n - 3], c))
    || (n >= 3 && own[n - 3].CallContains? && own[n - 2] == ContainsRequest(c) && own[n - 1] == ContainsResponse(c)
        && Calls(own[..n - 3], c))
    || (n >= 3 && own[n - 3].CallCleanup? && own[n - 2] == CleanupRequest(c) && own[n - 1] == CleanupExpiresRequest(c)
        && Calls(own[..n - 3], c))
  }

  /** How far a client is in its last call. */
  predicate Phase(own: seq<Step>, c: nat, a: Client) {
    var n := |own|;
    match a
    case Idle => Calls(own, c)
    case Adding(time, _) => n >= 1 && own[n - 1] == CallAddEvent(c, time) && Calls(own[..n - 1], c)
    case Setting(key, _) =>
      && n >= 2 && own[n - 2].CallAddEvent? && own[n - 2].time.key == key && own[n - 1] == NewExpireTime(c)
      && Calls(own[..n - 2], c)
    case Asking(key) => n >= 1 && own[n - 1] == CallContains(c, key) && Calls(own[..n - 1], c)
    case Awaiting(key, _) =>
      n >= 2 && own[n - 2] == CallContains(c, key) && own[n - 1] == ContainsRequest(c) && Calls(own[..n - 2], c)
    case ClearingCache => n >= 1 && own[n - 1] == CallCleanup(c) && Calls(own[..n - 1], c)
    case ClearingHeap =>
      n >= 2 && own[n - 2] == CallCleanup(c) && own[n - 1] == CleanupRequest(c) && Calls(own[..n - 2], c)
  }

  lemma OwnSnoc(es: seq<Step>, e: Step, c: nat)
    ensures Own(es + [e], c) == if ClientOf(e) == Some(c) then Own(es, c) + [e] else Own(es, c)
  {
    assert (es + [e])[..|es|] == es;
  }

  lemma StepKeepsPhase(s: State, e: Step, own: seq<Step>, c: nat)
    requires Enabled(s, e) && c < |s.clients| && Phase(own, c, s.clients[c])
    ensures |Next(s, e).clients| == |s.clients|
    ensures Phase(if ClientOf(e) == Some(c) then own + [e] else own, c, Next(s, e).clients[c])
  {
    hide Drop, First, Calls;
    if ClientOf(e) == Some(c) {
      var now, n := own + [e], |own|;
      assert now[..n] == own;
      if n >= 1 { assert now[..n - 1] == own[..n - 1] && now[n - 1] == own[n - 1]; }
      if n >= 2 {
        assert now[..n - 2] == own[..n - 2] && now[n - 2] == own[n - 2];
        if Calls(own[..n - 2], c) { CallsEnd(now, c); }
      }
    }
  }

  lemma CallsEnd(own: seq<Step>, c: nat)
    requires |own| >= 3 && Calls(own[..|own| - 3], c)
    ensures var n := |own|;
            || (own[n - 3].CallAddEvent? && own[n - 2] == NewExpireTime(c) && own[n - 1] == SetRequest(c))
            || (own[n - 3].CallContains? && own[n - 2] == ContainsRequest(c) && own[n - 1] == ContainsResponse(c))
            || (own[n - 3].CallCleanup? && own[n - 2] == CleanupRequest(c) && own[n - 1] == CleanupExpiresRequest(c))
            ==> Calls(own, c)
  {
  }

  lemma {:induction false} RunKeepsPhase(s: State, es: seq<Step>, done: seq<Step>, c: nat)
    requires CanRun(s, es) && c < |s.clients| && Phase(Own(done, c), c, s.clients[c])
    ensures |Run(s, es).clients| == |s.clients|
    ensures Phase(Own(done + es, c), c, Run(s, es).clients[c])
    decreases |es|
  {
    hide Phase, Next, Enabled, Own;
    if es == [] {
      assert done + es == done;
    } else {
      OwnSnoc(done, es[0], c);
      StepKeepsPhase(s, es[0], Own(done, c), c);
      RunKeepsPhase(Next(s, es[0]), es[1..], done + [es[0]], c);
      assert done + es == (done + [es[0]]) + es[1..];
    }
  }

  /** The steps of every client are its calls, each carried out in full and in order before the next one;
      only the last one may still be going on. */
  lemma CallsCarriedOut(n: nat, es: seq<Step>, c: nat)
    requires CanRun(Initial(n), es) && c < n
    ensures c < |Run(Initial(n), es).clients| && Phase(Own(es, c), c, Run(Initial(n), es).clients[c])
  {
    hide Phase;
    FirstPhase(n, c);
    RunKeepsPhase(Initial(n), es, [], c);
    assert [] + es == es;
  }

  lemma FirstPhase(n: nat, c: nat)
    requires c < n
    ensures Phase(Own([], c), c, Initial(n).clients[c])
  {
  }
}
