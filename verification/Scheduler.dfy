/** The scheduler as a step system: two goroutines with an event loop each, any number of
    clients, and unbuffered channels, on which a send and its receive are one step. */
module Scheduler {
  import opened ObjectIndexes
  import opened ExpireHeap

  /** What a client is about to do. Every call of AddEvent has a callback of its own. */
  datatype Client =
    | Idle
    | Adding(time: ExpireTime, callback: nat)     // before newExpireTime
    | Setting(key: ObjectID, callback: nat)       // before setRequest
    | Asking(key: ObjectID)                       // before containsRequest
    | Awaiting(key: ObjectID, truth: bool)        // before containsResponse; what the answer should be
    | ClearingCache                               // before cleanupRequest
    | ClearingHeap                                // before cleanupExpiresRequest

  /** Where the callback of an AddEvent is. */
  datatype Place = WithClient(c: nat) | Scheduled(key: ObjectID) | HasRun | Dropped

  /** storageHandler: in its select, or about to send an answer. */
  datatype StorageHandler = AtSelect | Responding(ok: bool)

  /** expiresHandler: in its select, or about to send the key of the earliest expiry. */
  datatype ExpiresHandler = Waiting | Deleting(next: ExpireTime)

  datatype State = State(
    clients: seq<Client>,
    storage: StorageHandler,
    cache: map<ObjectID, nat>,
    expires: ExpiresHandler,
    heap: multiset<ExpireTime>,
    // history
    nextCallback: nat,
    places: map<nat, Place>,
    runs: seq<nat>,
    asker: nat,
    accepted: multiset<ExpireTime>,
    fired: multiset<ExpireTime>,
    answers: seq<(bool, bool)>)

  datatype Step =
    | CallAddEvent(c: nat, time: ExpireTime)
    | CallContains(c: nat, key: ObjectID)
    | CallCleanup(c: nat)
    | NewExpireTime(c: nat)
    | SetRequest(c: nat)
    | ContainsRequest(c: nat)
    | ContainsResponse(c: nat)
    | CleanupRequest(c: nat)
    | CleanupExpiresRequest(c: nat)
    | Tick(next: ExpireTime)
    | IdleTick
    | DeleteRequest

  function Initial(n: nat): State {
    State(seq(n, _ => Idle), AtSelect, map[], Waiting, multiset{}, 0, map[], [], 0, multiset{}, multiset{}, [])
  }

  ghost predicate Enabled(s: State, e: Step) {
    match e
    case CallAddEvent(c, _) => c < |s.clients| && s.clients[c].Idle?
    case CallContains(c, _) => c < |s.clients| && s.clients[c].Idle?
    case CallCleanup(c) => c < |s.clients| && s.clients[c].Idle?
    case NewExpireTime(c) => c < |s.clients| && s.clients[c].Adding? && s.expires.Waiting?
    case SetRequest(c) => c < |s.clients| && s.clients[c].Setting? && s.storage.AtSelect?
    case ContainsRequest(c) => c < |s.clients| && s.clients[c].Asking? && s.storage.AtSelect?
    case ContainsResponse(c) => c < |s.clients| && s.clients[c].Awaiting? && s.storage.Responding?
    case CleanupRequest(c) => c < |s.clients| && s.clients[c].ClearingCache? && s.storage.AtSelect?
    case CleanupExpiresRequest(c) => c < |s.clients| && s.clients[c].ClearingHeap? && s.expires.Waiting?
    case Tick(next) => s.expires.Waiting? && First(s.heap, next)
    case IdleTick => s.expires.Waiting? && s.heap == multiset{}
    case DeleteRequest => s.expires.Deleting? && s.storage.AtSelect?
  }

  /** The element that a heap with these elements may have in front: see ExpireHeap. */
  ghost predicate First(heap: multiset<ExpireTime>, next: ExpireTime) {
    next in heap && forall x :: x in heap ==> next.expires <= x.expires
  }

  /** The callbacks that a step throws out of the cache are dropped. */
  function Drop(places: map<nat, Place>, callbacks: set<nat>): map<nat, Place> {
    map f | f in places :: if f in callbacks then Dropped else places[f]
  }

  function Callbacks(cache: map<ObjectID, nat>, key: ObjectID): set<nat> {
    if key in cache then {cache[key]} else {}
  }

  ghost function Next(s: State, e: Step): State
    requires Enabled(s, e)
  {
    match e
    case CallAddEvent(c, time) =>
      s.(clients := s.clients[c := Adding(time, s.nextCallback)], nextCallback := s.nextCallback + 1,
         places := s.places[s.nextCallback := WithClient(c)])
    case CallContains(c, key) => s.(clients := s.clients[c := Asking(key)])
    case CallCleanup(c) => s.(clients := s.clients[c := ClearingCache])
    case NewExpireTime(c) =>
      var a := s.clients[c];
      s.(clients := s.clients[c := Setting(a.time.key, a.callback)],
         heap := s.heap + multiset{a.time}, accepted := s.accepted + multiset{a.time})
    case SetRequest(c) =>
      var a := s.clients[c];
      s.(clients := s.clients[c := Idle], cache := s.cache[a.key := a.callback],
         places := Drop(s.places, Callbacks(s.cache, a.key))[a.callback := Scheduled(a.key)])
    case ContainsRequest(c) =>
      var key := s.clients[c].key;
      s.(clients := s.clients[c := Awaiting(key, key in s.cache)], storage := Responding(key in s.cache),
         asker := c)
    case ContainsResponse(c) =>
      s.(clients := s.clients[c := Idle], storage := AtSelect,
         answers := s.answers + [(s.storage.ok, s.clients[c].truth)])
    case CleanupRequest(c) =>
      s.(clients := s.clients[c := ClearingHeap], cache := map[],
         places := Drop(s.places, s.cache.Values))
    case CleanupExpiresRequest(c) =>
      s.(clients := s.clients[c := Idle], heap := multiset{}, accepted := multiset{}, fired := multiset{})
    case Tick(next) => s.(expires := Deleting(next))
    case IdleTick => s
    case DeleteRequest =>
      var x := s.expires.next;
      s.(expires := Waiting, heap := s.heap - multiset{x}, fired := s.fired + multiset{x},
         runs := if x.key in s.cache then s.runs + [s.cache[x.key]] else s.runs,
         places := if x.key in s.cache then s.places[s.cache[x.key] := HasRun] else s.places,
         cache := s.cache - {x.key})
  }

  predicate Carries(a: Client, f: nat) {
    (a.Adding? || a.Setting?) && a.callback == f
  }

  predicate IsAt(s: State, f: nat, p: Place) {
    f in s.places && s.places[f] == p
  }

  /** Every callback is in one place only. */
  ghost predicate CallbacksPlaced(s: State) {
    && (forall f :: f in s.places ==> f < s.nextCallback)
    && (forall c: nat, f: nat :: c < |s.clients| && Carries(s.clients[c], f) ==> IsAt(s, f, WithClient(c)))
    && (forall k :: k in s.cache ==> IsAt(s, s.cache[k], Scheduled(k)))
    && (forall i :: 0 <= i < |s.runs| ==> IsAt(s, s.runs[i], HasRun))
    && NoDup(s.runs)
  }

  /** Exactly one client waits for an answer when there is one to send, and it is the right
      answer for that client. */
  ghost predicate AnswersMatch(s: State) {
    && (forall c :: 0 <= c < |s.clients| && s.clients[c].Awaiting? ==> s.storage.Responding? && c == s.asker)
    && (s.storage.Responding? ==>
          s.asker < |s.clients| && s.clients[s.asker].Awaiting? && s.clients[s.asker].truth == s.storage.ok)
    && (forall i :: 0 <= i < |s.answers| ==> s.answers[i].0 == s.answers[i].1)
  }

  /** The heap holds what was accepted since its last cleanup and has not fired. */
  ghost predicate ExpiriesBalance(s: State) {
    && s.accepted == s.fired + s.heap
    && (s.expires.Deleting? ==> First(s.heap, s.expires.next))
  }

  ghost predicate Inv(s: State) {
    CallbacksPlaced(s) && AnswersMatch(s) && ExpiriesBalance(s)
  }

  lemma InitialInv(n: nat)
    ensures Inv(Initial(n))
  {
  }

  lemma CallbacksStep(s: State, e: Step)
    requires Inv(s) && Enabled(s, e)
    ensures CallbacksPlaced(Next(s, e))
  {
    hide CallbacksPlaced, AnswersMatch, ExpiriesBalance, First, Next, Enabled;
    match e
    case CallAddEvent(c, _) => CallKeepsPlaces(s, e);
    case SetRequest(c) => SetKeepsPlaces(s, e);
    case CleanupRequest(c) => CleanupKeepsPlaces(s, e);
    case DeleteRequest => DeleteKeepsPlaces(s, e);
    case _ => OtherStepKeepsPlaces(s, e);
  }

  lemma OtherStepKeepsPlaces(s: State, e: Step)
    requires CallbacksPlaced(s) && Enabled(s, e)
    requires !e.CallAddEvent? && !e.SetRequest? && !e.CleanupRequest? && !e.DeleteRequest?
    ensures CallbacksPlaced(Next(s, e))
  {
    hide CallbacksPlaced, First, Drop, Callbacks, Carries;
    if e.Tick? || e.IdleTick? {
      OthersKeepPlaces(s, Next(s, e));
    } else {
      OneClientCarries(s.clients, e.c, Next(s, e).clients[e.c]);
      OthersKeepPlaces(s, Next(s, e));
    }
  }

  /** A client that carries nothing new. */
  lemma OneClientCarries(cs: seq<Client>, c: nat, a: Client)
    requires c < |cs|
    requires a.Adding? || a.Setting? ==> (cs[c].Adding? || cs[c].Setting?) && a.callback == cs[c].callback
    ensures forall d: nat, f: nat :: d < |cs| && Carries(cs[c := a][d], f) ==> Carries(cs[d], f)
  {
  }

  lemma OthersKeepPlaces(s: State, t: State)
    requires CallbacksPlaced(s)
    requires t.places == s.places && t.cache == s.cache && t.runs == s.runs && t.nextCallback == s.nextCallback
    requires |t.clients| == |s.clients|
    requires forall c: nat, f: nat :: c < |t.clients| && Carries(t.clients[c], f) ==> Carries(s.clients[c], f)
    ensures CallbacksPlaced(t)
  {
    forall c: nat, f: nat | c < |t.clients| && Carries(t.clients[c], f) ensures IsAt(t, f, WithClient(c)) {
      assert Carries(s.clients[c], f) && IsAt(s, f, WithClient(c));
    }
    forall k | k in t.cache ensures IsAt(t, t.cache[k], Scheduled(k)) { assert IsAt(s, s.cache[k], Scheduled(k)); }
    forall i | 0 <= i < |t.runs| ensures IsAt(t, t.runs[i], HasRun) { assert IsAt(s, s.runs[i], HasRun); }
  }

  lemma CallKeepsPlaces(s: State, e: Step)
    requires CallbacksPlaced(s) && Enabled(s, e) && e.CallAddEvent?
    ensures CallbacksPlaced(Next(s, e))
  {
    var t := Next(s, e);
    forall c: nat, f: nat | c < |t.clients| && Carries(t.clients[c], f) ensures IsAt(t, f, WithClient(c)) {
      if c != e.c { assert Carries(s.clients[c], f); }
    }
    forall k | k in t.cache ensures IsAt(t, t.cache[k], Scheduled(k)) { assert IsAt(s, s.cache[k], Scheduled(k)); }
    forall i | 0 <= i < |t.runs| ensures IsAt(t, t.runs[i], HasRun) { assert IsAt(s, s.runs[i], HasRun); }
  }

  lemma SetKeepsPlaces(s: State, e: Step)
    requires CallbacksPlaced(s) && Enabled(s, e) && e.SetRequest?
    ensures CallbacksPlaced(Next(s, e))
  {
    var t, a := Next(s, e), s.clients[e.c];
    assert Carries(a, a.callback) && IsAt(s, a.callback, WithClient(e.c));
    forall c: nat, f: nat | c < |t.clients| && Carries(t.clients[c], f) ensures IsAt(t, f, WithClient(c)) {
      assert Carries(s.clients[c], f) && IsAt(s, f, WithClient(c));
      assert a.key in s.cache ==> IsAt(s, s.cache[a.key], Scheduled(a.key));
    }
    forall k | k in t.cache ensures IsAt(t, t.cache[k], Scheduled(k)) {
      if k != a.key {
        assert IsAt(s, s.cache[k], Scheduled(k));
        assert a.key in s.cache ==> IsAt(s, s.cache[a.key], Scheduled(a.key));
      }
    }
    forall i | 0 <= i < |t.runs| ensures IsAt(t, t.runs[i], HasRun) {
      assert IsAt(s, s.runs[i], HasRun);
      assert a.key in s.cache ==> IsAt(s, s.cache[a.key], Scheduled(a.key));
    }
  }

  lemma CleanupKeepsPlaces(s: State, e: Step)
    requires CallbacksPlaced(s) && Enabled(s, e) && e.CleanupRequest?
    ensures CallbacksPlaced(Next(s, e))
  {
    var t := Next(s, e);
    forall c: nat, f: nat | c < |t.clients| && Carries(t.clients[c], f) ensures IsAt(t, f, WithClient(c)) {
      assert Carries(s.clients[c], f) && IsAt(s, f, WithClient(c));
      assert forall k :: k in s.cache && s.cache[k] == f ==> IsAt(s, s.cache[k], Scheduled(k));
    }
    forall i | 0 <= i < |t.runs| ensures IsAt(t, t.runs[i], HasRun) {
      assert IsAt(s, s.runs[i], HasRun);
      assert forall k :: k in s.cache && s.cache[k] == s.runs[i] ==> IsAt(s, s.cache[k], Scheduled(k));
    }
  }

  lemma DeleteKeepsPlaces(s: State, e: Step)
    requires CallbacksPlaced(s) && Enabled(s, e) && e.DeleteRequest?
    ensures CallbacksPlaced(Next(s, e))
  {
    var t, key := Next(s, e), s.expires.next.key;
    if key in s.cache {
      assert IsAt(s, s.cache[key], Scheduled(key));
      forall c: nat, f: nat | c < |t.clients| && Carries(t.clients[c], f) ensures IsAt(t, f, WithClient(c)) {
        assert Carries(s.clients[c], f) && IsAt(s, f, WithClient(c));
      }
      forall k | k in t.cache ensures IsAt(t, t.cache[k], Scheduled(k)) { assert IsAt(s, s.cache[k], Scheduled(k)); }
      forall i | 0 <= i < |t.runs| ensures IsAt(t, t.runs[i], HasRun) {
        if i < |s.runs| { assert IsAt(s, s.runs[i], HasRun); }
      }
      forall i, j | 0 <= i < j < |t.runs| ensures t.runs[i] != t.runs[j] {
        assert IsAt(s, s.runs[i], HasRun);
      }
    } else {
      forall c: nat, f: nat | c < |t.clients| && Carries(t.clients[c], f) ensures IsAt(t, f, WithClient(c)) {
        assert IsAt(s, f, WithClient(c));
      }
      forall k | k in t.cache ensures IsAt(t, t.cache[k], Scheduled(k)) { assert IsAt(s, s.cache[k], Scheduled(k)); }
      forall i | 0 <= i < |t.runs| ensures IsAt(t, t.runs[i], HasRun) { assert IsAt(s, s.runs[i], HasRun); }
    }
  }

  lemma AnswersStep(s: State, e: Step)
    requires Inv(s) && Enabled(s, e)
    ensures AnswersMatch(Next(s, e))
  {
    hide CallbacksPlaced, AnswersMatch, ExpiriesBalance, First, Next, Enabled;
    match e
    case ContainsRequest(c) => RequestKeepsAnswers(s, e);
    case ContainsResponse(c) => RequestKeepsAnswers(s, e);
    case _ => OtherStepKeepsAnswers(s, e);
  }

  lemma RequestKeepsAnswers(s: State, e: Step)
    requires AnswersMatch(s) && Enabled(s, e) && (e.ContainsRequest? || e.ContainsResponse?)
    ensures AnswersMatch(Next(s, e))
  {
  }

  lemma OtherStepKeepsAnswers(s: State, e: Step)
    requires AnswersMatch(s) && Enabled(s, e) && !e.ContainsRequest? && !e.ContainsResponse?
    ensures AnswersMatch(Next(s, e))
  {
    hide AnswersMatch, First, Drop, Callbacks;
    OthersKeepAnswers(s, Next(s, e));
  }

  lemma OthersKeepAnswers(s: State, t: State)
    requires AnswersMatch(s)
    requires t.storage == s.storage && t.asker == s.asker && t.answers == s.answers && |t.clients| == |s.clients|
    requires forall c :: 0 <= c < |t.clients| && (t.clients[c].Awaiting? || s.clients[c].Awaiting?) ==>
               t.clients[c] == s.clients[c]
    ensures AnswersMatch(t)
  {
  }

  lemma ExpiriesStep(s: State, e: Step)
    requires Inv(s) && Enabled(s, e)
    ensures ExpiriesBalance(Next(s, e))
  {
    hide CallbacksPlaced, AnswersMatch, Drop, Callbacks, First;
    match e
    case DeleteRequest => TakenOut(s.accepted, s.fired, s.heap, s.expires.next);
    case NewExpireTime(c) => PutIn(s.accepted, s.fired, s.heap, s.clients[c].time);
    case _ =>
  }

  lemma TakenOut(accepted: multiset<ExpireTime>, fired: multiset<ExpireTime>, heap: multiset<ExpireTime>,
                 x: ExpireTime)
    requires accepted == fired + heap && First(heap, x)
    ensures accepted == (fired + multiset{x}) + (heap - multiset{x})
  {
  }

  lemma PutIn(accepted: multiset<ExpireTime>, fired: multiset<ExpireTime>, heap: multiset<ExpireTime>, x: ExpireTime)
    requires accepted == fired + heap
    ensures accepted + multiset{x} == fired + (heap + multiset{x})
  {
  }

  ghost predicate CanRun(s: State, es: seq<Step>)
    decreases |es|
  {
    es != [] ==> Enabled(s, es[0]) && CanRun(Next(s, es[0]), es[1..])
  }

  ghost function Run(s: State, es: seq<Step>): State
    requires CanRun(s, es)
    decreases |es|
  {
    if es == [] then s else Run(Next(s, es[0]), es[1..])
  }

  /** A callback that has run or was dropped has come to the end of its way. */
  predicate Over(s: State, f: nat) {
    IsAt(s, f, HasRun) || IsAt(s, f, Dropped)
  }

  lemma StepKeepsOver(s: State, e: Step, f: nat)
    requires Inv(s) && Enabled(s, e) && Over(s, f)
    ensures Next(s, e).places[f] == s.places[f] && Over(Next(s, e), f)
  {
    hide CallbacksPlaced, AnswersMatch, ExpiriesBalance, First, Drop;
    OverElsewhere(s, f);
    match e
    case SetRequest(c) =>
      assert Carries(s.clients[c], s.clients[c].callback);
      DropOthers(s.places, Callbacks(s.cache, s.clients[c].key), f);
    case CleanupRequest(c) =>
      DropOthers(s.places, s.cache.Values, f);
    case _ =>
  }

  lemma DropOthers(places: map<nat, Place>, callbacks: set<nat>, f: nat)
    requires f in places && f !in callbacks
    ensures f in Drop(places, callbacks) && Drop(places, callbacks)[f] == places[f]
  {
  }

  /** It is neither scheduled nor on its way to be, and it is not a new one. */
  lemma OverElsewhere(s: State, f: nat)
    requires CallbacksPlaced(s) && Over(s, f)
    ensures f in s.places && f < s.nextCallback
    ensures forall k :: k in s.cache ==> s.cache[k] != f
    ensures forall c :: 0 <= c < |s.clients| ==> !Carries(s.clients[c], f)
  {
    assert forall k :: k in s.cache ==> IsAt(s, s.cache[k], Scheduled(k));
  }

  lemma StepKeepsInv(s: State, e: Step)
    requires Inv(s) && Enabled(s, e)
    ensures Inv(Next(s, e))
  {
    hide CallbacksPlaced, AnswersMatch, ExpiriesBalance, Next;
    CallbacksStep(s, e);
    AnswersStep(s, e);
    ExpiriesStep(s, e);
  }

  /** Over every interleaving, the invariant holds and what is over stays over. */
  lemma {:induction false} RunKeepsInv(s: State, es: seq<Step>)
    requires Inv(s) && CanRun(s, es)
    ensures Inv(Run(s, es))
    ensures forall f :: Over(s, f) ==> Over(Run(s, es), f) && Run(s, es).places[f] == s.places[f]
    decreases |es|
  {
    if es != [] {
      var t := Next(s, es[0]);
      StepKeepsInv(s, es[0]);
      forall f | Over(s, f) ensures Over(t, f) && t.places[f] == s.places[f] { StepKeepsOver(s, es[0], f); }
      RunKeepsInv(t, es[1..]);
    }
  }

  /** What the protocol promises in every state that any number of clients can bring about:
      no callback runs twice, every answer is the right one for the client that gets it, and
      the accepted expiries are those that fired and those that are pending. */
  lemma ProtocolHolds(n: nat, es: seq<Step>)
    requires CanRun(Initial(n), es)
    ensures var s := Run(Initial(n), es);
            && NoDup(s.runs)
            && (forall i :: 0 <= i < |s.answers| ==> s.answers[i].0 == s.answers[i].1)
            && s.accepted == s.fired + s.heap
  {
    InitialInv(n);
    RunKeepsInv(Initial(n), es);
  }

  /** A callback that was overwritten or cleaned up never runs, whatever happens next. */
  lemma DroppedNeverRuns(n: nat, es: seq<Step>, more: seq<Step>, f: nat)
    requires CanRun(Initial(n), es) && CanRun(Run(Initial(n), es), more)
    requires IsAt(Run(Initial(n), es), f, Dropped)
    ensures f !in Run(Run(Initial(n), es), more).runs
  {
    InitialInv(n);
    RunKeepsInv(Initial(n), es);
    var s := Run(Initial(n), es);
    assert Over(s, f);
    RunKeepsInv(s, more);
    var t := Run(s, more);
    assert forall i :: 0 <= i < |t.runs| ==> IsAt(t, t.runs[i], HasRun);
  }

  /** Overwriting and cleaning up do drop the callbacks they throw out. */
  lemma ThrownOutIsDropped(s: State, e: Step, k: ObjectID)
    requires Inv(s) && Enabled(s, e) && k in s.cache
    requires e.CleanupRequest? || (e.SetRequest? && s.clients[e.c].key == k)
    ensures IsAt(Next(s, e), s.cache[k], Dropped)
  {
    assert IsAt(s, s.cache[k], Scheduled(k));
    if e.SetRequest? {
      assert Carries(s.clients[e.c], s.clients[e.c].callback);
      assert IsAt(s, s.clients[e.c].callback, WithClient(e.c));
    } else {
      assert s.cache[k] in s.cache.Values;
    }
  }

  // Progress

  predicate Internal(e: Step) {
    !e.CallAddEvent? && !e.CallContains? && !e.CallCleanup? && !e.IdleTick?
  }

  /** Nobody is in the middle of anything. */
  ghost predicate Quiet(s: State) {
    (forall c :: 0 <= c < |s.clients| ==> s.clients[c].Idle?) && s.storage.AtSelect? && s.expires.Waiting?
  }

  /** As long as somebody is, there is a step that does not depend on the timer. */
  lemma NeverStuck(s: State) returns (e: Step)
    requires Inv(s) && !Quiet(s)
    ensures Enabled(s, e) && Internal(e) && !e.Tick?
  {
    hide CallbacksPlaced, ExpiriesBalance;
    if s.storage.Responding? {
      e := ContainsResponse(s.asker);
    } else if s.expires.Deleting? {
      e := DeleteRequest;
    } else {
      var c :| 0 <= c < |s.clients| && !s.clients[c].Idle?;
      match s.clients[c]
      case Adding(_, _) => e := NewExpireTime(c);
      case Setting(_, _) => e := SetRequest(c);
      case Asking(_) => e := ContainsRequest(c);
      case ClearingCache => e := CleanupRequest(c);
      case ClearingHeap => e := CleanupExpiresRequest(c);
    }
  }

  function Weight(a: Client): nat {
    match a
    case Idle => 0
    case Adding(_, _) => 4
    case Setting(_, _) => 1
    case Asking(_) => 2
    case Awaiting(_, _) => 1
    case ClearingCache => 2
    case ClearingHeap => 1
  }

  function Weights(cs: seq<Client>): nat {
    if cs == [] then 0 else Weight(cs[0]) + Weights(cs[1..])
  }

  lemma {:induction false} WeightsUpdate(cs: seq<Client>, c: nat, a: Client)
    requires c < |cs|
    ensures Weights(cs[c := a]) == Weights(cs) - Weight(cs[c]) + Weight(a)
  {
    if c > 0 {
      assert cs[c := a][1..] == cs[1..][c - 1 := a];
      WeightsUpdate(cs[1..], c - 1, a);
    } else {
      assert cs[0 := a][1..] == cs[1..];
    }
  }

  /** How much is left to do without new calls. */
  ghost function Work(s: State): int {
    Weights(s.clients) + 2 * |s.heap| - if s.expires.Deleting? then 1 else 0
  }

  /** Every step that is not a new call brings the scheduler closer to rest. */
  lemma InternalStepsEnd(s: State, e: Step)
    requires Inv(s) && Enabled(s, e) && Internal(e)
    ensures 0 <= Work(Next(s, e)) < Work(s)
  {
    hide CallbacksPlaced, AnswersMatch, ExpiriesBalance, Next, Enabled, Work;
    ExpiriesStep(s, e);
    WorkIsNat(Next(s, e));
    if !e.Tick? && !e.DeleteRequest? {
      ClientWork(s, e);
    } else {
      TimerWork(s, e);
    }
  }

  lemma WorkIsNat(s: State)
    requires ExpiriesBalance(s)
    ensures Work(s) >= 0
  {
    if s.expires.Deleting? { assert s.expires.next in s.heap; }
  }

  lemma ClientWork(s: State, e: Step)
    requires Enabled(s, e) && Internal(e) && !e.Tick? && !e.DeleteRequest?
    ensures Work(Next(s, e)) < Work(s)
  {
    hide First, Drop, Callbacks, Weights;
    var t := Next(s, e);
    WeightsUpdate(s.clients, e.c, t.clients[e.c]);
  }

  lemma TimerWork(s: State, e: Step)
    requires ExpiriesBalance(s) && Enabled(s, e) && (e.Tick? || e.DeleteRequest?)
    ensures Work(Next(s, e)) < Work(s)
  {
    hide Drop, Callbacks, Weights;
    assert Next(s, e).clients == s.clients;
  }
}
