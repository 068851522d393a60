/** The scenario runner: `Scenario::next` alternates transaction creators and result handlers by a
    stage counter, the executor feeds it receipts and hands the nonce on to the next scenario.
    Creators, handlers and the finalizer are arbitrary steps that may draw nonces or fail, and
    executing a transaction may fail, which leaves it without a receipt. */
module Scenario {
  import opened Ordered

  const U32_LIMIT: nat := 0x1_0000_0000

  /** What a step leaves: the scenario state and how many nonces it drew. */
  datatype Made<S> = Made(state: S, draws: nat) | Broken

  datatype Transaction<!S, !R> = Transaction(creator: (nat, S) -> Made<S>, handler: (nat, S, R) -> Made<S>)

  datatype Script<!S, !R> = Script(transactions: seq<Transaction<S, R>>, finalizer: (nat, S) -> Made<S>)

  datatype Event<R> =
    | Created(index: nat, from: nat, to: nat)
    | Handled(index: nat, receipt: R, from: nat, to: nat)
    | Finished(from: nat, to: nat)

  datatype Failure =
    | PreviousResultProvidedAtStart
    | MissingPreviousResult
    | IndexOutOfBounds
    | StepFailed
    | NotExecuted
    | NonceOverflow

  datatype Action = Submit(index: nat) | Complete(nextUnusedNonce: nat)

  datatype Next = Proceed(action: Action) | Fail(failure: Failure)

  /** The nonce counter is a `u32`. */
  predicate Drawable<S>(nonce: nat, made: Made<S>) {
    made.Made? && nonce + made.draws < U32_LIMIT
  }

  function FailureOf<S>(made: Made<S>): Failure {
    if made.Made? then NonceOverflow else StepFailed
  }

  // ---------------------------------------------------------------------------------------
  // The intended run, written without a stage counter
  // ---------------------------------------------------------------------------------------

  datatype Run<S, R> = Ran(events: seq<Event<R>>, nonce: nat, state: S) | Crashed(failure: Failure)

  function After<S, R>(events: seq<Event<R>>, rest: Run<S, R>): Run<S, R> {
    match rest
    case Ran(more, nonce, state) => Ran(events + more, nonce, state)
    case Crashed(f) => Crashed(f)
  }

  /** From the moment transaction `i` is to be created. */
  function CreateFrom<S, R>(s: Script<S, R>, receipt: nat -> Option<R>, i: nat, nonce: nat, state: S): Run<S, R>
    requires i <= |s.transactions|
    decreases |s.transactions| - i, 1
  {
    if i == |s.transactions| then
      var made := s.finalizer(nonce, state);
      if !Drawable(nonce, made) then Crashed(FailureOf(made))
      else Ran([Finished(nonce, nonce + made.draws)], nonce + made.draws, made.state)
    else
      var made := s.transactions[i].creator(nonce, state);
      if !Drawable(nonce, made) then Crashed(FailureOf(made))
      else After([Created(i, nonce, nonce + made.draws)], HandleFrom(s, receipt, i, nonce + made.draws, made.state))
  }

  /** From the moment transaction `i` is to be executed and its receipt handled. */
  function HandleFrom<S, R>(s: Script<S, R>, receipt: nat -> Option<R>, i: nat, nonce: nat, state: S): Run<S, R>
    requires i < |s.transactions|
    decreases |s.transactions| - i, 0
  {
    if receipt(i).None? then Crashed(NotExecuted)
    else
      var made := s.transactions[i].handler(nonce, state, receipt(i).value);
      if !Drawable(nonce, made) then Crashed(FailureOf(made))
      else
        After([Handled(i, receipt(i).value, nonce, nonce + made.draws)],
              CreateFrom(s, receipt, i + 1, nonce + made.draws, made.state))
  }

  /** Each event takes up the nonces where the one before it stopped. */
  ghost predicate Contiguous<R>(events: seq<Event<R>>, start: nat, end: nat) {
    && events != [] && events[0].from == start && events[|events| - 1].to == end
    && (forall k :: 0 <= k < |events| ==> events[k].from <= events[k].to)
    && (forall k :: 0 < k < |events| ==> events[k - 1].to == events[k].from)
  }

  /** Creator `i`, then handler `i` with receipt `i`, where the events of transaction `i` belong. */
  ghost predicate PairAt<R>(events: seq<Event<R>>, receipt: nat -> Option<R>, first: nat, i: nat)
    requires first <= i
  {
    var k := 2 * (i - first);
    && k + 1 < |events|
    && events[k].Created? && events[k].index == i
    && events[k + 1].Handled? && events[k + 1].index == i && receipt(i) == Some(events[k + 1].receipt)
  }

  /** Every transaction from `first` on in its turn, then the end, and nothing else. */
  ghost predicate Alternates<R>(events: seq<Event<R>>, receipt: nat -> Option<R>, first: nat, n: nat) {
    && first <= n && |events| == 2 * (n - first) + 1
    && (forall i :: first <= i < n ==> PairAt(events, receipt, first, i))
    && events[|events| - 1].Finished?
  }

  /** In every run that does not fail, receipt `i` goes once to handler `i`, after creator `i` and
      before creator `i + 1`, and the nonces are drawn without gap or reuse below the limit. */
  lemma {:induction false} RunShape<S, R>(s: Script<S, R>, receipt: nat -> Option<R>, i: nat, nonce: nat, state: S)
    requires i <= |s.transactions| && CreateFrom(s, receipt, i, nonce, state).Ran?
    ensures var r := CreateFrom(s, receipt, i, nonce, state);
            && Alternates(r.events, receipt, i, |s.transactions|)
            && Contiguous(r.events, nonce, r.nonce) && nonce <= r.nonce < U32_LIMIT
    decreases |s.transactions| - i
  {
    var n := |s.transactions|;
    if i == n {
    } else {
      var made := s.transactions[i].creator(nonce, state);
      var nonce1 := nonce + made.draws;
      var handled := s.transactions[i].handler(nonce1, made.state, receipt(i).value);
      var nonce2 := nonce1 + handled.draws;
      RunShape(s, receipt, i + 1, nonce2, handled.state);
      var rest := CreateFrom(s, receipt, i + 1, nonce2, handled.state);
      var r := CreateFrom(s, receipt, i, nonce, state);
      var two := [Created(i, nonce, nonce1), Handled(i, receipt(i).value, nonce1, nonce2)];
      assert r.events == two + rest.events;
      PairThenRest(two, rest.events, receipt, i, n, nonce, r.nonce);
    }
  }

  lemma {:induction false} PairThenRest<R>(
    two: seq<Event<R>>, rest: seq<Event<R>>, receipt: nat -> Option<R>, i: nat, n: nat, start: nat, end: nat)
    requires |two| == 2 && two[0].Created? && two[0].index == i
    requires two[1].Handled? && two[1].index == i && receipt(i) == Some(two[1].receipt)
    requires two[0].from == start && two[0].from <= two[0].to == two[1].from <= two[1].to
    requires i < n && Alternates(rest, receipt, i + 1, n) && Contiguous(rest, two[1].to, end)
    ensures Alternates(two + rest, receipt, i, n) && Contiguous(two + rest, start, end)
  {
    var all := two + rest;
    forall j | i <= j < n ensures PairAt(all, receipt, i, j) {
      if j > i {
        assert PairAt(rest, receipt, i + 1, j);
      }
    }
    forall k | 0 <= k < |all| ensures all[k].from <= all[k].to {
      assert k >= 2 ==> all[k] == rest[k - 2];
    }
    forall k | 0 < k < |all| ensures all[k - 1].to == all[k].from {
      assert k >= 3 ==> all[k] == rest[k - 2] && all[k - 1] == rest[k - 3];
      assert k == 2 ==> all[k] == rest[0];
    }
  }

  // ---------------------------------------------------------------------------------------
  // What the events of a run are made of
  // ---------------------------------------------------------------------------------------

  /** The event is the step of the script that its label names: run on this state, it leaves that
      one and draws exactly the nonces of the event. */
  ghost predicate Performs<S, R>(s: Script<S, R>, e: Event<R>, before: S, after: S) {
    && e.from <= e.to
    && match e
       case Created(i, from, to) =>
         i < |s.transactions| && s.transactions[i].creator(from, before) == Made(after, to - from)
       case Handled(i, receipt, from, to) =>
         i < |s.transactions| && s.transactions[i].handler(from, before, receipt) == Made(after, to - from)
       case Finished(from, to) => s.finalizer(from, before) == Made(after, to - from)
  }

  /** The states before, between and after the events. */
  ghost predicate Performed<S, R>(s: Script<S, R>, events: seq<Event<R>>, states: seq<S>) {
    && |states| == |events| + 1
    && forall k :: 0 <= k < |events| ==> Performs(s, events[k], states[k], states[k + 1])
  }

  lemma {:induction false} PerformedFirst<S, R>(
    s: Script<S, R>, e: Event<R>, before: S, events: seq<Event<R>>, states: seq<S>)
    requires Performed(s, events, states) && Performs(s, e, before, states[0])
    ensures Performed(s, [e] + events, [before] + states)
  {
    var all, after := [e] + events, [before] + states;
    forall k | 0 <= k < |all| ensures Performs(s, all[k], after[k], after[k + 1]) {
      if k == 0 {
      } else {
        assert Performs(s, events[k - 1], states[k - 1], states[k]);
      }
    }
  }

  /** Every event of a run that does not fail is its own step of the script, each on the state the
      step before it left, from the first state to the last. */
  lemma {:induction false} RunPerforms<S, R>(s: Script<S, R>, receipt: nat -> Option<R>, i: nat, nonce: nat, state: S)
    returns (states: seq<S>)
    requires i <= |s.transactions| && CreateFrom(s, receipt, i, nonce, state).Ran?
    ensures var r := CreateFrom(s, receipt, i, nonce, state);
            Performed(s, r.events, states) && states[0] == state && states[|r.events|] == r.state
    decreases |s.transactions| - i
  {
    var r := CreateFrom(s, receipt, i, nonce, state);
    if i == |s.transactions| {
      states := [state, r.state];
    } else {
      var made := s.transactions[i].creator(nonce, state);
      var nonce1 := nonce + made.draws;
      var handled := s.transactions[i].handler(nonce1, made.state, receipt(i).value);
      var nonce2 := nonce1 + handled.draws;
      var rest := CreateFrom(s, receipt, i + 1, nonce2, handled.state);
      var later := RunPerforms(s, receipt, i + 1, nonce2, handled.state);
      var created, received := Created(i, nonce, nonce1), Handled(i, receipt(i).value, nonce1, nonce2);
      PerformedFirst(s, received, made.state, rest.events, later);
      PerformedFirst(s, created, state, [received] + rest.events, [made.state] + later);
      assert r.events == [created] + ([received] + rest.events);
      states := [state] + ([made.state] + later);
    }
  }

  /** How far a failing run gets: the events of its completed steps, the states between them and the
      nonce at which the next step fails. */
  datatype Stop<S, R> = Stop(events: seq<Event<R>>, states: seq<S>, nonce: nat)

  /** The completed steps are the first of the script's, creators and handlers in turn, nonces
      without gap. */
  ghost predicate Progressed<S, R>(
    s: Script<S, R>, receipt: nat -> Option<R>, i: nat, nonce: nat, state: S, stop: Stop<S, R>)
  {
    && Performed(s, stop.events, stop.states) && stop.states[0] == state
    && InTurn(stop.events, receipt, i) && Linked(stop.events, nonce, stop.nonce)
  }

  /** Each event draws on from where the one before it stopped, from `start` to `end`. */
  ghost predicate Linked<R>(events: seq<Event<R>>, start: nat, end: nat) {
    if events == [] then start == end
    else events[0].from == start && Linked(events[1..], events[0].to, end)
  }

  lemma {:induction false} LinkedFirst<R>(e: Event<R>, events: seq<Event<R>>, end: nat)
    requires Linked(events, e.to, end)
    ensures Linked([e] + events, e.from, end)
  {
    assert ([e] + events)[1..] == events;
  }

  /** Creators and handlers in turn, from transaction `i` on. */
  ghost predicate InTurn<R>(events: seq<Event<R>>, receipt: nat -> Option<R>, i: nat) {
    forall k :: 0 <= k < |events| ==> LabelAt(events[k], receipt, i, k)
  }

  lemma {:induction false} InTurnFirst<R>(
    x: Event<R>, y: Event<R>, events: seq<Event<R>>, receipt: nat -> Option<R>, i: nat)
    requires x.Created? && x.index == i && y.Handled? && y.index == i && receipt(i) == Some(y.receipt)
    requires InTurn(events, receipt, i + 1)
    ensures InTurn([x] + ([y] + events), receipt, i)
  {
    var all := [x] + ([y] + events);
    forall k | 0 <= k < |all| ensures LabelAt(all[k], receipt, i, k) {
      if k < 2 {
      } else {
        assert LabelAt(events[k - 2], receipt, i + 1, k - 2);
      }
    }
  }

  ghost predicate LabelAt<R>(e: Event<R>, receipt: nat -> Option<R>, i: nat, k: nat) {
    if k % 2 == 0 then e.Created? && e.index == i + k / 2
    else e.Handled? && e.index == i + k / 2 && receipt(i + k / 2) == Some(e.receipt)
  }

  /** The step after them fails in this way: it breaks, draws past the limit, or waits for a receipt
      that does not come. */
  ghost predicate FailsNext<S, R>(s: Script<S, R>, receipt: nat -> Option<R>, i: nat, stop: Stop<S, R>, f: Failure)
    requires |stop.states| == |stop.events| + 1
  {
    var k, state := |stop.events|, stop.states[|stop.events|];
    var j := i + k / 2;
    && j <= |s.transactions|
    && if k % 2 == 0 then
         Fails(if j < |s.transactions| then s.transactions[j].creator(stop.nonce, state)
               else s.finalizer(stop.nonce, state), stop.nonce, f)
       else if j == |s.transactions| then false
       else if receipt(j).None? then f == NotExecuted
       else Fails(s.transactions[j].handler(stop.nonce, state, receipt(j).value), stop.nonce, f)
  }

  predicate Fails<S>(made: Made<S>, nonce: nat, f: Failure) {
    match made
    case Broken => f == StepFailed
    case Made(_, draws) => nonce + draws >= 0x1_0000_0000 && f == NonceOverflow
  }

  /** One completed step more in front of what a failing run gets done. */
  lemma {:induction false} ProgressedFirst<S, R>(
    s: Script<S, R>, receipt: nat -> Option<R>, i: nat, two: seq<Event<R>>, mid: seq<S>, stop: Stop<S, R>, f: Failure)
    returns (longer: Stop<S, R>)
    requires |two| == |mid| == 2 && Performs(s, two[0], mid[0], mid[1])
    requires two[0].Created? && two[0].index == i && two[0].to == two[1].from
    requires two[1].Handled? && two[1].index == i && receipt(i) == Some(two[1].receipt)
    requires |stop.states| == |stop.events| + 1 && Performs(s, two[1], mid[1], stop.states[0])
    requires Progressed(s, receipt, i + 1, two[1].to, stop.states[0], stop) && FailsNext(s, receipt, i + 1, stop, f)
    ensures Progressed(s, receipt, i, two[0].from, mid[0], longer) && FailsNext(s, receipt, i, longer, f)
  {
    PerformedFirst(s, two[1], mid[1], stop.events, stop.states);
    PerformedFirst(s, two[0], mid[0], [two[1]] + stop.events, [mid[1]] + stop.states);
    var events := [two[0]] + ([two[1]] + stop.events);
    longer := Stop(events, [mid[0]] + ([mid[1]] + stop.states), stop.nonce);
    InTurnFirst(two[0], two[1], stop.events, receipt, i);
    LinkedFirst(two[1], stop.events, stop.nonce);
    LinkedFirst(two[0], [two[1]] + stop.events, stop.nonce);
    assert longer.states[|events|] == stop.states[|stop.events|];
  }

  /** A run that fails completes its steps up to one that fails in just that way. */
  lemma {:induction false} CrashPerforms<S, R>(
    s: Script<S, R>, receipt: nat -> Option<R>, i: nat, nonce: nat, state: S) returns (stop: Stop<S, R>)
    requires i <= |s.transactions| && CreateFrom(s, receipt, i, nonce, state).Crashed?
    ensures Progressed(s, receipt, i, nonce, state, stop)
    ensures FailsNext(s, receipt, i, stop, CreateFrom(s, receipt, i, nonce, state).failure)
    decreases |s.transactions| - i
  {
    var f := CreateFrom(s, receipt, i, nonce, state).failure;
    stop := Stop([], [state], nonce);
    if i == |s.transactions| || !Drawable(nonce, s.transactions[i].creator(nonce, state)) {
    } else {
      var made := s.transactions[i].creator(nonce, state);
      var nonce1 := nonce + made.draws;
      var created := Created(i, nonce, nonce1);
      assert HandleFrom(s, receipt, i, nonce1, made.state) == Crashed(f);
      if receipt(i).None? || !Drawable(nonce1, s.transactions[i].handler(nonce1, made.state, receipt(i).value)) {
        stop := Stop([created], [state, made.state], nonce1);
      } else {
        var handled := s.transactions[i].handler(nonce1, made.state, receipt(i).value);
        var nonce2 := nonce1 + handled.draws;
        assert CreateFrom(s, receipt, i + 1, nonce2, handled.state) == Crashed(f);
        stop := CrashPerforms(s, receipt, i + 1, nonce2, handled.state);
        stop := ProgressedFirst(
          s, receipt, i, [created, Handled(i, receipt(i).value, nonce1, nonce2)], [state, made.state], stop, f);
      }
    }
  }

  // ---------------------------------------------------------------------------------------
  // Scenario::next and the executor
  // ---------------------------------------------------------------------------------------

  class ScenarioInstance<S, R> {
    const script: Script<S, R>
    var nonce: nat
    var stageCounter: nat
    var state: S
    ghost var events: seq<Event<R>>

    constructor (script: Script<S, R>, startingNonce: nat, state: S)
      ensures this.script == script && nonce == startingNonce && stageCounter == 0
      ensures this.state == state && events == []
    {
      this.script := script;
      nonce := startingNonce;
      stageCounter := 0;
      this.state := state;
      events := [];
    }

    /** What is still to be run when transaction `i` is to be created next. */
    ghost function ToCreate(receipt: nat -> Option<R>, i: nat): Run<S, R>
      requires i <= |script.transactions|
      reads this
    {
      After(events, CreateFrom(script, receipt, i, nonce, state))
    }

    /** What is still to be run when transaction `i` has been submitted. */
    ghost function ToHandle(receipt: nat -> Option<R>, i: nat): Run<S, R>
      requires i < |script.transactions|
      reads this
    {
      After(events, HandleFrom(script, receipt, i, nonce, state))
    }

    /** The whole run, as it stands before the next call: what happened, then what is still to come. */
    ghost function Whole(receipt: nat -> Option<R>): Run<S, R>
      requires stageCounter <= |script.transactions|
      reads this
    {
      if stageCounter == 0 then ToCreate(receipt, 0) else ToHandle(receipt, stageCounter - 1)
    }

    method HandleReceipt(i: nat, received: R, ghost receipt: nat -> Option<R>) returns (failure: Option<Failure>)
      requires i < |script.transactions| && receipt(i) == Some(received)
      modifies this`nonce, this`state, this`events
      ensures match failure {
                case Some(f) => old(ToHandle(receipt, i)) == Crashed(f)
                case None => old(ToHandle(receipt, i)) == ToCreate(receipt, i + 1)
              }
    {
      var made := script.transactions[i].handler(nonce, state, received);
      if !Drawable(nonce, made) { return Some(FailureOf(made)); }
      ghost var event := Handled(i, received, nonce, nonce + made.draws);
      AfterTwice(events, [event], CreateFrom(script, receipt, i + 1, nonce + made.draws, made.state));
      events := events + [event];
      nonce, state := nonce + made.draws, made.state;
      return None;
    }

    method CreateTransaction(i: nat, ghost receipt: nat -> Option<R>) returns (failure: Option<Failure>)
      requires i < |script.transactions|
      modifies this`nonce, this`state, this`events
      ensures match failure {
                case Some(f) => old(ToCreate(receipt, i)) == Crashed(f)
                case None => old(ToCreate(receipt, i)) == ToHandle(receipt, i)
              }
    {
      var made := script.transactions[i].creator(nonce, state);
      if !Drawable(nonce, made) { return Some(FailureOf(made)); }
      ghost var event := Created(i, nonce, nonce + made.draws);
      AfterTwice(events, [event], HandleFrom(script, receipt, i, nonce + made.draws, made.state));
      events := events + [event];
      nonce, state := nonce + made.draws, made.state;
      return None;
    }

    /** Receipts are asked for exactly when a transaction went before, and none comes after the end. */
    predicate Expected(previous: Option<R>)
      reads this
    {
      stageCounter <= |script.transactions| && (previous.Some? <==> stageCounter > 0)
    }

    /** An expected call takes the run one step further; the only failures are those of the steps. */
    method Advance(previous: Option<R>, ghost receipt: nat -> Option<R>) returns (r: Next)
      requires stageCounter > 0 && previous.Some? ==> previous == receipt(stageCounter - 1)
      modifies this
      ensures stageCounter == old(stageCounter) + 1
      ensures !old(Expected(previous)) ==>
                && r == Fail(if old(stageCounter) == 0 then PreviousResultProvidedAtStart
                             else if previous.None? then MissingPreviousResult
                             else IndexOutOfBounds)
                && nonce == old(nonce) && state == old(state) && events == old(events)
      ensures old(Expected(previous)) ==>
                match r {
                  case Fail(f) => old(Whole(receipt)) == Crashed(f)
                  case Proceed(Submit(i)) =>
                    && i == old(stageCounter) < |script.transactions|
                    && old(Whole(receipt)) == Whole(receipt)
                  case Proceed(Complete(end)) =>
                    && old(stageCounter) == |script.transactions|
                    && old(Whole(receipt)) == Ran(events, end, state)
                }
    {
      stageCounter := stageCounter + 1;
      var index := stageCounter - 1;
      if index == 0 {
        if previous.Some? { return Fail(PreviousResultProvidedAtStart); }
      } else {
        if previous.None? { return Fail(MissingPreviousResult); }
        if index - 1 >= |script.transactions| { return Fail(IndexOutOfBounds); }
        var failure := HandleReceipt(index - 1, previous.value, receipt);
        if failure.Some? { return Fail(failure.value); }
      }
      if index < |script.transactions| {
        var failure := CreateTransaction(index, receipt);
        if failure.Some? { return Fail(failure.value); }
        r := Proceed(Submit(index));
      } else {
        var made := script.finalizer(nonce, state);
        if !Drawable(nonce, made) { return Fail(FailureOf(made)); }
        events := events + [Finished(nonce, nonce + made.draws)];
        nonce, state := nonce + made.draws, made.state;
        r := Proceed(Complete(nonce));
      }
    }
  }

  lemma {:induction false} AfterTwice<S, R>(a: seq<Event<R>>, b: seq<Event<R>>, rest: Run<S, R>)
    ensures After(a, After(b, rest)) == After(a + b, rest)
  {
  }

  lemma {:induction false} AfterNothing<S, R>(rest: Run<S, R>)
    ensures After([], rest) == rest
  {
  }

  /** The loop of `execute_scenario`: `next` is called until it completes, each time with the
      receipt of the transaction before, or until a transaction cannot be executed. The calls make
      exactly the intended run. */
  method Play<S, R>(script: Script<S, R>, startingNonce: nat, start: S, receipt: nat -> Option<R>)
    returns (outcome: Next, calls: nat)
    ensures match CreateFrom(script, receipt, 0, startingNonce, start) {
              case Ran(_, end, _) => outcome == Proceed(Complete(end)) && calls == |script.transactions| + 1
              case Crashed(failure) => outcome == Fail(failure) && 0 < calls <= |script.transactions| + 1
            }
  {
    var scenario := new ScenarioInstance(script, startingNonce, start);
    ghost var run := CreateFrom(script, receipt, 0, startingNonce, start);
    var previous: Option<R> := None;
    calls := 0;
    AfterNothing(run);
    while true
      invariant fresh(scenario) && scenario.script == script
      invariant calls == scenario.stageCounter <= |script.transactions|
      invariant if calls == 0 then previous.None? else previous.Some? && previous == receipt(calls - 1)
      invariant run == scenario.Whole(receipt)
      decreases |script.transactions| - calls
    {
      outcome := scenario.Advance(previous, receipt);
      calls := calls + 1;
      match outcome {
        case Fail(_) => return;
        case Proceed(Submit(i)) =>
          previous := receipt(i);
          if previous.None? { return Fail(NotExecuted), calls; }
        case Proceed(Complete(_)) => return;
      }
    }
  }

  datatype NonceHandling = StartPlus(increment: nat) | EndNonce

  /** The nonce the next scenario starts with. */
  function NextStart(handling: NonceHandling, start: nat, end: nat): nat {
    match handling
    case StartPlus(increment) => start + increment
    case EndNonce => end
  }

  /** The nonces one scenario drew: from `from` up to but excluding `to`. */
  datatype Span = Span(from: nat, to: nat)

  ghost predicate Chained(handling: NonceHandling, spans: seq<Span>) {
    && (forall k :: 0 <= k < |spans| ==> spans[k].from <= spans[k].to < U32_LIMIT)
    && (forall k :: 0 < k < |spans| ==>
          spans[k].from == NextStart(handling, spans[k - 1].from, spans[k - 1].to))
  }

  class Executor {
    const handling: NonceHandling
    var startingNonce: nat
    ghost var spans: seq<Span>

    ghost predicate Valid()
      reads this
    {
      && startingNonce < U32_LIMIT
      && Chained(handling, spans)
      && (spans != [] ==>
            var last := spans[|spans| - 1]; startingNonce == NextStart(handling, last.from, last.to))
    }

    constructor (handling: NonceHandling, startingNonce: nat)
      requires startingNonce < U32_LIMIT
      ensures Valid() && this.handling == handling && this.startingNonce == startingNonce && spans == []
    {
      this.handling := handling;
      this.startingNonce := startingNonce;
      spans := [];
    }

    /** `execute_scenario`: one call of `next` more than there are transactions, receipts and
        handlers in step, and the nonces drawn recorded as the next link of the chain. */
    method ExecuteScenario<S, R>(script: Script<S, R>, start: S, receipt: nat -> Option<R>)
      returns (outcome: Next, calls: nat, ghost run: Run<S, R>)
      requires Valid()
      modifies this
      ensures run == CreateFrom(script, receipt, 0, old(startingNonce), start)
      ensures run.Crashed? ==>
                && outcome == Fail(run.failure) && calls <= |script.transactions| + 1
                && startingNonce == old(startingNonce) && spans == old(spans) && Valid()
      ensures run.Ran? ==>
                && calls == |script.transactions| + 1
                && Alternates(run.events, receipt, 0, |script.transactions|)
                && Contiguous(run.events, old(startingNonce), run.nonce)
                && spans == old(spans) + [Span(old(startingNonce), run.nonce)] && Chained(handling, spans)
      ensures run.Ran? ==>
                var next := NextStart(handling, old(startingNonce), run.nonce);
                if next < U32_LIMIT
                then outcome == Proceed(Complete(run.nonce)) && startingNonce == next && Valid()
                else outcome == Fail(NonceOverflow)
    {
      run := CreateFrom(script, receipt, 0, startingNonce, start);
      outcome, calls := Play(script, startingNonce, start, receipt);
      if outcome.Fail? { return; }
      RunShape(script, receipt, 0, startingNonce, start);
      var overflowed := HandOver(outcome.action.nextUnusedNonce);
      if overflowed { outcome := Fail(NonceOverflow); }
    }

    /** The end of `execute_scenario`: the start nonce is handed on, with checked addition. */
    method HandOver(end: nat) returns (overflowed: bool)
      requires Valid() && startingNonce <= end < U32_LIMIT
      modifies this
      ensures spans == old(spans) + [Span(old(startingNonce), end)] && Chained(handling, spans)
      ensures overflowed <==> NextStart(handling, old(startingNonce), end) >= U32_LIMIT
      ensures !overflowed ==> startingNonce == NextStart(handling, old(startingNonce), end) && Valid()
    {
      spans := spans + [Span(startingNonce, end)];
      var next := NextStart(handling, startingNonce, end);
      if next >= U32_LIMIT { return true; }
      startingNonce := next;
      return false;
    }
  }

  // ---------------------------------------------------------------------------------------
  // Nonces across scenarios
  // ---------------------------------------------------------------------------------------

  predicate Draws(span: Span, x: nat) {
    span.from <= x < span.to
  }

  ghost predicate NoReuse(spans: seq<Span>) {
    forall i, j, x :: 0 <= i < j < |spans| && Draws(spans[i], x) ==> !Draws(spans[j], x)
  }

  lemma {:induction false} EndsBeforeLater(spans: seq<Span>, i: nat, j: nat)
    requires i < j < |spans| && Chained(EndNonce, spans)
    ensures spans[i].to <= spans[j].from
    decreases j - i
  {
    if j == i + 1 {
    } else {
      EndsBeforeLater(spans, i, j - 1);
    }
  }

  /** Handing on the end nonce neither reuses nor skips one, and later scenarios draw larger nonces. */
  lemma {:induction false} EndNonceNeverReuses(spans: seq<Span>)
    requires Chained(EndNonce, spans)
    ensures NoReuse(spans)
    ensures forall k | 0 < k < |spans| :: spans[k - 1].to == spans[k].from
    ensures forall i, j, x, y | 0 <= i < j < |spans| && Draws(spans[i], x) && Draws(spans[j], y) :: x < y
  {
    forall i, j, x, y | 0 <= i < j < |spans| && Draws(spans[i], x) && Draws(spans[j], y)
      ensures x < y
    {
      EndsBeforeLater(spans, i, j);
    }
  }

  lemma {:induction false} StartsAreSpaced(increment: nat, spans: seq<Span>, i: nat, j: nat)
    requires i <= j < |spans| && Chained(StartPlus(increment), spans)
    ensures spans[j].from == spans[i].from + (j - i) * increment
    decreases j - i
  {
    if i == j {
    } else {
      StartsAreSpaced(increment, spans, i, j - 1);
      assert (j - i) * increment == (j - 1 - i) * increment + increment;
    }
  }

  /** No scenario draws more than what is left to it before a later one that draws at all. */
  predicate WithinShare(increment: nat, spans: seq<Span>, i: nat, j: nat)
    requires i < j < |spans|
  {
    spans[j].from < spans[j].to ==> spans[i].to - spans[i].from <= (j - i) * increment
  }

  lemma {:induction false} OverlapsIff(increment: nat, spans: seq<Span>, i: nat, j: nat)
    requires i < j < |spans| && Chained(StartPlus(increment), spans)
    ensures WithinShare(increment, spans, i, j) <==> forall x | Draws(spans[i], x) :: !Draws(spans[j], x)
  {
    StartsAreSpaced(increment, spans, i, j);
    if !WithinShare(increment, spans, i, j) {
      assert (j - i) * increment >= 0;
      assert Draws(spans[i], spans[j].from) && Draws(spans[j], spans[j].from);
    }
  }

  /** With a fixed increment nonces are reused unless every scenario stays within its share. */
  lemma {:induction false} StartPlusReusesIff(increment: nat, spans: seq<Span>)
    requires Chained(StartPlus(increment), spans)
    ensures NoReuse(spans) <==> forall i, j | 0 <= i < j < |spans| :: WithinShare(increment, spans, i, j)
  {
    forall i, j | 0 <= i < j < |spans|
      ensures WithinShare(increment, spans, i, j) <==> forall x | Draws(spans[i], x) :: !Draws(spans[j], x)
    {
      OverlapsIff(increment, spans, i, j);
    }
  }

  // ---------------------------------------------------------------------------------------
  // Two scenarios that share a nonce
  // ---------------------------------------------------------------------------------------

  /** A transaction whose creator draws one nonce. */
  function OneNonce(): Transaction<(), ()> {
    Transaction((nonce: nat, state: ()) => Made((), 1), (nonce: nat, state: (), receipt: ()) => Made((), 0))
  }

  /** A scenario of two such transactions. */
  function TwoNonces(): Script<(), ()> {
    Script([OneNonce(), OneNonce()], (nonce: nat, state: ()) => Made((), 0))
  }

  function AlwaysExecuted(): nat -> Option<()> {
    (i: nat) => Some(())
  }

  lemma {:induction false} TwoNoncesRun(nonce: nat)
    requires nonce + 2 < U32_LIMIT
    ensures var r := CreateFrom(TwoNonces(), AlwaysExecuted(), 0, nonce, ()); r.Ran? && r.nonce == nonce + 2
  {
    var s, receipt := TwoNonces(), AlwaysExecuted();
    assert CreateFrom(s, receipt, 2, nonce + 2, ()) == Ran([Finished(nonce + 2, nonce + 2)], nonce + 2, ());
    assert HandleFrom(s, receipt, 1, nonce + 2, ()).Ran? && HandleFrom(s, receipt, 1, nonce + 2, ()).nonce == nonce + 2;
    assert CreateFrom(s, receipt, 1, nonce + 1, ()).Ran? && CreateFrom(s, receipt, 1, nonce + 1, ()).nonce == nonce + 2;
    assert HandleFrom(s, receipt, 0, nonce + 1, ()).Ran? && HandleFrom(s, receipt, 0, nonce + 1, ()).nonce == nonce + 2;
  }

  /** Run twice with an increment of one, the scenario draws a nonce it has drawn before. */
  lemma {:induction false} StartPlusCanReuse()
    ensures var first := CreateFrom(TwoNonces(), AlwaysExecuted(), 0, 0, ());
            && first.Ran?
            && var start := NextStart(StartPlus(1), 0, first.nonce);
               var second := CreateFrom(TwoNonces(), AlwaysExecuted(), 0, start, ());
               && second.Ran?
               && var spans := [Span(0, first.nonce), Span(start, second.nonce)];
                  Chained(StartPlus(1), spans) && !NoReuse(spans)
  {
    TwoNoncesRun(0);
    TwoNoncesRun(1);
    var spans := [Span(0, 2), Span(1, 3)];
    assert Draws(spans[0], 1) && Draws(spans[1], 1);
  }
}
