/** Database notifiers in the server: each coalesces the events it has not been asked for yet
    (sdbms/SD_SRC.CPP, inc/D32DBAS.H). */
module Observer {
  import opened Errors

  // events, in order of significance
  const EClose := 0
  const EUnlock := 1
  const ERecover := 4

  /** An event, or the error the notification ended with: it is passed on like one. */
  type Event = e: int | e <= ERecover

  // the types of a request
  const EOnUnlock := -1
  const EOnChange := -2

  type RequestType = t: int | t == EOnUnlock || t == EOnChange witness EOnUnlock

  /** A message completed with a status. */
  datatype Completion = Completion(message: int, status: int)

  /** The state of a notifier: pending is the type of the outstanding request, or, when there
      is none, the event to be reported to the next. */
  datatype State = State(pending: int, attached: bool, message: int, completed: seq<Completion>) {
    predicate Outstanding() { pending < 0 }
  }

  const Initial := State(0, true, 0, [])

  function Complete(s: State, status: int): State {
    s.(pending := 0, completed := s.completed + [Completion(s.message, status)])
  }

  function Notify(s: State, message: int, kind: RequestType): State {
    var s1 := s.(message := message);
    if s.pending > EUnlock then Complete(s1, s.pending)
    else if !s.attached then Complete(s1, EClose)
    else s1.(pending := kind)
  }

  function Cancel(s: State): State {
    if s.Outstanding() then Complete(s, KErrCancel) else s
  }

  function OnEvent(s: State, e: Event): State {
    var s1 := if e == EClose then s.(attached := false) else s;
    if s.Outstanding() then
      if e == EUnlock && s.pending == EOnChange then s1 else Complete(s1, e)
    else if e > s.pending then s1.(pending := e)
    else s1
  }

  // ----- runs -----

  datatype Input = Ask(message: int, kind: RequestType) | CancelAsk | Happens(e: Event)

  function Step(s: State, x: Input): State {
    match x
    case Ask(message, kind) => Notify(s, message, kind)
    case CancelAsk => Cancel(s)
    case Happens(e) => OnEvent(s, e)
  }

  function Run(xs: seq<Input>): State {
    if xs == [] then Initial else Step(Run(xs[..|xs| - 1]), xs[|xs| - 1])
  }

  /** A request while one is outstanding panics the client; there is none in the run. */
  predicate Polite(xs: seq<Input>) {
    xs == [] || (Polite(xs[..|xs| - 1]) && (xs[|xs| - 1].Ask? ==> !Run(xs[..|xs| - 1]).Outstanding()))
  }

  /** The requests of a run, in order. */
  function Asked(xs: seq<Input>): seq<Input> {
    if xs == [] then []
    else Asked(xs[..|xs| - 1]) + if xs[|xs| - 1].Ask? then [xs[|xs| - 1]] else []
  }

  /** The most significant event that found no request outstanding, since the last completion. */
  function Missed(xs: seq<Input>): int {
    if xs == [] then 0
    else
      var before := Run(xs[..|xs| - 1]);
      var x := xs[|xs| - 1];
      if |Run(xs).completed| > |before.completed| then 0
      else if x.Happens? && !before.Outstanding() && x.e > Missed(xs[..|xs| - 1]) then x.e
      else Missed(xs[..|xs| - 1])
  }

  /** Each request is completed once, in the order of asking, or it is the outstanding one. */
  lemma {:induction false} CompletedOnce(xs: seq<Input>)
    requires Polite(xs)
    ensures var s, asked := Run(xs), Asked(xs);
            && |asked| == |s.completed| + (if s.Outstanding() then 1 else 0)
            && (forall i :: 0 <= i < |s.completed| ==> asked[i].Ask? && s.completed[i].message == asked[i].message)
            && (s.Outstanding() ==> asked[|asked| - 1] == Ask(s.message, s.pending))
  {
    if xs != [] { CompletedOnce(xs[..|xs| - 1]); }
  }

  /** What is stored is exactly the most significant missed event, unlock events aside. */
  lemma {:induction false} NothingLost(xs: seq<Input>)
    requires Polite(xs)
    ensures var s := Run(xs);
            && EClose <= Missed(xs) <= ERecover
            && (s.Outstanding() ==> Missed(xs) <= EUnlock)
            && (!s.Outstanding() ==> if Missed(xs) > EUnlock then s.pending == Missed(xs) else s.pending <= EUnlock)
  {
    if xs != [] { NothingLost(xs[..|xs| - 1]); }
  }

  /** So the next request is completed at once with that event; without one it is completed
      with a close event if the database is closed, and waits otherwise. */
  lemma NextRequest(xs: seq<Input>, message: int, kind: RequestType)
    requires Polite(xs) && !Run(xs).Outstanding()
    ensures var s, s' := Run(xs), Run(xs + [Ask(message, kind)]);
            s'.completed == s.completed +
              (if Missed(xs) > EUnlock then [Completion(message, Missed(xs))]
               else if !s.attached then [Completion(message, EClose)]
               else [])
  {
    NothingLost(xs);
    assert (xs + [Ask(message, kind)])[..|xs|] == xs;
  }

  /** A significant event reaches the outstanding request, whatever its type. */
  lemma OutstandingRequest(xs: seq<Input>, e: Event)
    requires Polite(xs) && Run(xs).Outstanding()
    ensures var s, s' := Run(xs), Run(xs + [Happens(e)]);
            s'.completed == if e == EUnlock && s.pending == EOnChange then s.completed
                            else s.completed + [Completion(s.message, e)]
  {
    assert (xs + [Happens(e)])[..|xs|] == xs;
  }

  /** A request for changes is never completed by an unlock event. */
  lemma {:induction false} ChangeIsNotUnlock(xs: seq<Input>)
    requires Polite(xs)
    ensures var s, asked := Run(xs), Asked(xs);
            forall i :: 0 <= i < |s.completed| && i < |asked| && s.completed[i].status == EUnlock ==>
              asked[i].Ask? && asked[i].kind == EOnUnlock
  {
    if xs != [] {
      var before := xs[..|xs| - 1];
      ChangeIsNotUnlock(before);
      CompletedOnce(before);
      CompletedOnce(xs);
    }
  }

  /** The database is closed for a notifier exactly when a close event has reached it. */
  lemma {:induction false} DetachedIffClosed(xs: seq<Input>)
    ensures !Run(xs).attached <==> Happens(EClose) in xs
  {
    if xs != [] {
      DetachedIffClosed(xs[..|xs| - 1]);
      assert xs == xs[..|xs| - 1] + [xs[|xs| - 1]];
    }
  }

  // ----- the objects -----

  class HObserver {
    var pending: int
    var attached: bool
    var message: int
    var completed: seq<Completion>

    function Value(): State
      reads this
    {
      State(pending, attached, message, completed)
    }

    constructor ()
      ensures Value() == Initial
    {
      pending, attached, message, completed := 0, true, 0, [];
    }

    method CompleteMessage(status: int)
      modifies this
      ensures Value() == Complete(old(Value()), status)
    {
      pending := 0;
      completed := completed + [Completion(message, status)];
    }

    method NotifyL(msg: int, kind: RequestType)
      requires pending >= 0
      modifies this
      ensures Value() == Notify(old(Value()), msg, kind)
    {
      message := msg;
      if pending > EUnlock {
        CompleteMessage(pending);
      } else if !attached {
        CompleteMessage(EClose);
      } else {
        pending := kind;
      }
    }

    method CancelRequest()
      modifies this
      ensures Value() == Cancel(old(Value()))
    {
      if pending < 0 { CompleteMessage(KErrCancel); }
    }

    method Happened(e: Event)
      modifies this
      ensures Value() == OnEvent(old(Value()), e)
    {
      if e == EClose { attached := false; }
      if pending < 0 {
        if !(e == EUnlock && pending == EOnChange) { CompleteMessage(e); }
      } else if e > pending {
        pending := e;
      }
    }
  }

  /** The notifiers on one database, and whether an event has been asked for from it. */
  class DatabaseObserver {
    var queue: seq<HObserver>
    var active: bool
    var closed: bool

    /** Queued notifiers are distinct, and while there are any, events come in. */
    ghost predicate Valid()
      reads this
    {
      (forall i, j :: 0 <= i < j < |queue| ==> queue[i] != queue[j]) && (queue != [] ==> active)
    }

    constructor ()
      ensures Valid() && queue == [] && !closed
    {
      queue, active, closed := [], false, false;
    }

    method OpenObserver() returns (ob: HObserver)
      requires Valid()
      modifies this
      ensures Valid() && fresh(ob) && ob.Value() == Initial && queue == old(queue) + [ob]
    {
      ob := new HObserver();
      queue := queue + [ob];
      if !active { active := true; }
    }

    /** The destructor of a client's notifier. */
    method CloseObserver(ob: HObserver)
      requires Valid()
      modifies this, ob
      ensures Valid() && ob.Value() == Cancel(old(ob.Value()))
      ensures forall x :: x in queue <==> x in old(queue) && x != ob
    {
      ob.CancelRequest();
      Dequeue(ob);
    }

    method Dequeue(ob: HObserver)
      requires Valid()
      modifies this`queue
      ensures Valid()
      ensures forall x :: x in queue <==> x in old(queue) && x != ob
      ensures old(queue) != [] && old(queue)[0] == ob ==> queue == old(queue)[1..]
    {
      var i := 0;
      while i < |queue| && queue[i] != ob
        invariant 0 <= i <= |queue|
        invariant forall k :: 0 <= k < i ==> queue[k] != ob
      {
        i := i + 1;
      }
      if i < |queue| {
        assert queue == queue[..i] + [ob] + queue[i + 1..];
        queue := queue[..i] + queue[i + 1..];
      }
    }

    /** One event from the database: every queued notifier gets it once. A close event takes
        them off the queue, and then the source is told; otherwise the next event is awaited. */
    method RunL(e: Event)
      requires Valid() && active
      modifies this, queue
      ensures Valid()
      ensures forall x :: x in old(queue) ==> x.Value() == OnEvent(old(x.Value()), e)
      ensures queue == if e == EClose then [] else old(queue)
      ensures active <==> queue != []
      ensures closed <==> old(closed) || e == EClose
    {
      active := false;
      ghost var all, n := queue, 0;
      var rest := queue;
      while rest != []
        invariant n <= |all| && rest == all[n..] && queue == if e == EClose then rest else all
        invariant forall i :: 0 <= i < |all| ==>
          all[i].Value() == if i < n then OnEvent(old(all[i].Value()), e) else old(all[i].Value())
        invariant closed == old(closed) && !active
        decreases |rest|
      {
        var ob := rest[0];
        rest := rest[1..];
        ob.Happened(e);
        if e == EClose { queue := queue[1..]; }
        n := n + 1;
      }
      if queue != [] {
        active := true;
      } else if e == EClose {
        closed := true;
      }
    }
  }
}
