/** The blocking work queue (`wait_list_t`): the critical sections of its calls on
    the intrusive list, and all interleavings of threads that put, get, sleep on
    the condition variable and are woken. */
module WaitList {
  import opened LinkedList

  // ---- the critical sections ----

  /** What a getter finds under the mutex: it must sleep, it takes an item, or
      the queue has been flushed. */
  datatype Attempt<T> = MustWait | Taken(item: T) | Dead

  // The queue from the head on; `put` adds at the head.
  function PutQueue<T>(alive: bool, queue: seq<T>, item: T): seq<T> {
    if alive then [item] + queue else queue
  }

  function TryGet<T>(alive: bool, queue: seq<T>, fromHead: bool): Attempt<T> {
    if !alive then Dead
    else if queue == [] then MustWait
    else Taken(if fromHead then queue[0] else queue[|queue| - 1])
  }

  function GetQueue<T>(alive: bool, queue: seq<T>, fromHead: bool): seq<T> {
    if !alive || queue == [] then queue
    else if fromHead then queue[1..] else queue[..|queue| - 1]
  }

  class Queue {
    const list: List
    var alive: bool
    var num: int

    ghost predicate Valid()
      reads this, list, list.head, list.nodes
    {
      list.Valid() && num == |list.nodes|
    }

    constructor ()
      ensures Valid() && alive && list.nodes == [] && fresh(list) && fresh(list.head)
    {
      list := new List();
      alive, num := true, 0;
    }

    /** The critical section of put, without the signal. */
    method Put(node: Link)
      requires Valid() && node != list.head && node !in list.nodes
      modifies this`num, list, list.head, list.nodes, node
      ensures Valid() && alive == old(alive)
      ensures list.nodes == PutQueue(old(alive), old(list.nodes), node)
    {
      if alive {
        list.Add(node);
        num := num + 1;
      }
    }

    /** One pass of get or get_from_head through the test of its waiting loop. */
    method Get(fromHead: bool) returns (r: Attempt<Link>)
      requires Valid()
      modifies this`num, list, list.head, list.nodes
      ensures Valid() && alive == old(alive)
      ensures r == TryGet(old(alive), old(list.nodes), fromHead)
      ensures list.nodes == GetQueue(old(alive), old(list.nodes), fromHead)
    {
      var empty := list.IsEmpty();
      if alive && empty {
        return MustWait;
      }
      if !alive {
        return Dead;
      }
      list.Ends();
      var item := list.Entry(if fromHead then list.head.next else list.head.prev);
      r := Taken(item);
      list.Del(item, if fromHead then 0 else |list.nodes| - 1);
      num := num - 1;
    }

    method Flush()
      requires Valid()
      modifies this`alive
      ensures Valid() && !alive && list.nodes == old(list.nodes)
    {
      alive := false;
    }
  }

  // ---- all interleavings ----

  type Tid = nat

  /** What a thread got: nothing after a flush, or an item. */
  datatype Answer<T> = Null | Item(item: T)

  /** sleeping and woken hold the threads inside pthread_cond_wait, before and
      after their wakeup, with the end they take from; accepted lists the items
      put while alive; answers lists what the gets returned, oldest first. */
  datatype State<T> = State(alive: bool, num: int, queue: seq<T>, sleeping: map<Tid, bool>, woken: map<Tid, bool>,
                            accepted: seq<T>, answers: seq<(bool, Answer<T>)>)

  datatype Event<T> =
    | EvPut(item: T, wake: set<Tid>)   // pthread_cond_signal wakes at least one sleeper, if any
    | EvGet(tid: Tid, fromHead: bool)  // a thread enters get or get_from_head
    | EvResume(tid: Tid)               // a woken thread has the mutex again
    | EvSpurious(tid: Tid)             // a sleeper wakes up without a signal
    | EvFlush

  function Initial<T>(): State<T> {
    State(true, 0, [], map[], map[], [], [])
  }

  function Wake(s: State, who: set<Tid>): State {
    s.(sleeping := s.sleeping - who,
       woken := s.woken + map t | t in who && t in s.sleeping :: s.sleeping[t])
  }

  // One pass through the waiting loop by a thread that holds the mutex.
  function Attempted<T>(s: State<T>, tid: Tid, fromHead: bool): State<T> {
    match TryGet(s.alive, s.queue, fromHead)
    case MustWait => s.(sleeping := s.sleeping[tid := fromHead])
    case Taken(item) => s.(queue := GetQueue(s.alive, s.queue, fromHead), num := s.num - 1,
                           answers := s.answers + [(fromHead, Item(item))])
    case Dead => s.(answers := s.answers + [(fromHead, Null)])
  }

  ghost predicate Next<T(!new)>(s: State<T>, e: Event<T>, s': State<T>) {
    match e
    case EvPut(item, wake) =>
      && wake <= s.sleeping.Keys && (s.sleeping != map[] ==> wake != {})
      && s' == Wake(s.(queue := PutQueue(s.alive, s.queue, item),
                       num := if s.alive then s.num + 1 else s.num,
                       accepted := if s.alive then s.accepted + [item] else s.accepted), wake)
    case EvGet(tid, fromHead) =>
      tid !in s.sleeping && tid !in s.woken && s' == Attempted(s, tid, fromHead)
    case EvResume(tid) =>
      tid in s.woken && s' == Attempted(s.(woken := s.woken - {tid}), tid, s.woken[tid])
    case EvSpurious(tid) =>
      tid in s.sleeping && s' == Wake(s, {tid})
    case EvFlush =>
      s' == Wake(s.(alive := false), s.sleeping.Keys)
  }

  // A run: from the initial state, one event after the other.
  ghost predicate Run<T(!new)>(states: seq<State<T>>, events: seq<Event<T>>) {
    && |states| == |events| + 1
    && states[0] == Initial()
    && forall i :: 0 <= i < |events| ==> Next(states[i], events[i], states[i + 1])
  }

  // ---- the invariant ----

  function Items<T>(answers: seq<(bool, Answer<T>)>): seq<T> {
    if answers == [] then []
    else
      var last := answers[|answers| - 1];
      Items(answers[..|answers| - 1]) + (if last.1.Item? then [last.1.item] else [])
  }

  /** While alive, sleepers only exist when enough getters have been woken to take
      every queued item; after the flush nobody sleeps.  No thread is both asleep
      and awake, and every accepted item is either queued or was handed out. */
  ghost predicate Inv<T(!new)>(s: State<T>) {
    && s.num == |s.queue|
    && s.sleeping.Keys !! s.woken.Keys
    && (s.alive ==> s.sleeping == map[] || |s.woken| >= |s.queue|)
    && (!s.alive ==> s.sleeping == map[])
    && multiset(s.accepted) == multiset(Items(s.answers)) + multiset(s.queue)
  }

  lemma ItemsStep<T>(answers: seq<(bool, Answer<T>)>, a: (bool, Answer<T>))
    ensures Items(answers + [a]) == Items(answers) + (if a.1.Item? then [a.1.item] else [])
  {
    assert (answers + [a])[..|answers|] == answers;
  }

  lemma WakeCounts(s: State, who: set<Tid>)
    requires who <= s.sleeping.Keys && s.sleeping.Keys !! s.woken.Keys
    ensures var s' := Wake(s, who);
            && s'.sleeping.Keys == s.sleeping.Keys - who && s'.woken.Keys == s.woken.Keys + who
            && |s'.woken| == |s.woken| + |who|
  {
    var s' := Wake(s, who);
    assert s'.woken.Keys == s.woken.Keys + who;
    assert |s'.woken.Keys| == |s'.woken| && |s.woken.Keys| == |s.woken|;
  }

  lemma PutKeeps<T(!new)>(s: State<T>, item: T, wake: set<Tid>, s': State<T>)
    requires Inv(s) && Next(s, EvPut(item, wake), s')
    ensures Inv(s')
  {
    var mid := s.(queue := PutQueue(s.alive, s.queue, item),
                  num := if s.alive then s.num + 1 else s.num,
                  accepted := if s.alive then s.accepted + [item] else s.accepted);
    WakeCounts(mid, wake);
    if wake != {} {
      var t :| t in wake;
      assert |wake| >= 1;
    }
  }

  lemma AttemptKeeps<T(!new)>(s: State<T>, tid: Tid, fromHead: bool)
    requires s.num == |s.queue| && s.sleeping.Keys !! s.woken.Keys && tid !in s.woken
    requires s.alive ==> s.sleeping == map[] || |s.woken| + 1 >= |s.queue|
    requires !s.alive ==> s.sleeping == map[]
    requires multiset(s.accepted) == multiset(Items(s.answers)) + multiset(s.queue)
    ensures Inv(Attempted(s, tid, fromHead))
  {
    hide Items;
    match TryGet(s.alive, s.queue, fromHead) {
      case MustWait =>
        assert (s.sleeping[tid := fromHead]).Keys == s.sleeping.Keys + {tid};
      case Taken(item) =>
        TakenKeeps(s.accepted, s.answers, s.alive, s.queue, fromHead, item);
      case Dead =>
        ItemsStep(s.answers, (fromHead, Null));
    }
  }

  lemma TakenKeeps<T(!new)>(accepted: seq<T>, answers: seq<(bool, Answer<T>)>, alive: bool, q: seq<T>, fromHead: bool,
      item: T)
    requires multiset(accepted) == multiset(Items(answers)) + multiset(q) && TryGet(alive, q, fromHead) == Taken(item)
    ensures var rest := GetQueue(alive, q, fromHead);
      && |rest| == |q| - 1
      && multiset(accepted) == multiset(Items(answers + [(fromHead, Item(item))])) + multiset(rest)
  {
    hide Items, GetQueue;
    ItemsStep(answers, (fromHead, Item(item)));
    TakeOne(alive, q, fromHead, item);
    Handed(accepted, Items(answers), q, GetQueue(alive, q, fromHead), item);
  }

  lemma Handed<T>(accepted: seq<T>, out: seq<T>, q: seq<T>, rest: seq<T>, item: T)
    requires multiset(accepted) == multiset(out) + multiset(q) && multiset(q) == multiset(rest) + multiset{item}
    ensures multiset(accepted) == multiset(out + [item]) + multiset(rest)
  {
  }

  // The queue loses exactly the item handed out.
  lemma TakeOne<T>(alive: bool, q: seq<T>, fromHead: bool, item: T)
    requires TryGet(alive, q, fromHead) == Taken(item)
    ensures multiset(q) == multiset(GetQueue(alive, q, fromHead)) + multiset{item}
    ensures |GetQueue(alive, q, fromHead)| == |q| - 1
  {
    if fromHead { assert q == [q[0]] + q[1..]; } else { assert q == q[..|q| - 1] + [q[|q| - 1]]; }
  }

  /** Every step keeps the invariant, whatever thread moves. */
  lemma StepKeeps<T(!new)>(s: State<T>, e: Event<T>, s': State<T>)
    requires Inv(s) && Next(s, e, s')
    ensures Inv(s')
  {
    hide Items, Inv, Attempted, Wake;
    match e {
      case EvPut(item, wake) => PutKeeps(s, item, wake, s');
      case EvGet(tid, fromHead) => GetKeeps(s, tid, fromHead);
      case EvResume(tid) => ResumeKeeps(s, tid);
      case EvSpurious(tid) => WakingKeeps(s, {tid}, s.alive);
      case EvFlush => WakingKeeps(s, s.sleeping.Keys, false);
    }
  }

  lemma GetKeeps<T(!new)>(s: State<T>, tid: Tid, fromHead: bool)
    requires Inv(s) && tid !in s.woken
    ensures Inv(Attempted(s, tid, fromHead))
  {
    hide Items, Attempted;
    AttemptKeeps(s, tid, fromHead);
  }

  lemma WakingKeeps<T(!new)>(s: State<T>, who: set<Tid>, alive: bool)
    requires Inv(s) && who <= s.sleeping.Keys && (alive == s.alive || (!alive && who == s.sleeping.Keys))
    ensures Inv(Wake(s.(alive := alive), who))
  {
    hide Items;
    WakeCounts(s.(alive := alive), who);
  }

  lemma ResumeKeeps<T(!new)>(s: State<T>, tid: Tid)
    requires Inv(s) && tid in s.woken
    ensures Inv(Attempted(s.(woken := s.woken - {tid}), tid, s.woken[tid]))
  {
    hide Items, Attempted;
    var mid := s.(woken := s.woken - {tid});
    assert mid.woken.Keys == s.woken.Keys - {tid};
    assert |mid.woken.Keys| == |mid.woken| && |s.woken.Keys| == |s.woken|;
    AttemptKeeps(mid, tid, s.woken[tid]);
  }

  lemma {:induction false} RunKeeps<T(!new)>(states: seq<State<T>>, events: seq<Event<T>>, n: nat)
    requires Run(states, events) && n < |states|
    ensures Inv(states[n])
    decreases n
  {
    hide Inv, Next;
    if n > 0 {
      RunKeeps(states, events, n - 1);
      assert Next(states[n - 1], events[n - 1], states[n - 1 + 1]);
      StepKeeps(states[n - 1], events[n - 1], states[n]);
    } else {
      InitialInv<T>();
    }
  }

  lemma InitialInv<T(!new)>()
    ensures Inv(Initial<T>())
  {
  }

  /** No lost wakeup: in every state of every run, an item that is queued while
      somebody sleeps has a woken getter on its way. */
  lemma NoLostWakeup<T(!new)>(states: seq<State<T>>, events: seq<Event<T>>, n: nat)
    requires Run(states, events) && n < |states|
    ensures var s := states[n];
            && (s.sleeping != map[] ==> s.alive && |s.woken| >= |s.queue|)
            && (s.sleeping != map[] && s.queue != [] ==> s.woken != map[])
            && s.num == |s.queue|
            && multiset(s.accepted) == multiset(Items(s.answers)) + multiset(s.queue)
  {
    RunKeeps(states, events, n);
  }

  // ---- order ----

  function Backwards<T>(s: seq<T>): (r: seq<T>)
    ensures |r| == |s| && forall i :: 0 <= i < |s| ==> r[i] == s[|s| - 1 - i]
  {
    seq(|s|, i requires 0 <= i < |s| => s[|s| - 1 - i])
  }

  ghost predicate OnlyTail<T(!new)>(events: seq<Event<T>>) {
    forall i :: 0 <= i < |events| ==> (events[i].EvGet? ==> !events[i].fromHead)
  }

  // All getters take from the tail, and the items went out in the order they came in.
  ghost predicate InOrder<T(!new)>(s: State<T>) {
    && (forall t :: t in s.sleeping ==> !s.sleeping[t])
    && (forall t :: t in s.woken ==> !s.woken[t])
    && s.accepted == Items(s.answers) + Backwards(s.queue)
  }

  lemma TailKeepsOrder<T(!new)>(s: State<T>, tid: Tid)
    requires InOrder(s)
    ensures InOrder(Attempted(s, tid, false))
  {
    var q := s.queue;
    match TryGet(s.alive, q, false) {
      case MustWait =>
      case Taken(item) =>
        ItemsStep(s.answers, (false, Item(item)));
        var rest := q[..|q| - 1];
        assert Backwards(q) == [item] + Backwards(rest);
      case Dead =>
        ItemsStep(s.answers, (false, Null));
    }
  }

  lemma StepKeepsOrder<T(!new)>(s: State<T>, e: Event<T>, s': State<T>)
    requires InOrder(s) && Next(s, e, s') && (e.EvGet? ==> !e.fromHead)
    ensures InOrder(s')
  {
    match e {
      case EvPut(item, wake) =>
        assert Backwards([item] + s.queue) == Backwards(s.queue) + [item];
      case EvGet(tid, fromHead) => TailKeepsOrder(s, tid);
      case EvResume(tid) => TailKeepsOrder(s.(woken := s.woken - {tid}), tid);
      case EvSpurious(tid) =>
      case EvFlush =>
    }
  }

  /** With get alone the items are handed out once each in the order of the puts. */
  lemma {:induction false} FirstInFirstOut<T(!new)>(states: seq<State<T>>, events: seq<Event<T>>, n: nat)
    requires Run(states, events) && OnlyTail(events) && n < |states|
    ensures InOrder(states[n])
    ensures Items(states[n].answers) <= states[n].accepted
    decreases n
  {
    hide Next, Items;
    if n == 0 {
      NothingOut<T>();
    } else {
      assert Next(states[n - 1], events[n - 1], states[n - 1 + 1]);
      FirstInFirstOut(states, events, n - 1);
      StepKeepsOrder(states[n - 1], events[n - 1], states[n]);
    }
  }

  lemma NothingOut<T(!new)>()
    ensures InOrder(Initial<T>())
  {
  }

  // ---- which item a get hands out ----

  /** The acceptance numbers of the queued items, oldest first. */
  ghost predicate Ledger<T(!new)>(s: State<T>, open: seq<nat>) {
    && (forall i, j :: 0 <= i < j < |open| ==> open[i] < open[j])
    && |open| == |s.queue|
    && (forall i :: 0 <= i < |open| ==> open[i] < |s.accepted| && s.queue[|open| - 1 - i] == s.accepted[open[i]])
  }

  /** What a step does to the open items, told from what was accepted and answered: an accepted item
      is opened, get closes the oldest open item and hands it out, get_from_head the newest. */
  ghost predicate Accounts<T(!new)>(s: State<T>, s': State<T>, open: seq<nat>, open': seq<nat>)
    requires forall i :: 0 <= i < |open| ==> open[i] < |s.accepted|
  {
    if s'.accepted != s.accepted then
      && |s'.accepted| == |s.accepted| + 1 && s.accepted <= s'.accepted
      && s'.answers == s.answers && open' == open + [|s.accepted|]
    else if s'.answers != s.answers then
      && |s'.answers| == |s.answers| + 1 && s.answers <= s'.answers
      && var (fromHead, answer) := s'.answers[|s.answers|];
         match answer
         case Null => open' == open
         case Item(item) =>
           && open != []
           && if fromHead then item == s.accepted[open[|open| - 1]] && open' == open[..|open| - 1]
              else item == s.accepted[open[0]] && open' == open[1..]
    else open' == open
  }

  lemma StepAccounts<T(!new)>(s: State<T>, e: Event<T>, s': State<T>, open: seq<nat>) returns (open': seq<nat>)
    requires Next(s, e, s') && Ledger(s, open)
    ensures Ledger(s', open') && Accounts(s, s', open, open')
  {
    open' := open;
    match e
    case EvPut(item, _) =>
      if s.alive {
        open' := open + [|s.accepted|];
      }
    case EvGet(tid, fromHead) => open' := AttemptAccounts(s, tid, fromHead, open);
    case EvResume(tid) => open' := AttemptAccounts(s.(woken := s.woken - {tid}), tid, s.woken[tid], open);
    case _ =>
  }

  lemma AttemptAccounts<T(!new)>(s: State<T>, tid: Tid, fromHead: bool, open: seq<nat>) returns (open': seq<nat>)
    requires Ledger(s, open)
    ensures Ledger(Attempted(s, tid, fromHead), open') && Accounts(s, Attempted(s, tid, fromHead), open, open')
  {
    open' := open;
    if TryGet(s.alive, s.queue, fromHead).Taken? {
      open' := if fromHead then open[..|open| - 1] else open[1..];
    }
  }

  /** In every run each answer of get is the oldest open item, each answer of get_from_head the newest. */
  lemma {:induction false} OldestOrNewest<T(!new)>(states: seq<State<T>>, events: seq<Event<T>>, n: nat)
    returns (opens: seq<seq<nat>>)
    requires Run(states, events) && n < |states|
    ensures |opens| == n + 1 && opens[0] == []
    ensures forall i :: 0 <= i <= n ==> Ledger(states[i], opens[i])
    ensures forall i :: 0 <= i < n ==>
      Ledger(states[i], opens[i]) && Accounts(states[i], states[i + 1], opens[i], opens[i + 1])
    decreases n
  {
    hide Next, Accounts;
    if n == 0 {
      opens := [[]];
    } else {
      var before := OldestOrNewest(states, events, n - 1);
      assert Next(states[n - 1], events[n - 1], states[n - 1 + 1]);
      var open := StepAccounts(states[n - 1], events[n - 1], states[n], before[n - 1]);
      opens := before + [open];
    }
  }

  // ---- after a flush ----

  /** After the flush nobody sleeps any more, nothing is accepted or handed out,
      and every get that finishes returns NULL. */
  lemma {:induction false} FlushIsFinal<T(!new)>(states: seq<State<T>>, events: seq<Event<T>>, m: nat, n: nat)
    requires Run(states, events) && m <= n < |states| && !states[m].alive
    ensures var s, s' := states[m], states[n];
            && !s'.alive && s'.sleeping == map[]
            && s'.accepted == s.accepted && s'.queue == s.queue
            && s.answers <= s'.answers
            && forall i :: |s.answers| <= i < |s'.answers| ==> s'.answers[i].1 == Null
    decreases n
  {
    hide Inv, Next;
    RunKeeps(states, events, m);
    NobodySleeps(states[m]);
    if m < n {
      FlushIsFinal(states, events, m, n - 1);
      RunKeeps(states, events, n - 1);
      assert Next(states[n - 1], events[n - 1], states[n - 1 + 1]);
      DeadStep(states[n - 1], events[n - 1], states[n]);
    }
  }

  lemma NobodySleeps<T(!new)>(s: State<T>)
    requires Inv(s) && !s.alive
    ensures s.sleeping == map[]
  {
  }

  lemma DeadStep<T(!new)>(s: State<T>, e: Event<T>, s': State<T>)
    requires Inv(s) && !s.alive && Next(s, e, s')
    ensures !s'.alive && s'.sleeping == map[] && s'.accepted == s.accepted && s'.queue == s.queue
    ensures s'.answers == s.answers || exists end :: s'.answers == s.answers + [(end, Null)]
  {
    hide Items;
  }
}
