/** Event queues (kernel/src/event.h:66-179, kernel/src/event.cpp:45-68).

    A process has queues; each queue listens to (type, filter) pairs and buffers the events it is
    notified of until they are popped.  The main result is about whole runs: what a queue has
    handed out followed by what it still holds is, in order, exactly what it was listening to when
    it was notified. */
module Events {
  import opened RingBuffers

  /** EventType::COUNT */
  const COUNT: nat := 3

  /** ProcFD; equality of filters compares its bytes. */
  type Filter = int

  datatype Event = Event(typ: nat, filter: Filter, data: seq<int>)

  const INVALID := Event(0, -1, [])

  // ------------------------------------------------------------------ listeners

  function Erase<T(==)>(s: seq<T>, x: T): seq<T> {
    if s == [] then [] else (if s[0] == x then [] else [s[0]]) + Erase(s[1..], x)
  }

  lemma {:induction false} EraseMembers<T>(s: seq<T>, x: T, y: T)
    ensures y in Erase(s, x) <==> y in s && y != x
  {
    if s != [] {
      EraseMembers(s[1..], x, y);
    }
  }

  /** EventManager */
  class Manager {
    /** Listeners; a type that is not a key has none. */
    var listeners: map<nat, seq<nat>>

    constructor ()
      ensures listeners == map[] && NoListeners()
    {
      listeners := map[];
    }

    function Of(e: nat): seq<nat>
      reads this
    {
      if e in listeners then listeners[e] else []
    }

    ghost predicate NoListeners()
      reads this
    {
      forall e: nat :: Of(e) == []
    }

    /** register_listener: as written, it adds a process only if it is already there. */
    method RegisterListener(e: nat, pid: nat)
      modifies this
      ensures forall x: nat ::
                Of(x) == if x == e && e < COUNT && pid in old(Of(e)) then old(Of(e)) + [pid] else old(Of(x))
      ensures old(NoListeners()) ==> NoListeners()
    {
      if e >= COUNT {
        return;
      }
      if pid in Of(e) {
        listeners := listeners[e := Of(e) + [pid]];
      }
    }

    method UnregisterListener(e: nat, pid: nat) returns (erased: bool)
      modifies this
      ensures forall x: nat :: Of(x) == if x == e && e < COUNT then Erase(old(Of(e)), pid) else old(Of(x))
      ensures erased <==> e < COUNT && pid in old(Of(e))
      ensures old(NoListeners()) ==> NoListeners()
    {
      if e >= COUNT {
        return false;
      }
      ErasedSome(Of(e), pid);
      erased := |Erase(Of(e), pid)| < |Of(e)|;
      listeners := listeners[e := Erase(Of(e), pid)];
    }
  }

  lemma {:induction false} ErasedSome<T>(s: seq<T>, x: T)
    ensures |Erase(s, x)| <= |s| && (|Erase(s, x)| < |s| <==> x in s)
  {
    if s != [] {
      ErasedSome(s[1..], x);
    }
  }

  // -------------------------------------------------------------------- queues

  /** EventQueue */
  class Queue {
    const pid: nat
    const events: RingBuffer<Event>
    var filters: seq<seq<Filter>>

    constructor (pid: nat, size: nat)
      requires size > 0
      ensures Valid() && this.pid == pid && events.data.Length == size && fresh(events) && fresh(events.data)
      ensures Pending() == [] && filters == [[], [], []]
    {
      this.pid := pid;
      events := new RingBuffer<Event>(size);
      filters := [[], [], []];
    }

    ghost predicate Valid()
      reads this, events
    {
      events.Valid() && |filters| == COUNT
    }

    ghost function Pending(): seq<Event>
      reads this, events, events.data
      requires Valid()
    {
      events.Contents()
    }

    method RegisterListening(manager: Manager, e: nat, f: Filter)
      requires Valid()
      modifies this`filters, manager
      ensures Valid() && filters == (if e < COUNT then old(filters)[e := old(filters)[e] + [f]] else old(filters))
      ensures old(manager.NoListeners()) ==> manager.NoListeners()
    {
      if e >= COUNT {
        return;
      }
      filters := filters[e := filters[e] + [f]];
      manager.RegisterListener(e, pid);
    }

    method UnregisterListening(manager: Manager, e: nat, f: Filter)
      requires Valid()
      modifies this`filters, manager
      ensures Valid() && filters == (if e < COUNT then old(filters)[e := Erase(old(filters)[e], f)] else old(filters))
      ensures old(manager.NoListeners()) ==> manager.NoListeners()
    {
      if e >= COUNT {
        return;
      }
      filters := filters[e := Erase(filters[e], f)];
      if |filters[e]| == 0 {
        var erased := manager.UnregisterListener(e, pid);
      }
    }

    predicate Listens(e: nat, f: Filter)
      reads this
      requires |filters| == COUNT
    {
      e < COUNT && f in filters[e]
    }

    /** push.  With room in the buffer the event comes last; what a full one does depends on where its head is. */
    method Push(e: Event)
      requires Valid()
      modifies events, events.data
      ensures Valid() <==> !old(events.Full()) || old(events.head) != events.data.Length - 1 || events.data.Length == 1
      ensures !old(events.Full()) ==> Pending() == old(Pending()) + [e]
      ensures old(events.Full()) && 0 < old(events.head) < events.data.Length - 1 ==>
                Pending() == old(Pending())[1..] + [e]
      ensures old(events.Full()) && old(events.head) == 0 ==> Pending() == []
    {
      events.PushBack(e);
    }

    /** pop: the oldest event, or an invalid one when there is none */
    method Pop() returns (e: Event)
      requires Valid()
      modifies events
      ensures Valid()
      ensures old(Pending()) == [] ==> e == INVALID && e.typ == 0 && e.filter == -1 && Pending() == []
      ensures old(Pending()) != [] ==> e == old(Pending())[0] && Pending() == old(Pending())[1..]
    {
      var n := events.Size();
      if n != 0 {
        e := events.PopFront();
      } else {
        e := INVALID;
      }
    }
  }

  // ------------------------------------------------------------- one process

  class Process {
    const pid: nat
    const queues: seq<Queue>

    constructor (pid: nat, queues: seq<Queue>)
      ensures this.pid == pid && this.queues == queues
    {
      this.pid, this.queues := pid, queues;
    }

    /** The queues share nothing. */
    ghost predicate Separate() {
      && (forall i, j :: 0 <= i < j < |queues| ==>
            && queues[i] != queues[j] && queues[i].events != queues[j].events
            && queues[i].events.data != queues[j].events.data)
    }

    ghost function Buffers(): set<object> {
      (set i | 0 <= i < |queues| :: queues[i].events as object)
      + (set i | 0 <= i < |queues| :: queues[i].events.data as object)
    }

    ghost predicate Valid()
      reads queues, Buffers()
    {
      Separate() && forall i :: 0 <= i < |queues| ==> queues[i].Valid()
    }

    /** What the queues hold, one by one. */
    ghost function Pendings(): seq<seq<Event>>
      reads queues, Buffers()
      requires Valid()
    {
      seq(|queues|, i requires 0 <= i < |queues| reads queues, Buffers() requires Valid() => queues[i].Pending())
    }

    ghost function Filters(): seq<seq<seq<Filter>>>
      reads queues
    {
      seq(|queues|, i requires 0 <= i < |queues| reads queues => queues[i].filters)
    }

    method PushTo(k: nat, event: Event)
      requires Valid() && k < |queues| && !queues[k].events.Full()
      modifies queues[k].events, queues[k].events.data
      ensures Valid() && Pendings() == old(Pendings())[k := old(Pendings())[k] + [event]]
    {
      queues[k].Push(event);
    }

    /** has_events */
    method HasEvents(k: nat) returns (b: bool)
      requires Valid() && k < |queues|
      ensures b <==> Pendings()[k] != []
    {
      var n := queues[k].events.Size();
      b := n != 0;
    }

    method PopFrom(k: nat) returns (e: Event)
      requires Valid() && k < |queues|
      modifies queues[k].events
      ensures Valid() && Filters() == old(Filters())
      ensures old(Pendings())[k] == [] ==> e == INVALID && Pendings() == old(Pendings())
      ensures old(Pendings())[k] != [] ==>
                e == old(Pendings())[k][0] && Pendings() == old(Pendings())[k := old(Pendings())[k][1..]]
    {
      e := queues[k].Pop();
    }

    method RegisterAt(manager: Manager, k: nat, e: nat, f: Filter)
      requires Valid() && k < |queues|
      modifies queues[k], manager
      ensures Valid() && Pendings() == old(Pendings()) && |Filters()| == |old(Filters())|
      ensures Filters() == old(Filters())[k := Registered(old(Filters())[k], e, f)]
      ensures old(manager.NoListeners()) ==> manager.NoListeners()
    {
      queues[k].RegisterListening(manager, e, f);
    }

    method UnregisterAt(manager: Manager, k: nat, e: nat, f: Filter)
      requires Valid() && k < |queues|
      modifies queues[k], manager
      ensures Valid() && Pendings() == old(Pendings()) && |Filters()| == |old(Filters())|
      ensures Filters() == old(Filters())[k := Unregistered(old(Filters())[k], e, f)]
      ensures old(manager.NoListeners()) ==> manager.NoListeners()
    {
      queues[k].UnregisterListening(manager, e, f);
    }

    /** EventManager::notify(event, process): every queue that listens gets the event, once; the
        manager's listeners play no part in it. */
    method Notify(manager: Manager, event: Event)
      requires Valid() && Room(Pendings(), Filters(), Sizes(), event)
      modifies manager, Buffers()
      ensures Valid() && Filters() == old(Filters())
      ensures Pendings() == Delivered(old(Pendings()), Filters(), event, |queues|)
      ensures old(manager.NoListeners()) ==> manager.NoListeners()
    {
      Shape();
      ghost var ps, fs := Pendings(), Filters();
      if event.typ >= COUNT {
        NobodyListens(ps, fs, event, |queues|);
        return;
      }
      hide Valid, Pendings, Filters, Delivered;
      var found := false;
      var k := 0;
      DeliveredNone(ps, fs, event);
      while k < |queues|
        invariant 0 <= k <= |queues| && Valid() && Filters() == fs
        invariant Pendings() == Delivered(ps, fs, event, k)
        invariant old(manager.NoListeners()) ==> manager.NoListeners()
      {
        DeliveredStep(ps, fs, event, k);
        var took := OfferTo(k, event);
        if took {
          found := true;
        }
        k := k + 1;
      }
      if !found {
        var erased := manager.UnregisterListener(event.typ, pid);
      }
    }

    lemma Shape()
      requires Valid()
      ensures |Pendings()| == |Filters()| == |Sizes()| == |queues|
    {}

    /** The loop body of lines 51-58. */
    method OfferTo(k: nat, event: Event) returns (took: bool)
      requires Valid() && k < |queues| && |Pendings()| == |Filters()| == |queues|
      requires ListensIn(Filters()[k], event.typ, event.filter) ==> |Pendings()[k]| + 1 < queues[k].events.data.Length
      modifies queues[k].events, queues[k].events.data
      ensures Valid() && Filters() == old(Filters())
      ensures took == ListensIn(Filters()[k], event.typ, event.filter)
      ensures Pendings() == if took then old(Pendings())[k := old(Pendings())[k] + [event]] else old(Pendings())
    {
      took := queues[k].Listens(event.typ, event.filter);
      if took {
        PushTo(k, event);
      }
    }

    ghost function Sizes(): seq<nat> {
      seq(|queues|, i requires 0 <= i < |queues| => queues[i].events.data.Length)
    }
  }

  // -------------------------------------------------- the abstract operations

  predicate ListensIn(filters: seq<seq<Filter>>, e: nat, f: Filter) {
    e < COUNT && e < |filters| && f in filters[e]
  }

  function Registered(filters: seq<seq<Filter>>, e: nat, f: Filter): seq<seq<Filter>> {
    if e < COUNT && e < |filters| then filters[e := filters[e] + [f]] else filters
  }

  function Unregistered(filters: seq<seq<Filter>>, e: nat, f: Filter): seq<seq<Filter>> {
    if e < COUNT && e < |filters| then filters[e := Erase(filters[e], f)] else filters
  }

  /** The first `k` queues have been offered the event. */
  function Delivered(pendings: seq<seq<Event>>, filters: seq<seq<seq<Filter>>>, event: Event, k: nat): seq<seq<Event>>
    requires |pendings| == |filters|
  {
    seq(|pendings|, i requires 0 <= i < |pendings| =>
      if i < k && ListensIn(filters[i], event.typ, event.filter) then pendings[i] + [event] else pendings[i])
  }

  lemma DeliveredNone(ps: seq<seq<Event>>, fs: seq<seq<seq<Filter>>>, event: Event)
    requires |ps| == |fs|
    ensures Delivered(ps, fs, event, 0) == ps
  {}

  lemma NobodyListens(ps: seq<seq<Event>>, fs: seq<seq<seq<Filter>>>, event: Event, k: nat)
    requires |ps| == |fs| && event.typ >= COUNT
    ensures Delivered(ps, fs, event, k) == ps
  {}

  lemma DeliveredStep(ps: seq<seq<Event>>, fs: seq<seq<seq<Filter>>>, event: Event, k: nat)
    requires |ps| == |fs| && k < |ps|
    ensures var d := Delivered(ps, fs, event, k);
            && |d| == |ps| && d[k] == ps[k]
            && Delivered(ps, fs, event, k + 1) ==
               if ListensIn(fs[k], event.typ, event.filter) then d[k := d[k] + [event]] else d
  {}

  /** Every queue that listens has a free slot beyond the one that stays empty. */
  predicate Room(pendings: seq<seq<Event>>, filters: seq<seq<seq<Filter>>>, sizes: seq<nat>, event: Event)
  {
    |pendings| == |filters| == |sizes| &&
    forall i :: 0 <= i < |pendings| && ListensIn(filters[i], event.typ, event.filter) ==> |pendings[i]| + 1 < sizes[i]
  }

  // --------------------------------------------------------------- whole runs

  datatype Op =
    | Register(q: nat, e: nat, f: Filter)
    | Unregister(q: nat, e: nat, f: Filter)
    | NotifyProcess(event: Event)
    | PopQueue(q: nat)

  /** Per queue: what it listens to, what it holds, and what it has handed out. */
  datatype World = World(filters: seq<seq<seq<Filter>>>, pendings: seq<seq<Event>>, popped: seq<seq<Event>>)

  predicate Shaped(w: World) {
    |w.filters| == |w.pendings| == |w.popped| && forall i :: 0 <= i < |w.filters| ==> |w.filters[i]| == COUNT
  }

  /** The queue exists; a notified queue has room. */
  predicate Legal(w: World, sizes: seq<nat>, op: Op) {
    match op
    case Register(q, _, _) => q < |w.filters|
    case Unregister(q, _, _) => q < |w.filters|
    case NotifyProcess(event) => Room(w.pendings, w.filters, sizes, event)
    case PopQueue(q) => q < |w.filters|
  }

  function Next(w: World, op: Op): (r: World)
    requires Shaped(w)
    ensures Shaped(r) && |r.filters| == |w.filters|
  {
    match op
    case Register(q, e, f) =>
      if q < |w.filters| then w.(filters := w.filters[q := Registered(w.filters[q], e, f)]) else w
    case Unregister(q, e, f) =>
      if q < |w.filters| then w.(filters := w.filters[q := Unregistered(w.filters[q], e, f)]) else w
    case NotifyProcess(event) => w.(pendings := Delivered(w.pendings, w.filters, event, |w.filters|))
    case PopQueue(q) =>
      if q < |w.filters| && w.pendings[q] != [] then
        w.(pendings := w.pendings[q := w.pendings[q][1..]], popped := w.popped[q := w.popped[q] + [w.pendings[q][0]]])
      else w
  }

  /** The world after the first `n` operations. */
  function After(w: World, ops: seq<Op>, n: nat): (r: World)
    requires Shaped(w) && n <= |ops|
    ensures Shaped(r) && |r.filters| == |w.filters|
  {
    if n == 0 then w else Next(After(w, ops, n - 1), ops[n - 1])
  }

  predicate AllLegal(w: World, sizes: seq<nat>, ops: seq<Op>)
    requires Shaped(w)
  {
    forall n :: 0 <= n < |ops| ==> Legal(After(w, ops, n), sizes, ops[n])
  }

  /** At moment `k` the queue listens to (e, f): it was registered, and not unregistered since. */
  predicate ListensAt(ops: seq<Op>, k: nat, q: nat, e: nat, f: Filter)
    requires k <= |ops|
  {
    e < COUNT && exists i :: 0 <= i < k && ops[i] == Register(q, e, f) && NotUndone(ops, i, k, q, e, f)
  }

  predicate NotUndone(ops: seq<Op>, i: nat, k: nat, q: nat, e: nat, f: Filter)
    requires k <= |ops|
  {
    forall j :: i < j < k ==> ops[j] != Unregister(q, e, f)
  }

  /** The events of the first `n` operations that queue `q` was listening to when they came. */
  function Due(ops: seq<Op>, q: nat, n: nat): seq<Event>
    requires n <= |ops|
  {
    if n == 0 then []
    else Due(ops, q, n - 1) +
         if ops[n - 1].NotifyProcess? && ListensAt(ops, n - 1, q, ops[n - 1].event.typ, ops[n - 1].event.filter)
         then [ops[n - 1].event] else []
  }

  predicate Fresh(w: World) {
    && Shaped(w)
    && forall i :: 0 <= i < |w.filters| ==> w.filters[i] == [[], [], []] && w.pendings[i] == [] && w.popped[i] == []
  }

  lemma ListensStep(ops: seq<Op>, n: nat, q: nat, e: nat, f: Filter)
    requires 0 < n <= |ops|
    ensures ListensAt(ops, n, q, e, f) <==>
            e < COUNT && ops[n - 1] != Unregister(q, e, f)
            && (ops[n - 1] == Register(q, e, f) || ListensAt(ops, n - 1, q, e, f))
  {
    if ListensAt(ops, n, q, e, f) {
      var i :| 0 <= i < n && ops[i] == Register(q, e, f) && NotUndone(ops, i, n, q, e, f);
      assert NotUndone(ops, i, n - 1, q, e, f);
    }
    if e < COUNT && ops[n - 1] != Unregister(q, e, f) {
      if ops[n - 1] == Register(q, e, f) {
        assert NotUndone(ops, n - 1, n, q, e, f);
      } else if ListensAt(ops, n - 1, q, e, f) {
        var i :| 0 <= i < n - 1 && ops[i] == Register(q, e, f) && NotUndone(ops, i, n - 1, q, e, f);
        assert NotUndone(ops, i, n, q, e, f);
      }
    }
  }

  lemma FilterStep(w: World, op: Op, q: nat, e: nat, f: Filter)
    requires Shaped(w) && q < |w.filters|
    ensures ListensIn(Next(w, op).filters[q], e, f) <==>
            e < COUNT && op != Unregister(q, e, f) && (op == Register(q, e, f) || ListensIn(w.filters[q], e, f))
  {
    if op.Unregister? && op.q == q && op.e == e && e < COUNT {
      EraseMembers(w.filters[q][e], op.f, f);
    }
  }

  /** A queue's filters say what it listens to. */
  lemma {:induction false} FiltersMeaning(w: World, ops: seq<Op>, n: nat, q: nat, e: nat, f: Filter)
    requires Fresh(w) && n <= |ops| && q < |w.filters|
    ensures ListensIn(After(w, ops, n).filters[q], e, f) <==> ListensAt(ops, n, q, e, f)
    decreases n
  {
    if n > 0 {
      FiltersMeaning(w, ops, n - 1, q, e, f);
      ListensStep(ops, n, q, e, f);
      FilterStep(After(w, ops, n - 1), ops[n - 1], q, e, f);
    }
  }

  lemma HistoryStep(w: World, op: Op, q: nat)
    requires Shaped(w) && q < |w.filters|
    ensures var r := Next(w, op);
            r.popped[q] + r.pendings[q] == w.popped[q] + w.pendings[q] +
              if op.NotifyProcess? && ListensIn(w.filters[q], op.event.typ, op.event.filter) then [op.event] else []
  {
    var r := Next(w, op);
    if op.NotifyProcess? {
      assert r.pendings[q] ==
             if ListensIn(w.filters[q], op.event.typ, op.event.filter)
             then w.pendings[q] + [op.event] else w.pendings[q];
    } else if op.PopQueue? && op.q == q && w.pendings[q] != [] {
      assert w.pendings[q] == [w.pendings[q][0]] + w.pendings[q][1..];
    }
  }

  /** Over every run: what a queue has handed out, followed by what it holds, is exactly what it was
      notified of while it listened, in order. */
  lemma {:induction false} NothingLostOrReordered(w: World, ops: seq<Op>, n: nat, q: nat)
    requires Fresh(w) && n <= |ops| && q < |w.filters|
    ensures After(w, ops, n).popped[q] + After(w, ops, n).pendings[q] == Due(ops, q, n)
    decreases n
  {
    if n > 0 {
      NothingLostOrReordered(w, ops, n - 1, q);
      var before, op := After(w, ops, n - 1), ops[n - 1];
      HistoryStep(before, op, q);
      if op.NotifyProcess? {
        FiltersMeaning(w, ops, n - 1, q, op.event.typ, op.event.filter);
      }
    }
  }

  lemma EveryQueue(w: World, ops: seq<Op>)
    requires Shaped(w)
    ensures var r := After(w, ops, |ops|);
            Fresh(w) ==> forall q :: 0 <= q < |r.popped| ==> r.popped[q] + r.pendings[q] == Due(ops, q, |ops|)
  {
    if Fresh(w) {
      var r := After(w, ops, |ops|);
      forall q | 0 <= q < |w.filters| ensures r.popped[q] + r.pendings[q] == Due(ops, q, |ops|) {
        NothingLostOrReordered(w, ops, |ops|, q);
      }
    }
  }

  /** The run itself, on the objects: it does what `After` says whoever the manager lists, and a manager
      that starts without listeners never gets one. */
  method Run(process: Process, manager: Manager, ops: seq<Op>) returns (popped: seq<seq<Event>>)
    requires process.Valid() && |process.Pendings()| == |process.Filters()|
    requires Shaped(Start(process.Filters(), process.Pendings()))
    requires AllLegal(Start(process.Filters(), process.Pendings()), process.Sizes(), ops)
    modifies process.queues, process.Buffers(), manager
    ensures process.Valid() && (old(manager.NoListeners()) ==> manager.NoListeners())
    ensures World(process.Filters(), process.Pendings(), popped) ==
            After(Start(old(process.Filters()), old(process.Pendings())), ops, |ops|)
    ensures Fresh(Start(old(process.Filters()), old(process.Pendings()))) ==>
              forall q :: 0 <= q < |popped| ==> popped[q] + process.Pendings()[q] == Due(ops, q, |ops|)
  {
    ghost var w := Start(process.Filters(), process.Pendings());
    hide Process.Valid, Process.Pendings, Process.Filters, Process.Sizes, Manager.NoListeners;
    hide After, Next, Legal, Due, Fresh;
    popped := seq(|process.queues|, _ => []);
    process.Shape();
    AfterNone(w, ops);
    var k := 0;
    while k < |ops|
      invariant 0 <= k <= |ops| && process.Valid() && (old(manager.NoListeners()) ==> manager.NoListeners())
      invariant World(process.Filters(), process.Pendings(), popped) == After(w, ops, k)
    {
      AfterNext(w, ops, k);
      popped := Perform(process, manager, ops[k], popped);
      k := k + 1;
    }
    EveryQueue(w, ops);
  }

  function Start(filters: seq<seq<seq<Filter>>>, pendings: seq<seq<Event>>): World
    requires |filters| == |pendings|
  {
    World(filters, pendings, seq(|filters|, _ => []))
  }

  lemma AfterNone(w: World, ops: seq<Op>)
    requires Shaped(w)
    ensures After(w, ops, 0) == w
  {}

  lemma AfterNext(w: World, ops: seq<Op>, k: nat)
    requires Shaped(w) && k < |ops|
    ensures After(w, ops, k + 1) == Next(After(w, ops, k), ops[k])
  {}

  method Perform(process: Process, manager: Manager, op: Op, popped: seq<seq<Event>>) returns (r: seq<seq<Event>>)
    requires process.Valid()
    requires Shaped(World(process.Filters(), process.Pendings(), popped))
    requires Legal(World(process.Filters(), process.Pendings(), popped), process.Sizes(), op)
    modifies process.queues, process.Buffers(), manager
    ensures process.Valid() && (old(manager.NoListeners()) ==> manager.NoListeners())
    ensures World(process.Filters(), process.Pendings(), r) ==
            Next(World(old(process.Filters()), old(process.Pendings()), popped), op)
  {
    hide Process.Valid, Process.Pendings, Process.Filters, Manager.NoListeners;
    process.Shape();
    r := popped;
    match op {
      case Register(q, e, f) =>
        process.RegisterAt(manager, q, e, f);
      case Unregister(q, e, f) =>
        process.UnregisterAt(manager, q, e, f);
      case NotifyProcess(event) =>
        process.Notify(manager, event);
      case PopQueue(q) =>
        var some := process.HasEvents(q);
        var e := process.PopFrom(q);
        if some {
          r := r[q := r[q] + [e]];
        }
    }
  }
}
