/** Runs of the shared buffer: producers insert readings, the two stages read the
    head, and the storage stage retires it. A run is a sequence of calls; a call that
    would block is not enabled, so a run containing one has no outcome. The history
    records what each side has put in or got out, which is enough to state the
    buffer's ordering and exactly-once guarantees without threads. */
module Pipeline {
  import opened Base
  import opened Config
  import opened SharedBuffer

  datatype Event = Produce(reading: Reading) | Consume(stage: Stage) | Retire

  datatype History = History(
    inserted: seq<Reading>,
    removed: seq<Reading>,
    seenAggregator: seq<Reading>,
    seenStorage: seq<Reading>)

  datatype State = State(items: seq<Node>, hist: History)

  /** The readings a stage has been handed with SBUFFER_SUCCESS, in order. */
  function Seen(h: History, s: Stage): seq<Reading>
  {
    match s
    case Aggregator => h.seenAggregator
    case Storage => h.seenStorage
  }

  function SawOne(h: History, s: Stage, d: Reading): History
  {
    match s
    case Aggregator => h.(seenAggregator := h.seenAggregator + [d])
    case Storage => h.(seenStorage := h.seenStorage + [d])
  }

  /** The freshly initialised buffer with an empty history. */
  const Start: State := State([], History([], [], [], []))

  /** One call against the buffer; None when the call would block. */
  function Next(st: State, e: Event): Option<State>
  {
    match e
    case Produce(d) =>
      var b := Insert(Buf(st.items), d).1;
      Some(State(b.items, st.hist.(inserted := st.hist.inserted + [d])))
    case Consume(s) =>
      (match Read(st.items, s)
       case Blocked => None
       case Done(status, d, items) =>
         if status == Success then Some(State(items, SawOne(st.hist, s, d)))
         else Some(State(items, st.hist)))
    case Retire =>
      match Remove(st.items)
      case Blocked => None
      case Done(_, d, items) => Some(State(items, st.hist.(removed := st.hist.removed + [d])))
  }

  /** A whole run; None when some call in it would block. */
  function Run(st: State, es: seq<Event>): Option<State>
    decreases |es|
  {
    if |es| == 0 then Some(st)
    else match Next(st, es[0])
      case None => None
      case Some(st') => Run(st', es[1..])
  }

  function Readings(items: seq<Node>): seq<Reading>
  {
    seq(|items|, i requires 0 <= i < |items| => items[i].data)
  }

  /** The head's reading if the stage has already read it. */
  function HeadSeen(items: seq<Node>, s: Stage): seq<Reading>
  {
    if |items| > 0 && Marked(items[0], s) then [items[0].data] else []
  }

  /** What holds between the queue and the history in every reachable state:
      - what was retired followed by what is queued is exactly what was inserted;
      - only the head can carry stage bits;
      - an end marker is never marked, and none has been retired;
      - each stage has seen the retired readings plus, perhaps, the head. */
  ghost predicate Inv(st: State)
  {
    && st.hist.removed + Readings(st.items) == st.hist.inserted
    && (forall i :: 1 <= i < |st.items| ==> st.items[i].processed == 0)
    && (forall i :: 0 <= i < |st.items| && IsEndMarker(st.items[i].data) ==> st.items[i].processed == 0)
    && (forall i :: 0 <= i < |st.hist.removed| ==> !IsEndMarker(st.hist.removed[i]))
    && (forall s :: Seen(st.hist, s) == st.hist.removed + HeadSeen(st.items, s))
  }

  lemma StartInv()
    ensures Inv(Start)
  {
    assert Readings([]) == [];
  }

  lemma ReadingsSplit(items: seq<Node>)
    requires |items| > 0
    ensures Readings(items) == [items[0].data] + Readings(items[1..])
  {
  }

  lemma ProducePreservesInv(st: State, d: Reading)
    requires Inv(st)
    ensures Inv(Next(st, Produce(d)).value)
  {
    var st' := Next(st, Produce(d)).value;
    assert st'.items == st.items + [Node(d, 0)];
    assert Readings(st'.items) == Readings(st.items) + [d];
    if |st.items| == 0 {
      assert !Marked(Node(d, 0), Aggregator) && !Marked(Node(d, 0), Storage);
    }
    forall s
      ensures Seen(st'.hist, s) == st'.hist.removed + HeadSeen(st'.items, s)
    {
      assert HeadSeen(st'.items, s) == HeadSeen(st.items, s);
    }
  }

  lemma ConsumePreservesInv(st: State, s: Stage)
    requires Inv(st)
    requires Next(st, Consume(s)).Some?
    ensures Inv(Next(st, Consume(s)).value)
  {
    var st' := Next(st, Consume(s)).value;
    var r := Read(st.items, s);
    if r.status == Success {
      assert Readings(st'.items) == Readings(st.items);
      assert HeadSeen(st.items, s) == [];
      forall t
        ensures Seen(st'.hist, t) == st'.hist.removed + HeadSeen(st'.items, t)
      {
        if t != s {
          assert Seen(st'.hist, t) == Seen(st.hist, t);
        }
      }
    }
  }

  lemma RetirePreservesInv(st: State)
    requires Inv(st)
    requires Next(st, Retire).Some?
    ensures Inv(Next(st, Retire).value)
  {
    var st' := Next(st, Retire).value;
    ReadingsSplit(st.items);
    FullMaskMeansEveryStage(st.items[0]);
    forall s
      ensures Seen(st'.hist, s) == st'.hist.removed + HeadSeen(st'.items, s)
    {
      assert HeadSeen(st.items, s) == [st.items[0].data];
      if |st'.items| > 0 {
        assert st'.items[0] == st.items[1];
        assert !Marked(st'.items[0], s);
      }
    }
  }

  /** Every enabled call keeps the invariant. */
  lemma NextPreservesInv(st: State, e: Event)
    requires Inv(st)
    requires Next(st, e).Some?
    ensures Inv(Next(st, e).value)
  {
    match e
    case Produce(d) => ProducePreservesInv(st, d);
    case Consume(s) => ConsumePreservesInv(st, s);
    case Retire => RetirePreservesInv(st);
  }

  lemma {:induction false} RunPreservesInv(st: State, es: seq<Event>)
    requires Inv(st)
    requires Run(st, es).Some?
    ensures Inv(Run(st, es).value)
    decreases |es|
  {
    if |es| > 0 {
      NextPreservesInv(st, es[0]);
      RunPreservesInv(Next(st, es[0]).value, es[1..]);
    }
  }

  /** In every run from a fresh buffer:
      - items are retired in insertion order, and an end marker is never retired;
      - each stage is handed the inserted readings in insertion order, each once;
      - a retired reading has been handed to both stages. */
  lemma RunOrder(es: seq<Event>)
    requires Run(Start, es).Some?
    ensures var h := Run(Start, es).value.hist;
            && h.removed <= h.inserted
            && (forall i :: 0 <= i < |h.removed| ==> !IsEndMarker(h.removed[i]))
            && (forall s :: Seen(h, s) <= h.inserted)
            && (forall s :: h.removed <= Seen(h, s))
  {
    StartInv();
    RunPreservesInv(Start, es);
    var st := Run(Start, es).value;
    var h := st.hist;
    forall s
      ensures Seen(h, s) <= h.inserted
    {
      if |st.items| > 0 {
        ReadingsSplit(st.items);
      }
    }
  }

  /** Whenever a stage's read answers NO_DATA, the head is the first end marker ever
      inserted, still unmarked, and that stage has been handed exactly the readings
      inserted before it, in insertion order. Nothing stops a producer from inserting
      a reading with id 0 early; the stages then stop there. */
  lemma DrainSeesPrefix(es: seq<Event>, s: Stage)
    requires Run(Start, es).Some?
    requires Read(Run(Start, es).value.items, s).Done?
    requires Read(Run(Start, es).value.items, s).status == NoData
    ensures var st := Run(Start, es).value;
            var h := st.hist;
            var k := |h.removed|;
            && k + |st.items| == |h.inserted|
            && IsEndMarker(h.inserted[k])
            && (forall i :: 0 <= i < k ==> !IsEndMarker(h.inserted[i]))
            && Seen(h, s) == h.inserted[..k]
            && st.items[0].data == h.inserted[k]
            && st.items[0].processed == 0
  {
    StartInv();
    RunPreservesInv(Start, es);
    var st := Run(Start, es).value;
    var h := st.hist;
    var k := |h.removed|;
    assert |Readings(st.items)| == |st.items|;
    assert Readings(st.items)[0] == st.items[0].data;
    assert h.inserted[k] == st.items[0].data;
    assert h.removed == h.inserted[..k];
    assert HeadSeen(st.items, s) == [];
  }

  /** The only end marker inserted is the last insertion. */
  predicate EndMarkerLast(ins: seq<Reading>)
  {
    && |ins| > 0
    && IsEndMarker(ins[|ins| - 1])
    && forall i :: 0 <= i < |ins| - 1 ==> !IsEndMarker(ins[i])
  }

  /** When the end marker was inserted last and a stage's read answers NO_DATA, the
      queue holds nothing but the marker and that stage has been handed every other
      inserted reading exactly once, in insertion order. */
  lemma DrainSeesEverything(es: seq<Event>, s: Stage)
    requires Run(Start, es).Some?
    requires EndMarkerLast(Run(Start, es).value.hist.inserted)
    requires Read(Run(Start, es).value.items, s).Done?
    requires Read(Run(Start, es).value.items, s).status == NoData
    ensures var st := Run(Start, es).value;
            && Seen(st.hist, s) == st.hist.inserted[..|st.hist.inserted| - 1]
            && |st.items| == 1
            && st.items[0].processed == 0
  {
    DrainSeesPrefix(es, s);
  }

  /** A reading with id 0 inserted before a real one ends a stage early: the
      aggregator's read answers NO_DATA although reading 7 is queued behind it and
      has never been handed out. */
  lemma EarlyIdZeroEndsStage()
    ensures var es := [Produce(Reading(0, 0.0, 0)), Produce(Reading(7, 21.0, 1))];
            && Run(Start, es).Some?
            && Read(Run(Start, es).value.items, Aggregator).Done?
            && Read(Run(Start, es).value.items, Aggregator).status == NoData
            && Run(Start, es).value.hist.inserted[1] == Reading(7, 21.0, 1)
            && Seen(Run(Start, es).value.hist, Aggregator) == []
  {
    var es := [Produce(Reading(0, 0.0, 0)), Produce(Reading(7, 21.0, 1))];
    var st1 := Next(Start, es[0]).value;
    var st2 := Next(st1, es[1]).value;
    assert es[1..][1..] == [];
    assert Run(st2, []) == Some(st2);
    assert Run(st1, es[1..]) == Some(st2);
    assert Run(Start, es) == Some(st2);
  }
}
