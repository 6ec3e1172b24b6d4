/** The shared buffer (sbuffer.c) as a sequential state machine. The queue is a
    sequence of nodes from head to tail; each node carries a copy of a reading and
    a two-bit mask of the stages that have read it. A call that would wait on a
    condition variable is `Blocked`: it is not enabled in that state and changes
    nothing. */
module SharedBuffer {
  import opened Config

  /** The two consumers: the data manager reads as stage 1, storage as stage 2. */
  datatype Stage = Aggregator | Storage

  function StageId(s: Stage): (id: int)
    ensures 1 <= id <= 2
  {
    match s
    case Aggregator => 1
    case Storage => 2
  }

  /** A stage's bit in the processed-stages mask: 1 << (stage_id - 1). */
  function StageBit(s: Stage): bv2
  {
    (1 as bv2) << (StageId(s) - 1)
  }

  /** The mask of a node that both stages have read. */
  const FULL_MASK: bv2 := 3

  datatype Node = Node(data: Reading, processed: bv2)

  predicate Marked(n: Node, s: Stage)
  {
    n.processed & StageBit(s) != 0
  }

  /** A handle to the buffer: NULL, or a buffer holding its queue. */
  datatype Buffer = Null | Buf(items: seq<Node>)

  /** SBUFFER_SUCCESS, SBUFFER_FAILURE and SBUFFER_NO_DATA. */
  datatype Status = Success | Failure | NoData

  /** Outcome of a call that may wait: it waits, or it returns a status, the reading
      copied out to the caller and the new queue. */
  datatype Step = Blocked | Done(status: Status, data: Reading, items: seq<Node>)

  /** The mask holds exactly the two stage bits. */
  lemma FullMaskMeansEveryStage(n: Node)
    ensures n.processed == FULL_MASK <==> forall s :: Marked(n, s)
  {
    assert Marked(n, Aggregator) <==> n.processed & 1 != 0;
    assert Marked(n, Storage) <==> n.processed & 2 != 0;
  }

  /** sbuffer_init: a buffer with no nodes. */
  function Init(): (r: (Status, Buffer))
    ensures r.0 == Success
    ensures r.1.Buf? && IsEmpty(r.1)
  {
    (Success, Buf([]))
  }

  /** sbuffer_insert: a copy of `d` becomes the new tail with no stage bits set;
      a NULL buffer is refused. */
  function Insert(b: Buffer, d: Reading): (r: (Status, Buffer))
    ensures b.Null? ==> r == (Failure, Null)
    ensures b.Buf? ==>
              && r.0 == Success
              && r.1.Buf?
              && |r.1.items| == |b.items| + 1
              && r.1.items[..|b.items|] == b.items
              && r.1.items[|b.items|] == Node(d, 0)
  {
    match b
    case Null => (Failure, Null)
    case Buf(items) => (Success, Buf(items + [Node(d, 0)]))
  }

  /** sbuffer_read: looks only at the head. An end marker at the head answers NO_DATA
      and is left untouched; a head this stage has not read yet is marked for the
      stage and copied out; otherwise the call waits. */
  function Read(items: seq<Node>, stage: Stage): (r: Step)
    ensures r.Blocked? <==>
              |items| == 0 || (!IsEndMarker(items[0].data) && Marked(items[0], stage))
    ensures r.Done? ==> r.status != Failure && r.data == items[0].data
    ensures r.Done? && r.status == NoData <==> |items| > 0 && IsEndMarker(items[0].data)
    ensures r.Done? && r.status == NoData ==> r.items == items
    ensures r.Done? && r.status == Success ==>
              && |r.items| == |items|
              && r.items[1..] == items[1..]
              && r.items[0].data == items[0].data
              && !Marked(items[0], stage)
              && forall t :: Marked(r.items[0], t) <==> t == stage || Marked(items[0], t)
  {
    if |items| == 0 then Blocked
    else if items[0].data.id == 0 then Done(NoData, items[0].data, items)
    else
      var bit := StageBit(stage);
      if items[0].processed & bit != 0 then Blocked
      else Done(Success, items[0].data, items[0 := items[0].(processed := items[0].processed | bit)])
  }

  /** sbuffer_remove: waits until the head exists and both stages have read it, then
      pops it. The status is NO_DATA exactly when the queue is left empty. */
  function Remove(items: seq<Node>): (r: Step)
    ensures r.Done? <==> |items| > 0 && forall s :: Marked(items[0], s)
    ensures r.Done? ==>
              && r.data == items[0].data
              && r.items == items[1..]
              && (r.status == NoData <==> |r.items| == 0)
              && r.status != Failure
  {
    if |items| == 0 then Blocked
    else
      FullMaskMeansEveryStage(items[0]);
      if items[0].processed != FULL_MASK then Blocked
      else
        var rest := items[1..];
        Done(if |rest| == 0 then NoData else Success, items[0].data, rest)
  }

  /** sbuffer_is_empty: true for a NULL buffer or one without nodes. */
  function IsEmpty(b: Buffer): (r: bool)
    ensures r <==> b.Null? || |b.items| == 0
  {
    match b
    case Null => true
    case Buf(items) => |items| == 0
  }

  /** sbuffer_free: drops every node and leaves the handle NULL; a NULL handle is
      refused. */
  function Free(b: Buffer): (r: (Status, Buffer))
    ensures r.1 == Null
    ensures r.0 == (if b.Null? then Failure else Success)
  {
    match b
    case Null => (Failure, Null)
    case Buf(_) => (Success, Null)
  }

  /** A freed handle is NULL: it reads as empty, and a later insert into it fails
      without creating a buffer. */
  lemma InsertAfterFree(b: Buffer, d: Reading)
    ensures IsEmpty(Free(b).1)
    ensures Insert(Free(b).1, d) == (Failure, Null)
  {
  }

  /** Every bit of `a` is set in `b`. */
  predicate MaskSubset(a: bv2, b: bv2)
  {
    a & b == a
  }

  /** After `popped` nodes left from the head, every remaining node of `before` is at
      the front of `after`, with the same reading and at least the same bits. */
  ghost predicate Survives(before: seq<Node>, after: seq<Node>, popped: nat)
  {
    && popped <= |before|
    && |before| - popped <= |after|
    && forall i :: popped <= i < |before| ==>
         after[i - popped].data == before[i].data
         && MaskSubset(before[i].processed, after[i - popped].processed)
  }

  /** Masks only grow: no operation clears a bit of a node that stays queued, and
      nodes leave only from the head. */
  lemma MasksOnlyGrow(items: seq<Node>, d: Reading, stage: Stage)
    ensures Survives(items, Insert(Buf(items), d).1.items, 0)
    ensures Read(items, stage).Done? ==> Survives(items, Read(items, stage).items, 0)
    ensures Remove(items).Done? ==> Survives(items, Remove(items).items, 1)
  {
    var r := Read(items, stage);
    if r.Done? && r.status == Success {
      assert MaskSubset(items[0].processed, items[0].processed | StageBit(stage));
    }
  }

  /** Once the end marker is at the head, every further read by either stage answers
      NO_DATA again and changes nothing: the marker is never marked. */
  lemma EndMarkerReadsRepeat(items: seq<Node>, stage: Stage, other: Stage)
    requires Read(items, stage).Done? && Read(items, stage).status == NoData
    ensures Read(Read(items, stage).items, other) == Done(NoData, items[0].data, items)
    ensures items[0].processed == Read(items, stage).items[0].processed
  {
  }

  /** An end marker nobody has marked can never be removed. */
  lemma UnmarkedEndMarkerStays(items: seq<Node>)
    requires |items| > 0 && IsEndMarker(items[0].data) && items[0].processed == 0
    ensures Remove(items).Blocked?
  {
    assert !Marked(items[0], Aggregator);
  }
}
