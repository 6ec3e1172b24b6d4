/** The generic doubly-linked list (lib/dplist.c), as operations on a sequence.
    A handle is NULL or a live list holding its elements from head to tail; the
    prev/next pointers only realise the sequence operations below. The element
    copy callback is taken to be the identity. */
module DpList {
  import opened Base

  datatype Handle<T> = Null | Live(elems: seq<T>)

  /** `i` forced into the range [lo, hi]. */
  function Clamp(i: int, lo: int, hi: int): (r: int)
    requires lo <= hi
    ensures lo <= r <= hi
    ensures lo <= i <= hi ==> r == i
    ensures i < lo ==> r == lo
    ensures i > hi ==> r == hi
  {
    if i < lo then lo else if i > hi then hi else i
  }

  /** dpl_create: a fresh list with no nodes. */
  function Create<T>(): (r: Handle<T>)
    ensures r.Live?
    ensures Size(r) == 0
  {
    Live([])
  }

  /** dpl_size: the number of nodes, or -1 for a NULL handle. */
  function Size<T>(h: Handle<T>): (n: int)
    ensures h.Null? <==> n == -1
    ensures h.Live? ==> n == |h.elems|
  {
    match h
    case Null => -1
    case Live(s) => |s|
  }

  /** dpl_get_reference_at_index: the position of the node an index designates.
      Out-of-range indices designate the head or the last node. */
  function GetReferenceAt<T>(h: Handle<T>, index: int): (r: Option<nat>)
    ensures r.None? <==> (h.Null? || |h.elems| == 0)
    ensures r.Some? ==> r.value == Clamp(index, 0, |h.elems| - 1)
  {
    if h.Null? || |h.elems| == 0 then None
    else if index <= 0 then Some(0)
    else if index >= |h.elems| then Some(|h.elems| - 1)
    else Some(index)
  }

  /** dpl_get_element_at_index: NULL for a NULL or empty list, otherwise the element
      at the clamped index. */
  function GetElementAt<T>(h: Handle<T>, index: int): (r: Option<T>)
    ensures r.None? <==> (h.Null? || |h.elems| == 0)
    ensures r.Some? ==> r.value == h.elems[Clamp(index, 0, |h.elems| - 1)]
  {
    match h
    case Null => None
    case Live(s) =>
      if |s| == 0 then None
      else if index <= 0 then Some(s[0])
      else if index >= |s| then Some(s[|s| - 1])
      else Some(s[index])
  }

  /** dpl_insert_at_index: the four cases of the source (empty list, index <= 0,
      before the node at `index`, after the last node). */
  function InsertAt<T>(h: Handle<T>, e: T, index: int): (r: Handle<T>)
    ensures h.Null? <==> r.Null?
    ensures h.Live? ==>
              var p := Clamp(index, 0, |h.elems|);
              && |r.elems| == |h.elems| + 1
              && r.elems[p] == e
              && r.elems[..p] == h.elems[..p]
              && r.elems[p + 1..] == h.elems[p..]
              && r.elems[..p] + r.elems[p + 1..] == h.elems
  {
    match h
    case Null => Null
    case Live(s) =>
      if |s| == 0 then Live([e])
      else if index <= 0 then Live([e] + s)
      else
        var ref := GetReferenceAt(h, index).value;
        if index < |s| then Live(s[..ref] + [e] + s[ref..])
        else Live(s + [e])
  }

  /** dpl_remove_at_index: unlinks the node at the clamped index; NULL and empty
      lists come back unchanged. */
  function RemoveAt<T>(h: Handle<T>, index: int): (r: Handle<T>)
    ensures h.Null? <==> r.Null?
    ensures h.Live? && |h.elems| == 0 ==> r == h
    ensures h.Live? && |h.elems| > 0 ==>
              var p := Clamp(index, 0, |h.elems| - 1);
              && |r.elems| == |h.elems| - 1
              && r.elems == h.elems[..p] + h.elems[p + 1..]
  {
    match h
    case Null => Null
    case Live(s) =>
      if |s| == 0 then h
      else
        var ref := GetReferenceAt(h, index).value;
        if ref == 0 then Live(s[1..])
        else Live(s[..ref] + s[ref + 1..])
  }

  /** Removing at the index just used for an insertion gives back the original list. */
  lemma RemoveUndoesInsert<T>(h: Handle<T>, e: T, index: int)
    ensures RemoveAt(InsertAt(h, e, index), index) == h
  {
    if h.Live? {
      var p := Clamp(index, 0, |h.elems|);
      var h' := InsertAt(h, e, index);
      assert Clamp(index, 0, |h'.elems| - 1) == p;
    }
  }

  /** `r` is the first position whose element compares equal to `e`, or -1 when
      there is none. */
  ghost predicate IsFirstMatch<T>(s: seq<T>, e: T, compare: (T, T) -> int, r: int)
  {
    || (r == -1 && forall i :: 0 <= i < |s| ==> compare(s[i], e) != 0)
    || (0 <= r < |s| && compare(s[r], e) == 0 && forall i :: 0 <= i < r ==> compare(s[i], e) != 0)
  }

  /** The walk of dpl_get_index_of_element from position `i` onwards. */
  function FindFrom<T>(s: seq<T>, e: T, compare: (T, T) -> int, i: nat): (r: int)
    requires i <= |s|
    ensures r == -1 || (i <= r < |s| && compare(s[r], e) == 0)
    ensures r == -1 ==> forall j :: i <= j < |s| ==> compare(s[j], e) != 0
    ensures r != -1 ==> forall j :: i <= j < r ==> compare(s[j], e) != 0
    decreases |s| - i
  {
    if i == |s| then -1
    else if compare(s[i], e) == 0 then i
    else FindFrom(s, e, compare, i + 1)
  }

  /** dpl_get_index_of_element: the first index whose element the compare callback
      calls equal (result 0), or -1. */
  function GetIndexOf<T>(h: Handle<T>, e: T, compare: (T, T) -> int): (r: int)
    ensures h.Null? ==> r == -1
    ensures h.Live? ==> IsFirstMatch(h.elems, e, compare, r)
  {
    match h
    case Null => -1
    case Live(s) => FindFrom(s, e, compare, 0)
  }

  /** dpl_free: removes every node from the last index down to 0 and leaves the
      handle NULL. `freed` lists the elements handed to the element_free callback,
      in call order; it is empty unless `freeElement` is set. */
  method Free<T>(h: Handle<T>, freeElement: bool) returns (r: Handle<T>, freed: seq<T>)
    ensures r.Null?
    ensures freed == if freeElement && h.Live? then Reverse(h.elems) else []
  {
    freed := [];
    if h.Null? {
      return Null, freed;
    }
    var size := Size(h);
    if size == 0 {
      return Null, freed;
    }
    var cur := h;
    var index := size - 1;
    while index >= 0
      invariant -1 <= index < size
      invariant cur == Live(h.elems[..index + 1])
      invariant freed == if freeElement then Reverse(h.elems[index + 1..]) else []
    {
      if freeElement {
        assert h.elems[index..][1..] == h.elems[index + 1..];
        freed := freed + [cur.elems[index]];
      }
      cur := RemoveAt(cur, index);
      assert h.elems[..index + 1][..index] == h.elems[..index];
      index := index - 1;
    }
    assert h.elems[0..] == h.elems;
    r := Null;
  }
}
