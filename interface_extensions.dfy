/** InterfaceExtensions.AddRange: appending a sequence to an IList<T> in place. */
module InterfaceExtensions {
  import opened Results

  /**
   * The run-time class behind an IList<T>: a List<T>, another list whose Add appends, or a
   * list whose Add raises NotSupportedException (an array, a read-only collection).
   */
  datatype ListKind = ConcreteList | OtherList | ReadOnlyList

  class ListRef<T> {
    const kind: ListKind
    var elems: seq<T>

    constructor (kind: ListKind, elems: seq<T>)
      ensures this.kind == kind && this.elems == elems
    {
      this.kind := kind;
      this.elems := elems;
    }

    /** IList<T>.Add. */
    method Add(x: T) returns (r: Outcome)
      modifies this`elems
      ensures r == if kind == ReadOnlyList then Fail(NotSupported) else Pass
      ensures elems == if kind == ReadOnlyList then old(elems) else old(elems) + [x]
    {
      if kind == ReadOnlyList {
        return Fail(NotSupported);
      }
      elems := elems + [x];
      return Pass;
    }

    /** List<T>.AddRange, available only on a List<T>. */
    method AddRangeBulk(source: seq<T>)
      requires kind == ConcreteList
      modifies this`elems
      ensures elems == old(elems) + source
    {
      elems := elems + source;
    }
  }

  /** The list after appending: the old elements in place, then the source in order. */
  function Appended<T>(elems: seq<T>, source: seq<T>): (r: seq<T>)
    ensures |r| == |elems| + |source|
    ensures forall i :: 0 <= i < |elems| ==> r[i] == elems[i]
    ensures forall j :: 0 <= j < |source| ==> r[|elems| + j] == source[j]
    ensures source == [] ==> r == elems
  {
    elems + source
  }

  /**
   * AddRange: a List<T> takes the bulk path, any other list gets one Add per element. Both
   * paths append the whole source; a read-only list raises on the first element, so only an
   * empty source leaves it without an exception.
   */
  method AddRange<T>(destination: ListRef<T>, source: seq<T>) returns (r: Outcome)
    modifies destination
    ensures r == if destination.kind == ReadOnlyList && source != [] then Fail(NotSupported) else Pass
    ensures destination.elems == if r.Pass? then Appended(old(destination.elems), source) else old(destination.elems)
  {
    if destination.kind == ConcreteList {
      destination.AddRangeBulk(source);
      return Pass;
    }
    ghost var initial := destination.elems;
    for i := 0 to |source|
      invariant destination.elems == initial + source[..i]
      invariant destination.kind != ReadOnlyList || i == 0
    {
      var added := destination.Add(source[i]);
      if added.Fail? {
        return added;
      }
    }
    assert source[..|source|] == source;
    return Pass;
  }
}
