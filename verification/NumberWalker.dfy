/** The walk as it runs: one set of keys being visited, added to and deleted from in place. */
module NumberWalkers {
  import opened ByteText
  import opened Binary64
  import opened NumberWalk

  class Walker {
    const host: Host
    var visiting: set<VisitKey>

    constructor (host: Host)
      ensures this.host == host && visiting == {}
    {
      this.host, visiting := host, {};
    }

    /** True when the value is accepted. The set of keys being visited is put back on every return. */
    method Validate(heap: Heap, v: Value) returns (ok: bool)
      requires Closed(heap) && Within(heap, v)
      modifies this
      ensures visiting == old(visiting)
      ensures ok <==> Accepts(host, heap, v, old(visiting))
      decreases |Keys(heap) - visiting|, v
    {
      hide SafeLeaf, Keys, RefersTo, Within;
      WithinParts(heap, v);
      match v
      case Interface(inner) => ok := Validate(heap, inner);
      case Fixed(elems) =>
        for i := 0 to |elems|
          invariant visiting == old(visiting)
          invariant forall j :: 0 <= j < i ==> Accepts(host, heap, elems[j], visiting)
        {
          ok := Validate(heap, elems[i]);
          if !ok { return; }
        }
        ok := true;
      case Reference(id) =>
        var node := heap[id];
        if node.key in visiting { return false; }
        KeyOf(heap, id);
        Fewer(Keys(heap), visiting, node.key);
        visiting := visiting + {node.key};
        for i := 0 to |node.values|
          invariant visiting == old(visiting) + {node.key}
          invariant forall j :: 0 <= j < i ==> Accepts(host, heap, node.values[j], visiting)
        {
          ok := Validate(heap, node.values[i]);
          if !ok {
            visiting := visiting - {node.key};
            return;
          }
        }
        visiting := visiting - {node.key};
        ok := true;
      case _ => ok := SafeLeaf(host, v);
    }
  }

  /** The entry point: nothing is being visited yet. */
  method ValidateNumbers(host: Host, heap: Heap, v: Value) returns (ok: bool)
    requires Closed(heap) && Within(heap, v)
    ensures KeyedApart(heap) ==> (ok <==> LeavesSafe(host, v) && ReachableIsSafe(host, heap, v))
    ensures ok <==> LeavesSafe(host, v) && AllClear(host, heap, [v], {})
    ensures v.Signed? ==> (ok <==> -0x1F_FFFF_FFFF_FFFF <= v.n <= 0x1F_FFFF_FFFF_FFFF)
    ensures v.Unsigned? ==> (ok <==> v.u <= 0x1F_FFFF_FFFF_FFFF)
    ensures v.Complex? || (v.Floating? && !v.f.Finite?) ==> !ok
    ensures v.Floating? && v.f.Finite? && v.f.value.Floor as real == v.f.value ==>
              (ok <==> -9007199254740991.0 <= v.f.value <= 9007199254740991.0)
    ensures v.JsonNumber? ==> (ok <==> SafeNumber(host, v.raw))
  {
    SafeLeafIff(host, v);
    var walker := new Walker(host);
    ok := walker.Validate(heap, v);
    AcceptsIffPathsClear(host, heap, v, {});
    if KeyedApart(heap) { WalkIffAcyclicAndSafe(host, heap, v); }
  }
}
