/**
 The number validator's walk over a graph of containers: what it accepts, as a recursion over the graph,
 and what that means in terms of paths and cycles.
 */
module NumberWalk {
  import opened ByteText
  import opened Binary64
  import opened NumberText

  /** What the walk recognises a container by. Two slices over one array share it. */
  datatype VisitKey = VisitKey(typeOf: nat, ptr: nat)

  type Id = nat

  /** A value as reflection shows it. */
  datatype Value =
    | Invalid
    | NilReference
    | JsonNumber(raw: Bytes)
    | Signed(n: int)
    | Unsigned(u: nat)
    | Floating(f: Float)
    | Complex
    /** Strings, booleans, structs, functions: never looked into. */
    | Other
    | Interface(inner: Value)
    | Fixed(elems: seq<Value>)
    /** A non-nil pointer, map or slice. */
    | Reference(id: Id)

  /** A container's elements: one for a pointer, the values of a map in some order, a slice's in theirs. */
  datatype Node = Node(key: VisitKey, values: seq<Value>)

  type Heap = map<Id, Node>

  predicate SafeLeaf(host: Host, v: Value) {
    match v
    case JsonNumber(raw) => SafeNumber(host, raw)
    case Signed(n) => -MAX_SAFE <= n <= MAX_SAFE
    case Unsigned(u) => u <= MAX_SAFE
    case Floating(f) => SafeFloat(f)
    case Complex => false
    case _ => true
  }

  /** Which numbers are safe, kind by kind; whatever is no number is. */
  lemma SafeLeafIff(host: Host, v: Value)
    ensures v.Signed? ==> (SafeLeaf(host, v) <==> -0x1F_FFFF_FFFF_FFFF <= v.n <= 0x1F_FFFF_FFFF_FFFF)
    ensures v.Unsigned? ==> (SafeLeaf(host, v) <==> v.u <= 0x1F_FFFF_FFFF_FFFF)
    ensures v.Floating? && !v.f.Finite? ==> !SafeLeaf(host, v)
    ensures v.Floating? && v.f.Finite? && v.f.value.Floor as real != v.f.value ==> SafeLeaf(host, v)
    ensures v.Floating? && v.f.Finite? && v.f.value.Floor as real == v.f.value ==>
              (SafeLeaf(host, v) <==> -9007199254740991.0 <= v.f.value <= 9007199254740991.0)
    ensures v.Complex? ==> !SafeLeaf(host, v)
    ensures v.Invalid? || v.NilReference? || v.Other? ==> SafeLeaf(host, v)
  {
  }

  /** A number is judged alike whatever kind it comes in: as an integer, without a sign, or as a JSON literal. */
  lemma {:induction false} IntegerKindsAgree(host: Host, l: Literal, n: int)
    requires Conforms(host) && WellformedLiteral(l) && NumberText.Value(l) == n as real
    ensures SafeLeaf(host, Signed(n)) <==> SafeLeaf(host, JsonNumber(Render(l)))
    ensures n >= 0 ==> (SafeLeaf(host, Unsigned(n)) <==> SafeLeaf(host, JsonNumber(Render(l))))
  {
    hide SafeNumber, Conforms, Render, WellformedLiteral;
    IntegerLiteralIff(host, l, n);
  }

  /** The same for a literal and the float it rounds to, unless it underflows. */
  lemma {:induction false} FloatKindAgrees(host: Host, l: Literal, y: real)
    requires Conforms(host) && WellformedLiteral(l) && NearestEven(NumberText.Value(l), y)
    ensures SafeLeaf(host, JsonNumber(Render(l)))
            <==> SafeLeaf(host, Floating(Finite(y))) && (y == 0.0 ==> NumberText.Value(l) == 0.0)
  {
    hide SafeNumber, SafeFloat, Conforms, Render, WellformedLiteral, NearestEven;
    RoundedAgrees(host, l, y);
  }

  /** Every number held in the value itself, not behind a reference, is safe. */
  predicate LeavesSafe(host: Host, v: Value) {
    match v
    case Interface(inner) => LeavesSafe(host, inner)
    case Fixed(elems) => forall i :: 0 <= i < |elems| ==> LeavesSafe(host, elems[i])
    case _ => SafeLeaf(host, v)
  }

  /** The containers the value refers to directly. */
  predicate RefersTo(v: Value, id: Id) {
    match v
    case Interface(inner) => RefersTo(inner, id)
    case Fixed(elems) => exists i :: 0 <= i < |elems| && RefersTo(elems[i], id)
    case Reference(target) => target == id
    case _ => false
  }

  predicate AnyRefersTo(values: seq<Value>, id: Id) {
    exists i :: 0 <= i < |values| && RefersTo(values[i], id)
  }

  predicate AllLeavesSafe(host: Host, values: seq<Value>) {
    forall i :: 0 <= i < |values| ==> LeavesSafe(host, values[i])
  }

  /** Every reference leads to a container of the heap. */
  ghost predicate Within(heap: Heap, v: Value) { forall id :: RefersTo(v, id) ==> id in heap }

  ghost predicate Closed(heap: Heap) {
    forall id, i :: id in heap && 0 <= i < |heap[id].values| ==> Within(heap, heap[id].values[i])
  }

  function Keys(heap: Heap): set<VisitKey> { set id | id in heap :: heap[id].key }

  lemma KeyOf(heap: Heap, id: Id)
    requires id in heap
    ensures heap[id].key in Keys(heap)
  {
  }

  lemma WithinParts(heap: Heap, v: Value)
    requires Within(heap, v)
    ensures v.Interface? ==> Within(heap, v.inner)
    ensures v.Fixed? ==> forall i :: 0 <= i < |v.elems| ==> Within(heap, v.elems[i])
    ensures v.Reference? ==> v.id in heap
  {
    if v.Fixed? {
      forall i, id | 0 <= i < |v.elems| && RefersTo(v.elems[i], id) ensures id in heap {
        assert RefersTo(v, id);
      }
    } else if v.Interface? {
      forall id | RefersTo(v.inner, id) ensures id in heap { assert RefersTo(v, id); }
    } else if v.Reference? {
      assert RefersTo(v, v.id);
    }
  }

  /**
   What the walk accepts from `v` while the containers in `visiting` are being visited. It ends because
   each reference followed leaves fewer keys that are not being visited.
   */
  ghost predicate Accepts(host: Host, heap: Heap, v: Value, visiting: set<VisitKey>)
    requires Closed(heap) && Within(heap, v)
    decreases |Keys(heap) - visiting|, v
  {
    WithinParts(heap, v);
    match v
    case Interface(inner) => Accepts(host, heap, inner, visiting)
    case Fixed(elems) => forall i :: 0 <= i < |elems| ==> Accepts(host, heap, elems[i], visiting)
    case Reference(id) =>
      var node := heap[id];
      KeyOf(heap, id);
      node.key !in visiting
      && (Fewer(Keys(heap), visiting, node.key);
          forall i :: 0 <= i < |node.values| ==> Accepts(host, heap, node.values[i], visiting + {node.key}))
    case _ => SafeLeaf(host, v)
  }

  lemma Fewer(keys: set<VisitKey>, visiting: set<VisitKey>, key: VisitKey)
    requires key in keys && key !in visiting
    ensures |keys - (visiting + {key})| < |keys - visiting|
  {
    assert keys - (visiting + {key}) == (keys - visiting) - {key};
  }

  // ---- Paths ----

  /** A path enters one of the containers `from` refers to and goes on from there. */
  ghost predicate IsPath(heap: Heap, from: seq<Value>, path: seq<Id>)
    decreases |path|
  {
    path == [] ||
    (AnyRefersTo(from, path[0]) && path[0] in heap && IsPath(heap, heap[path[0]].values, path[1..]))
  }

  /** Along the path no key is met twice or is being visited, and every number is safe. */
  ghost predicate Clear(host: Host, heap: Heap, path: seq<Id>, visiting: set<VisitKey>)
    requires forall i :: 0 <= i < |path| ==> path[i] in heap
    decreases |path|
  {
    path == [] ||
    var node := heap[path[0]];
    node.key !in visiting && AllLeavesSafe(host, node.values) && Clear(host, heap, path[1..], visiting + {node.key})
  }

  lemma {:induction false} PathInHeap(heap: Heap, from: seq<Value>, path: seq<Id>)
    requires IsPath(heap, from, path)
    ensures forall i :: 0 <= i < |path| ==> path[i] in heap
    decreases |path|
  {
    if path != [] {
      PathInHeap(heap, heap[path[0]].values, path[1..]);
      assert forall i :: 0 < i < |path| ==> path[i] == path[1..][i - 1];
    }
  }

  /** What accepting a value comes to, one container deep. */
  lemma {:induction false} AcceptsUnfold(host: Host, heap: Heap, v: Value, visiting: set<VisitKey>)
    requires Closed(heap) && Within(heap, v)
    ensures Accepts(host, heap, v, visiting) <==>
            && LeavesSafe(host, v)
            && forall id :: RefersTo(v, id) ==> AcceptsNode(host, heap, id, visiting)
    decreases v
  {
    WithinParts(heap, v);
    match v
    case Interface(inner) => AcceptsUnfold(host, heap, inner, visiting);
    case Fixed(elems) =>
      forall i | 0 <= i < |elems|
        ensures Accepts(host, heap, elems[i], visiting) <==>
                LeavesSafe(host, elems[i])
                && forall id :: RefersTo(elems[i], id) ==> AcceptsNode(host, heap, id, visiting)
      {
        AcceptsUnfold(host, heap, elems[i], visiting);
      }
    case Reference(id) => assert RefersTo(v, id);
    case _ =>
  }

  ghost predicate AcceptsNode(host: Host, heap: Heap, id: Id, visiting: set<VisitKey>)
    requires Closed(heap) && id in heap
  {
    var node := heap[id];
    node.key !in visiting
    && forall i :: 0 <= i < |node.values| ==> Accepts(host, heap, node.values[i], visiting + {node.key})
  }

  lemma {:induction false} AcceptedPathsAreClear(
      host: Host, heap: Heap, from: seq<Value>, visiting: set<VisitKey>, path: seq<Id>)
    requires Closed(heap) && forall i :: 0 <= i < |from| ==> Within(heap, from[i])
    requires forall i :: 0 <= i < |from| ==> Accepts(host, heap, from[i], visiting)
    requires IsPath(heap, from, path) && forall i :: 0 <= i < |path| ==> path[i] in heap
    ensures Clear(host, heap, path, visiting)
    decreases |path|
  {
    hide Accepts, Keys;
    if path != [] {
      var node := heap[path[0]];
      var i :| 0 <= i < |from| && RefersTo(from[i], path[0]);
      AcceptsUnfold(host, heap, from[i], visiting);
      assert AcceptsNode(host, heap, path[0], visiting);
      forall j | 0 <= j < |node.values| ensures LeavesSafe(host, node.values[j]) {
        AcceptsUnfold(host, heap, node.values[j], visiting + {node.key});
      }
      AcceptedPathsAreClear(host, heap, node.values, visiting + {node.key}, path[1..]);
    }
  }

  ghost predicate AllClear(host: Host, heap: Heap, from: seq<Value>, visiting: set<VisitKey>) {
    forall path :: IsPath(heap, from, path) ==>
      (forall i :: 0 <= i < |path| ==> path[i] in heap) && Clear(host, heap, path, visiting)
  }

  lemma {:induction false} ClearPathsAreAccepted(
      host: Host, heap: Heap, from: seq<Value>, visiting: set<VisitKey>, v: Value)
    requires Closed(heap) && Within(heap, v) && LeavesSafe(host, v)
    requires forall id :: RefersTo(v, id) ==> AnyRefersTo(from, id)
    requires AllClear(host, heap, from, visiting)
    ensures Accepts(host, heap, v, visiting)
    decreases |Keys(heap) - visiting|
  {
    hide Accepts, Keys, LeavesSafe, RefersTo, AllClear;
    forall id | RefersTo(v, id)
      ensures AcceptsNode(host, heap, id, visiting)
    {
      ClearStep(host, heap, from, visiting, id);
      var node := heap[id];
      KeyOf(heap, id);
      Fewer(Keys(heap), visiting, node.key);
      forall i | 0 <= i < |node.values|
        ensures Accepts(host, heap, node.values[i], visiting + {node.key})
      {
        ClearPathsAreAccepted(host, heap, node.values, visiting + {node.key}, node.values[i]);
      }
    }
    AcceptsUnfold(host, heap, v, visiting);
  }

  lemma {:induction false} ClearStep(host: Host, heap: Heap, from: seq<Value>, visiting: set<VisitKey>, id: Id)
    requires AllClear(host, heap, from, visiting) && AnyRefersTo(from, id) && id in heap
    ensures heap[id].key !in visiting && AllLeavesSafe(host, heap[id].values)
    ensures AllClear(host, heap, heap[id].values, visiting + {heap[id].key})
  {
    assert IsPath(heap, heap[id].values, []);
    assert [id][1..] == [];
    assert IsPath(heap, from, [id]);
    forall path | IsPath(heap, heap[id].values, path)
      ensures (forall i :: 0 <= i < |path| ==> path[i] in heap)
      ensures Clear(host, heap, path, visiting + {heap[id].key})
    {
      assert ([id] + path)[1..] == path;
      assert IsPath(heap, from, [id] + path);
      PathInHeap(heap, heap[id].values, path);
    }
  }

  /** The walk accepts a value exactly when its own numbers are safe and every path from it is clear. */
  lemma {:induction false} AcceptsIffPathsClear(host: Host, heap: Heap, v: Value, visiting: set<VisitKey>)
    requires Closed(heap) && Within(heap, v)
    ensures Accepts(host, heap, v, visiting) <==> LeavesSafe(host, v) && AllClear(host, heap, [v], visiting)
  {
    hide Accepts, LeavesSafe;
    if Accepts(host, heap, v, visiting) {
      AcceptsUnfold(host, heap, v, visiting);
      forall path | IsPath(heap, [v], path)
        ensures (forall i :: 0 <= i < |path| ==> path[i] in heap) && Clear(host, heap, path, visiting)
      {
        PathInHeap(heap, [v], path);
        AcceptedPathsAreClear(host, heap, [v], visiting, path);
      }
    }
    if LeavesSafe(host, v) && AllClear(host, heap, [v], visiting) {
      forall id | RefersTo(v, id) ensures AnyRefersTo([v], id) { assert RefersTo([v][0], id); }
      ClearPathsAreAccepted(host, heap, [v], visiting, v);
    }
  }

  // ---- Cycles ----

  ghost predicate Reachable(heap: Heap, from: seq<Value>, id: Id) {
    exists path :: path != [] && IsPath(heap, from, path) && path[|path| - 1] == id
  }

  ghost predicate OnCycle(heap: Heap, id: Id) {
    id in heap && Reachable(heap, heap[id].values, id)
  }

  /** Each container has a key of its own. */
  ghost predicate KeyedApart(heap: Heap) {
    forall a, b :: a in heap && b in heap && heap[a].key == heap[b].key ==> a == b
  }

  ghost predicate Distinct(heap: Heap, path: seq<Id>)
    requires forall i :: 0 <= i < |path| ==> path[i] in heap
  {
    forall i, j :: 0 <= i < j < |path| ==> heap[path[i]].key != heap[path[j]].key
  }

  lemma {:induction false} ClearIff(host: Host, heap: Heap, path: seq<Id>, visiting: set<VisitKey>)
    requires forall i :: 0 <= i < |path| ==> path[i] in heap
    ensures Clear(host, heap, path, visiting) <==>
            && Distinct(heap, path)
            && forall i :: 0 <= i < |path| ==>
                 heap[path[i]].key !in visiting && AllLeavesSafe(host, heap[path[i]].values)
    decreases |path|
  {
    hide AllLeavesSafe;
    if path != [] {
      var rest, key := path[1..], heap[path[0]].key;
      ClearIff(host, heap, rest, visiting + {key});
      assert forall i :: 0 < i < |path| ==> path[i] == rest[i - 1];
      if Clear(host, heap, path, visiting) {
        forall i | 0 <= i < |path|
          ensures heap[path[i]].key !in visiting && AllLeavesSafe(host, heap[path[i]].values)
        {
          if i > 0 { assert heap[rest[i - 1]].key !in visiting + {key}; }
        }
      } else if Distinct(heap, path) {
        forall i, j | 0 <= i < j < |rest| ensures heap[rest[i]].key != heap[rest[j]].key {
          assert path[i + 1] == rest[i] && path[j + 1] == rest[j];
        }
        forall i | 0 <= i < |rest| ensures heap[rest[i]].key != key { assert path[i + 1] == rest[i]; }
      }
    }
  }

  lemma {:induction false} PathSplits(heap: Heap, from: seq<Value>, path: seq<Id>, n: nat)
    requires IsPath(heap, from, path) && 0 < n <= |path| && path[n - 1] in heap
    ensures IsPath(heap, from, path[..n]) && IsPath(heap, heap[path[n - 1]].values, path[n..])
    decreases n
  {
    assert path[..n][1..] == path[1..][..n - 1];
    if n > 1 {
      PathSplits(heap, heap[path[0]].values, path[1..], n - 1);
      assert path[1..][n - 1..] == path[n..];
    }
  }

  lemma {:induction false} PathJoins(heap: Heap, from: seq<Value>, path: seq<Id>, more: seq<Id>)
    requires IsPath(heap, from, path) && path != [] && path[|path| - 1] in heap
    requires IsPath(heap, heap[path[|path| - 1]].values, more)
    ensures IsPath(heap, from, path + more)
    decreases |path|
  {
    assert (path + more)[1..] == path[1..] + more;
    if |path| > 1 {
      PathJoins(heap, heap[path[0]].values, path[1..], more);
    } else {
      assert path[1..] + more == more;
    }
  }

  ghost predicate ReachableIsSafe(host: Host, heap: Heap, v: Value) {
    forall id :: Reachable(heap, [v], id) ==>
      id in heap && AllLeavesSafe(host, heap[id].values) && !OnCycle(heap, id)
  }

  /** Going round a cycle makes a path that meets its container twice. */
  lemma {:induction false} CycleMakesRepeat(heap: Heap, v: Value, id: Id) returns (round: seq<Id>)
    requires Reachable(heap, [v], id) && OnCycle(heap, id)
    ensures IsPath(heap, [v], round) && (forall i :: 0 <= i < |round| ==> round[i] in heap) && !Distinct(heap, round)
  {
    var path :| path != [] && IsPath(heap, [v], path) && path[|path| - 1] == id;
    var loop :| loop != [] && IsPath(heap, heap[id].values, loop) && loop[|loop| - 1] == id;
    PathJoins(heap, [v], path, loop);
    round := path + loop;
    PathInHeap(heap, [v], round);
    var i, j := |path| - 1, |round| - 1;
    assert round[i] == id && round[j] == id;
    assert heap[round[i]].key == heap[round[j]].key;
  }

  /** A path that meets a container twice went round a cycle. */
  lemma {:induction false} RepeatMeansCycle(heap: Heap, v: Value, path: seq<Id>, i: nat, j: nat)
    requires IsPath(heap, [v], path) && i < j < |path| && path[i] == path[j] && path[i] in heap
    ensures OnCycle(heap, path[i])
  {
    hide IsPath;
    PathSplits(heap, [v], path, i + 1);
    var tail := path[i + 1..];
    assert tail[j - i - 1] == path[j];
    PathSplits(heap, heap[path[i]].values, tail, j - i);
    var loop := tail[..j - i];
    assert loop != [] && IsPath(heap, heap[path[i]].values, loop);
    assert loop[|loop| - 1] == tail[j - i - 1] == path[i];
    assert Reachable(heap, heap[path[i]].values, path[i]);
  }

  lemma {:induction false} ClearMeansNoCycle(host: Host, heap: Heap, v: Value, id: Id)
    requires AllClear(host, heap, [v], {}) && Reachable(heap, [v], id)
    ensures id in heap && AllLeavesSafe(host, heap[id].values) && !OnCycle(heap, id)
  {
    hide AllLeavesSafe, Clear, IsPath;
    var path :| path != [] && IsPath(heap, [v], path) && path[|path| - 1] == id;
    ClearIff(host, heap, path, {});
    if OnCycle(heap, id) {
      var round := CycleMakesRepeat(heap, v, id);
      ClearIff(host, heap, round, {});
    }
  }

  lemma {:induction false} NoCycleMeansClear(host: Host, heap: Heap, v: Value, path: seq<Id>)
    requires KeyedApart(heap) && ReachableIsSafe(host, heap, v) && IsPath(heap, [v], path)
    requires forall i :: 0 <= i < |path| ==> path[i] in heap
    ensures Clear(host, heap, path, {})
  {
    hide AllLeavesSafe, Clear, IsPath;
    ClearIff(host, heap, path, {});
    forall i | 0 <= i < |path|
      ensures AllLeavesSafe(host, heap[path[i]].values) && !OnCycle(heap, path[i])
    {
      PathSplits(heap, [v], path, i + 1);
      assert path[..i + 1] != [] && path[..i + 1][|path[..i + 1]| - 1] == path[i];
      assert Reachable(heap, [v], path[i]);
    }
    forall i, j | 0 <= i < j < |path|
      ensures heap[path[i]].key != heap[path[j]].key
    {
      if path[i] == path[j] { RepeatMeansCycle(heap, v, path, i, j); }
    }
  }

  /**
   Where every container has its own key, the walk succeeds exactly when every number that can be reached is
   safe and no container that can be reached lies on a cycle. Sharing a container is no obstacle.
   */
  lemma {:induction false} WalkIffAcyclicAndSafe(host: Host, heap: Heap, v: Value)
    requires Closed(heap) && Within(heap, v) && KeyedApart(heap)
    ensures Accepts(host, heap, v, {}) <==> LeavesSafe(host, v) && ReachableIsSafe(host, heap, v)
  {
    hide Accepts, LeavesSafe, IsPath, Clear, AllLeavesSafe;
    AcceptsIffPathsClear(host, heap, v, {});
    if AllClear(host, heap, [v], {}) {
      forall id | Reachable(heap, [v], id)
        ensures id in heap && AllLeavesSafe(host, heap[id].values) && !OnCycle(heap, id)
      {
        ClearMeansNoCycle(host, heap, v, id);
      }
    }
    if ReachableIsSafe(host, heap, v) {
      forall path | IsPath(heap, [v], path)
        ensures (forall i :: 0 <= i < |path| ==> path[i] in heap) && Clear(host, heap, path, {})
      {
        PathInHeap(heap, [v], path);
        NoCycleMeansClear(host, heap, v, path);
      }
    }
  }

  /**
   Two slices over one array share a key, so a slice that holds a shorter slice of its own array is
   refused although nothing lies on a cycle.
   */
  lemma {:induction false} SharedBaseIsRefused(host: Host, key: VisitKey)
    ensures var one := Interface(Signed(1));
            var heap := map[0 := Node(key, [one, Interface(Reference(1))]), 1 := Node(key, [one])];
            && Closed(heap) && Within(heap, Reference(0))
            && !Accepts(host, heap, Reference(0), {})
            && forall id :: !OnCycle(heap, id)
  {
    var one := Interface(Signed(1));
    var heap: Heap := map[0 := Node(key, [one, Interface(Reference(1))]), 1 := Node(key, [one])];
    assert forall t :: !RefersTo(one, t);
    forall id, i | id in heap && 0 <= i < |heap[id].values| ensures Within(heap, heap[id].values[i]) {
      if id == 0 && i == 1 { assert forall t :: RefersTo(heap[0].values[1], t) ==> t == 1; }
    }
    assert {} + {key} == {key};
    assert !Accepts(host, heap, Reference(1), {key});
    assert heap[0].values[1] == Interface(Reference(1));
    assert !Accepts(host, heap, heap[0].values[1], {key});
    forall id ensures !OnCycle(heap, id) {
      if id in heap && Reachable(heap, heap[id].values, id) {
        var path :| path != [] && IsPath(heap, heap[id].values, path) && path[|path| - 1] == id;
        OnlyOne(heap, heap[id].values, path);
      }
    }
  }

  lemma OnlyOne(heap: Heap, from: seq<Value>, path: seq<Id>)
    requires 1 in heap && forall i, t :: 0 <= i < |heap[1].values| ==> !RefersTo(heap[1].values[i], t)
    requires forall id :: AnyRefersTo(from, id) ==> id == 1
    requires IsPath(heap, from, path) && path != []
    ensures path == [1] && exists i :: 0 <= i < |from| && RefersTo(from[i], 1)
  {
    if |path| > 1 {
      assert AnyRefersTo(heap[1].values, path[1]) by { assert path[1..][0] == path[1]; }
    }
  }
}
