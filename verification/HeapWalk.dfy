/**
 The object graph that libs/objsize/c_objsize.c measures, the order in which its depth-first
 walk visits it, and what that order has to do with reachability.
 */
module HeapWalk {
  import opened Sequences

  type Id = nat

  /** A field: an immediate or a pointer.  A pointer leads into the heap when its block is in the map. */
  datatype Value = Imm(n: int) | Ptr(id: Id)

  const VAL_UNIT := Imm(0)
  const NO_SCAN_TAG := 251

  /** A block without its colour; the size in words is the number of fields. */
  datatype Block = Block(tag: nat, fields: seq<Value>)

  type Heap = map<Id, Block>

  predicate CondBlock(h: Heap, q: Value) {
    q.Ptr? && q.id in h
  }

  /** The heap blocks among some fields, in order. */
  function BlockFields(h: Heap, fields: seq<Value>): (ids: seq<Id>)
    ensures forall id :: id in ids ==> id in h
  {
    if fields == [] then []
    else
      var f := fields[|fields| - 1];
      BlockFields(h, fields[..|fields| - 1]) + if CondBlock(h, f) then [f.id] else []
  }

  function Kids(h: Heap, id: Id): (ids: seq<Id>)
    requires id in h
    ensures forall k :: k in ids ==> k in h
  {
    if h[id].tag < NO_SCAN_TAG then BlockFields(h, h[id].fields) else []
  }

  /** Every pointer into the heap counts, whatever its block holds, and in the order of the fields. */
  lemma FieldsInOrder(h: Heap, fields: seq<Value>, f: Value)
    ensures BlockFields(h, []) == []
    ensures BlockFields(h, fields + [f]) == BlockFields(h, fields) + if f.Ptr? && f.id in h then [f.id] else []
  {
    assert (fields + [f])[..|fields|] == fields;
  }

  lemma {:induction false} FieldsAre(h: Heap, fields: seq<Value>, k: Id)
    ensures k in BlockFields(h, fields) <==> k in h && Ptr(k) in fields
    decreases |fields|
  {
    if fields != [] {
      var init, f := fields[..|fields| - 1], fields[|fields| - 1];
      FieldsAre(h, init, k);
      FieldsInOrder(h, init, f);
      assert fields == init + [f];
    }
  }

  lemma KidsAre(h: Heap, id: Id, k: Id)
    requires id in h
    ensures k in Kids(h, id) <==> h[id].tag < 251 && k in h && Ptr(k) in h[id].fields
  {
    FieldsAre(h, h[id].fields, k);
  }

  // ----- the visiting order -----

  datatype Visit = Visit(id: Id, depth: nat)

  function At(ids: seq<Id>, depth: nat): (vs: seq<Visit>)
    ensures |vs| == |ids|
    ensures forall i :: 0 <= i < |ids| ==> vs[i] == Visit(ids[i], depth)
  {
    seq(|ids|, i requires 0 <= i < |ids| => Visit(ids[i], depth))
  }

  function Ids(vs: seq<Visit>): set<Id> {
    set v | v in vs :: v.id
  }

  predicate InHeap(h: Heap, vs: seq<Visit>) {
    forall v :: v in vs ==> v.id in h
  }

  /** Depth first, left to right, skipping what has been seen. */
  function Dfs(h: Heap, todo: seq<Visit>, seen: set<Id>): (order: seq<Visit>)
    requires InHeap(h, todo)
    decreases h.Keys - seen, |todo|
  {
    if todo == [] then []
    else
      var v := todo[0];
      if v.id in seen then Dfs(h, todo[1..], seen)
      else [v] + Dfs(h, At(Kids(h, v.id), v.depth + 1) + todo[1..], seen + {v.id})
  }

  /** What comes next on the worklist when its first entry is entered. */
  function Enter(h: Heap, todo: seq<Visit>): (todo': seq<Visit>)
    requires todo != [] && InHeap(h, todo)
    ensures InHeap(h, todo')
  {
    At(Kids(h, todo[0].id), todo[0].depth + 1) + todo[1..]
  }

  lemma DfsUnfold(h: Heap, todo: seq<Visit>, seen: set<Id>)
    requires InHeap(h, todo) && todo != []
    ensures InHeap(h, todo[1..])
    ensures Dfs(h, todo, seen) ==
      if todo[0].id in seen then Dfs(h, todo[1..], seen)
      else [todo[0]] + Dfs(h, Enter(h, todo), seen + {todo[0].id})
  {
  }

  lemma DfsNothing(h: Heap, seen: set<Id>)
    ensures Dfs(h, [], seen) == [] && Ids([]) == {}
  {
  }

  predicate Distinct(vs: seq<Visit>) {
    forall i, j :: 0 <= i < j < |vs| ==> vs[i].id != vs[j].id
  }

  /** No block is visited twice, none that was seen before, and none outside the heap. */
  lemma {:induction false} DfsVisitsOnce(h: Heap, todo: seq<Visit>, seen: set<Id>)
    requires InHeap(h, todo)
    ensures var order := Dfs(h, todo, seen);
      Distinct(order) && Ids(order) !! seen && Ids(order) <= h.Keys
    decreases h.Keys - seen, |todo|
  {
    hide Kids, At, Dfs, Enter;
    if todo == [] {
      DfsNothing(h, seen);
    } else {
      DfsUnfold(h, todo, seen);
      if todo[0].id in seen {
        DfsVisitsOnce(h, todo[1..], seen);
      } else {
        var seen' := seen + {todo[0].id};
        DfsVisitsOnce(h, Enter(h, todo), seen');
        ConsIds(todo[0], Dfs(h, Enter(h, todo), seen'));
      }
    }
  }

  lemma ConsIds(v: Visit, vs: seq<Visit>)
    ensures Ids([v] + vs) == {v.id} + Ids(vs)
    ensures v.id !in Ids(vs) && Distinct(vs) ==> Distinct([v] + vs)
  {
    ConcatIds([v], vs);
    assert Ids([v]) == {v.id};
  }

  lemma AtIds(ids: seq<Id>, depth: nat)
    ensures Ids(At(ids, depth)) == set id | id in ids
  {
    var vs := At(ids, depth);
    forall id | id in ids
      ensures id in Ids(vs)
    {
      var i :| 0 <= i < |ids| && ids[i] == id;
      assert vs[i] in vs;
    }
  }

  lemma ConcatIds(a: seq<Visit>, b: seq<Visit>)
    ensures Ids(a + b) == Ids(a) + Ids(b)
  {
  }

  /** The walk of two worklists is the walk of the first, then of the second with the first seen. */
  lemma {:induction false} DfsAppend(h: Heap, a: seq<Visit>, b: seq<Visit>, seen: set<Id>)
    requires InHeap(h, a) && InHeap(h, b)
    ensures Dfs(h, a + b, seen) == Dfs(h, a, seen) + Dfs(h, b, seen + Ids(Dfs(h, a, seen)))
    decreases h.Keys - seen, |a|
  {
    hide Dfs, Enter, Ids;
    if a == [] {
      DfsNothing(h, seen);
      assert a + b == b;
      assert seen + Ids([]) == seen;
      assert [] + Dfs(h, b, seen) == Dfs(h, b, seen);
    } else {
      DfsUnfold(h, a, seen);
      DfsUnfold(h, a + b, seen);
      assert (a + b)[1..] == a[1..] + b;
      EnterAppend(h, a, b);
      var v := a[0];
      if v.id in seen {
        DfsAppend(h, a[1..], b, seen);
      } else {
        var seen', rest := seen + {v.id}, Dfs(h, Enter(h, a), seen + {v.id});
        DfsAppend(h, Enter(h, a), b, seen');
        ConsIds(v, rest);
        assert seen' + Ids(rest) == seen + Ids([v] + rest);
        Assoc([v], rest, Dfs(h, b, seen' + Ids(rest)));
      }
    }
  }

  lemma EnterAppend(h: Heap, a: seq<Visit>, b: seq<Visit>)
    requires a != [] && InHeap(h, a) && InHeap(h, b)
    ensures InHeap(h, a + b) && Enter(h, a + b) == Enter(h, a) + b
  {
    assert (a + b)[1..] == a[1..] + b;
    Assoc(At(Kids(h, a[0].id), a[0].depth + 1), a[1..], b);
  }

  /**
   The order depends only on which of the blocks it meets are seen: marking more blocks as
   seen, but none that would be visited, leaves it unchanged.  This is what lets the second
   walk, whose "seen" is the complement of blue, follow the first.
   */
  lemma {:induction false} DfsLockstep(h: Heap, todo: seq<Visit>, seen: set<Id>, more: set<Id>)
    requires InHeap(h, todo)
    requires seen <= more && Ids(Dfs(h, todo, seen)) !! more
    ensures Dfs(h, todo, more) == Dfs(h, todo, seen)
    decreases h.Keys - seen, |todo|
  {
    hide Kids, At, Dfs, Enter;
    if todo == [] {
      DfsNothing(h, seen);
      DfsNothing(h, more);
    } else {
      DfsUnfold(h, todo, seen);
      DfsUnfold(h, todo, more);
      var v := todo[0];
      if v.id in seen {
        DfsLockstep(h, todo[1..], seen, more);
      } else {
        var seen' := seen + {v.id};
        ConsIds(v, Dfs(h, Enter(h, todo), seen'));
        DfsVisitsOnce(h, Enter(h, todo), seen');
        DfsLockstep(h, Enter(h, todo), seen', more + {v.id});
      }
    }
  }

  lemma DfsOne(h: Heap, v: Visit, seen: set<Id>)
    requires v.id in h
    ensures v.id in seen ==> Dfs(h, [v], seen) == []
    ensures v.id !in seen ==>
      Dfs(h, [v], seen) == [v] + Dfs(h, At(Kids(h, v.id), v.depth + 1), seen + {v.id})
  {
    assert [v][1..] == [];
    assert At(Kids(h, v.id), v.depth + 1) + [] == At(Kids(h, v.id), v.depth + 1);
  }

  /** The walk of a list is the walk of all but its last, then of the last. */
  lemma DfsSnoc(h: Heap, ids: seq<Id>, id: Id, depth: nat, seen: set<Id>)
    requires id in h && forall i :: i in ids ==> i in h
    ensures var before := Dfs(h, At(ids, depth), seen);
      Dfs(h, At(ids + [id], depth), seen) == before + Dfs(h, [Visit(id, depth)], seen + Ids(before))
  {
    assert At(ids + [id], depth) == At(ids, depth) + [Visit(id, depth)];
    DfsAppend(h, At(ids, depth), [Visit(id, depth)], seen);
  }

  // ----- reachability -----

  /** A path through scannable blocks of the heap that never enters `avoid`. */
  ghost predicate Path(h: Heap, avoid: set<Id>, p: seq<Id>) {
    && p != []
    && (forall i :: 0 <= i < |p| ==> p[i] in h && p[i] !in avoid)
    && (forall i :: 0 < i < |p| ==> p[i] in Kids(h, p[i - 1]))
  }

  ghost predicate PathTo(h: Heap, avoid: set<Id>, p: seq<Id>, start: Id, end: Id) {
    Path(h, avoid, p) && p[0] == start && p[|p| - 1] == end
  }

  ghost predicate Reachable(h: Heap, avoid: set<Id>, start: Id, end: Id) {
    exists p :: PathTo(h, avoid, p, start, end)
  }

  /** Every visited block lies on an avoiding path from the worklist, as long as its depth says. */
  lemma {:induction false} DfsSound(h: Heap, todo: seq<Visit>, seen: set<Id>, v: Visit)
    returns (t: Visit, p: seq<Id>)
    requires InHeap(h, todo)
    requires v in Dfs(h, todo, seen)
    ensures t in todo && PathTo(h, seen, p, t.id, v.id)
    ensures v.depth == t.depth + |p| - 1
    decreases h.Keys - seen, |todo|
  {
    hide Dfs, Enter, At, Path;
    DfsNothing(h, seen);
    var u := todo[0];
    DfsUnfold(h, todo, seen);
    if u.id in seen {
      t, p := DfsSound(h, todo[1..], seen, v);
    } else if v == u {
      t, p := u, [u.id];
      PathHere(h, seen, u.id);
    } else {
      t, p := DfsSound(h, Enter(h, todo), seen + {u.id}, v);
      if t in todo[1..] {
        PathAvoidsLess(h, seen, seen + {u.id}, p);
      } else {
        EnterMember(h, todo, t);
        PathFromParent(h, seen, u.id, p);
        t, p := u, [u.id] + p;
      }
    }
  }

  lemma EnterMember(h: Heap, todo: seq<Visit>, t: Visit)
    requires todo != [] && InHeap(h, todo) && t in Enter(h, todo) && t !in todo[1..]
    ensures t.id in Kids(h, todo[0].id) && t.depth == todo[0].depth + 1
  {
  }

  lemma PathHere(h: Heap, avoid: set<Id>, id: Id)
    requires id in h && id !in avoid
    ensures Path(h, avoid, [id])
  {
  }

  lemma PathAvoidsLess(h: Heap, avoid: set<Id>, more: set<Id>, p: seq<Id>)
    requires avoid <= more && Path(h, more, p)
    ensures Path(h, avoid, p)
  {
  }

  lemma PathFromParent(h: Heap, avoid: set<Id>, id: Id, p: seq<Id>)
    requires id in h && id !in avoid && Path(h, avoid + {id}, p) && p[0] in Kids(h, id)
    ensures p != [] && Path(h, avoid, [id] + p)
  {
  }

  ghost predicate ClosedIn(h: Heap, inside: set<Id>, all: set<Id>) {
    forall n, k :: n in inside && n in h && k in Kids(h, n) ==> k in all
  }

  /** The visited blocks and the seen ones together contain the worklist and are closed. */
  lemma {:induction false} DfsClosed(h: Heap, todo: seq<Visit>, seen: set<Id>)
    requires InHeap(h, todo)
    ensures var visited := Ids(Dfs(h, todo, seen));
      Ids(todo) <= seen + visited && ClosedIn(h, visited, seen + visited)
    decreases h.Keys - seen, |todo|
  {
    hide Dfs, Kids, At;
    if todo == [] {
      DfsNothing(h, seen);
    } else {
      DfsUnfold(h, todo, seen);
      var v, kids := todo[0], Kids(h, todo[0].id);
      assert todo == [v] + todo[1..];
      ConsIds(v, todo[1..]);
      ConcatIds(At(kids, v.depth + 1), todo[1..]);
      AtIds(kids, v.depth + 1);
      if v.id in seen {
        DfsClosed(h, todo[1..], seen);
      } else {
        var seen', rest := seen + {v.id}, Dfs(h, Enter(h, todo), seen + {v.id});
        DfsClosed(h, Enter(h, todo), seen');
        ConsIds(v, rest);
        assert seen + Ids([v] + rest) == seen' + Ids(rest);
      }
    }
  }

  lemma {:induction false} PathStaysInside(h: Heap, avoid: set<Id>, p: seq<Id>, inside: set<Id>)
    requires Path(h, avoid, p) && p[0] in inside
    requires ClosedIn(h, inside, avoid + inside)
    ensures p[|p| - 1] in inside
  {
    if |p| > 1 {
      assert p[1] in Kids(h, p[0]) && p[0] in h && p[1] !in avoid;
      assert p[1] in avoid + inside;
      PathStaysInside(h, avoid, p[1..], inside);
    }
  }

  /** The walk from a root visits exactly the blocks it can reach without entering `avoid`. */
  lemma DfsIsReachability(h: Heap, root: Id, avoid: set<Id>)
    requires root in h && root !in avoid
    ensures var order := Dfs(h, [Visit(root, 0)], avoid);
      && Distinct(order)
      && forall id :: id in Ids(order) <==> Reachable(h, avoid, root, id)
  {
    var todo := [Visit(root, 0)];
    var order := Dfs(h, todo, avoid);
    DfsVisitsOnce(h, todo, avoid);
    DfsClosed(h, todo, avoid);
    assert todo[0].id in Ids(todo);
    forall id
      ensures id in Ids(order) <==> Reachable(h, avoid, root, id)
    {
      if id in Ids(order) {
        var v :| v in order && v.id == id;
        var t, p := DfsSound(h, todo, avoid, v);
      } else if Reachable(h, avoid, root, id) {
        var p :| PathTo(h, avoid, p, root, id);
        PathStaysInside(h, avoid, p, Ids(order));
      }
    }
  }

  // ----- measures -----

  function Words(h: Heap, vs: seq<Visit>): nat
    requires InHeap(h, vs)
  {
    if vs == [] then 0 else Words(h, vs[..|vs| - 1]) + |h[vs[|vs| - 1].id].fields|
  }

  function MaxDepth(vs: seq<Visit>): nat {
    if vs == [] then 0
    else
      var m, d := MaxDepth(vs[..|vs| - 1]), vs[|vs| - 1].depth;
      if d > m then d else m
  }

  /** The words of a set of blocks, whatever the order in which they are counted. */
  ghost function SetWords(h: Heap, s: set<Id>): nat
    requires s <= h.Keys
  {
    if s == {} then 0
    else
      var x :| x in s;
      |h[x].fields| + SetWords(h, s - {x})
  }

  lemma {:induction false} SetWordsRemove(h: Heap, s: set<Id>, y: Id)
    requires s <= h.Keys && y in s
    ensures SetWords(h, s) == |h[y].fields| + SetWords(h, s - {y})
    decreases s
  {
    var x :| x in s && SetWords(h, s) == |h[x].fields| + SetWords(h, s - {x});
    if x != y {
      SetWordsRemove(h, s - {x}, y);
      SetWordsRemove(h, s - {y}, x);
      assert s - {x} - {y} == s - {y} - {x};
    }
  }

  /** A walk that visits nothing twice counts each block of its set once, and its words once. */
  lemma {:induction false} CountedOnce(h: Heap, vs: seq<Visit>)
    requires InHeap(h, vs) && Distinct(vs)
    ensures |vs| == |Ids(vs)|
    ensures Ids(vs) <= h.Keys && Words(h, vs) == SetWords(h, Ids(vs))
  {
    if vs != [] {
      var init, v := vs[..|vs| - 1], vs[|vs| - 1];
      CountedOnce(h, init);
      SnocIds(vs);
      SetWordsRemove(h, Ids(vs), v.id);
    }
  }

  lemma SnocIds(vs: seq<Visit>)
    requires vs != [] && Distinct(vs)
    ensures var init, v := vs[..|vs| - 1], vs[|vs| - 1];
      && v.id !in Ids(init)
      && Ids(vs) == Ids(init) + {v.id}
      && Ids(vs) - {v.id} == Ids(init)
      && |Ids(vs)| == |Ids(init)| + 1
  {
    var init, v := vs[..|vs| - 1], vs[|vs| - 1];
    assert vs == init + [v];
    ConcatIds(init, [v]);
    assert Ids([v]) == {v.id};
  }

  lemma {:induction false} WordsConcat(h: Heap, a: seq<Visit>, b: seq<Visit>)
    requires InHeap(h, a) && InHeap(h, b)
    ensures Words(h, a + b) == Words(h, a) + Words(h, b)
    ensures MaxDepth(a + b) == if MaxDepth(a) < MaxDepth(b) then MaxDepth(b) else MaxDepth(a)
  {
    if b == [] {
      assert a + b == a;
    } else {
      var init, v := b[..|b| - 1], b[|b| - 1];
      WordsConcat(h, a, init);
      assert (a + b)[..|a + b| - 1] == a + init;
    }
  }

  lemma {:induction false} MaxDepthAttained(vs: seq<Visit>)
    ensures forall v :: v in vs ==> v.depth <= MaxDepth(vs)
    ensures vs != [] ==> exists v :: v in vs && v.depth == MaxDepth(vs)
  {
    if vs != [] {
      var init, last := vs[..|vs| - 1], vs[|vs| - 1];
      MaxDepthAttained(init);
      assert vs == init + [last];
      assert last in vs;
      if init != [] {
        var v :| v in init && v.depth == MaxDepth(init);
        assert v in vs;
      }
    }
  }

  /** The reported depth is the length of a path to some visited block, and no visit was deeper. */
  lemma DepthOfSomePath(h: Heap, root: Id, avoid: set<Id>)
    requires root in h && root !in avoid
    ensures var order := Dfs(h, [Visit(root, 0)], avoid);
      && (forall v :: v in order ==> v.depth <= MaxDepth(order))
      && exists end, p :: PathTo(h, avoid, p, root, end) && |p| == MaxDepth(order) + 1
  {
    var todo := [Visit(root, 0)];
    var order := Dfs(h, todo, avoid);
    DfsUnfold(h, todo, avoid);
    MaxDepthAttained(order);
    var v :| v in order && v.depth == MaxDepth(order);
    var t, p := DfsSound(h, todo, avoid, v);
    assert PathTo(h, avoid, p, root, v.id);
  }

  // ----- the scan list -----

  /** A list of blocks held in heap cells: each cell's first field is an element, its second the rest. */
  ghost predicate ListOf(h: Heap, list: Value, elems: seq<Id>)
    decreases elems
  {
    if elems == [] then !CondBlock(h, list)
    else
      && CondBlock(h, list)
      && |h[list.id].fields| >= 2
      && h[list.id].fields[0] == Ptr(elems[0])
      && elems[0] in h
      && ListOf(h, h[list.id].fields[1], elems[1..])
  }

  /** The elements not seen before, each at its first occurrence. */
  function Firsts(ids: seq<Id>, seen: set<Id>): seq<Id> {
    if ids == [] then []
    else if ids[0] in seen then Firsts(ids[1..], seen)
    else [ids[0]] + Firsts(ids[1..], seen + {ids[0]})
  }

  lemma {:induction false} FirstsLockstep(ids: seq<Id>, seen: set<Id>, more: set<Id>)
    requires seen <= more && (set id | id in Firsts(ids, seen)) !! more
    ensures Firsts(ids, more) == Firsts(ids, seen)
  {
    if ids != [] {
      if ids[0] in seen {
        FirstsLockstep(ids[1..], seen, more);
      } else {
        var seen' := seen + {ids[0]};
        FirstsAreAll(ids[1..], seen');
        assert ids[0] in Firsts(ids, seen);
        assert forall id :: id in Firsts(ids[1..], seen') ==> id in Firsts(ids, seen);
        FirstsLockstep(ids[1..], seen', more + {ids[0]});
      }
    }
  }

  lemma {:induction false} FirstsAreAll(ids: seq<Id>, seen: set<Id>)
    ensures forall id :: id in Firsts(ids, seen) <==> id in ids && id !in seen
    ensures Distinct(At(Firsts(ids, seen), 0))
  {
    if ids != [] {
      if ids[0] in seen {
        FirstsAreAll(ids[1..], seen);
      } else {
        FirstsAreAll(ids[1..], seen + {ids[0]});
      }
    }
  }
}
