/**
 c_objsize (libs/objsize/c_objsize.c): measures the object graph under a value by painting every
 visited block blue, keeping the overwritten colours in the colour stream, and painting them back.
 */
module ObjSize {
  import opened ColorCodec
  import opened HeapWalk
  import ColorStream
  import opened Sequences

  // ----- headers -----

  /** Colornum_hd and Coloredhd_hd on a 64-bit header: size << 10 | colour << 8 | tag. */
  function ColorNumHd(hd: bv64): bv64 {
    (hd >> 8) & 3
  }

  function ColoredHd(hd: bv64, col: bv64): bv64 {
    (hd & !0x300) | (col << 8)
  }

  /** Repainting touches the colour only, which is why sizes and tags are constants of the heap here. */
  lemma RepaintingKeepsSizeAndTag(hd: bv64, col: bv64)
    requires col <= 3
    ensures ColorNumHd(ColoredHd(hd, col)) == col
    ensures ColoredHd(hd, col) >> 10 == hd >> 10
    ensures ColoredHd(hd, col) & 0xFF == hd & 0xFF
  {
  }

  // ----- colours of the whole heap -----

  type Colors = map<Id, nat>

  predicate Legal(h: Heap, c: Colors) {
    c.Keys == h.Keys && forall id :: id in c ==> c[id] <= 3
  }

  function BlueIds(c: Colors): set<Id> {
    set id | id in c && c[id] == BLUE
  }

  function OtherIds(c: Colors): set<Id> {
    set id | id in c && c[id] != BLUE
  }

  function Paint(c: Colors, s: set<Id>): Colors {
    map id | id in c :: if id in s then BLUE else c[id]
  }

  function Repaint(c: Colors, original: Colors, s: set<Id>): Colors
    requires c.Keys <= original.Keys
  {
    map id | id in c :: if id in s then original[id] else c[id]
  }

  ghost predicate Colored(h: Heap, c: Colors, vs: seq<Visit>) {
    && Legal(h, c)
    && forall i :: 0 <= i < |vs| ==> vs[i].id in h && c[vs[i].id] != BLUE
  }

  ghost function ColorsOf(h: Heap, c: Colors, vs: seq<Visit>): (cs: seq<Color>)
    requires Colored(h, c, vs)
    ensures |cs| == |vs| && forall i :: 0 <= i < |vs| ==> cs[i] == c[vs[i].id]
  {
    if vs == [] then [] else ColorsOf(h, c, vs[..|vs| - 1]) + [c[vs[|vs| - 1].id]]
  }

  lemma PaintMore(h: Heap, c: Colors, a: seq<Visit>, b: seq<Visit>)
    requires Colored(h, c, a) && Colored(h, Paint(c, Ids(a)), b)
    ensures Colored(h, c, a + b)
    ensures Paint(Paint(c, Ids(a)), Ids(b)) == Paint(c, Ids(a + b))
    ensures ColorsOf(h, c, a + b) == ColorsOf(h, c, a) + ColorsOf(h, Paint(c, Ids(a)), b)
  {
    hide Paint;
    PaintTwice(c, Ids(a), Ids(b));
    ConcatIds(a, b);
    StillColored(h, c, Ids(a), b);
    ColorsOfConcat(h, c, a, b);
  }

  lemma PaintTwice(c: Colors, s: set<Id>, t: set<Id>)
    ensures Paint(Paint(c, s), t) == Paint(c, s + t)
  {
  }

  lemma StillColored(h: Heap, c: Colors, s: set<Id>, b: seq<Visit>)
    requires Legal(h, c) && Colored(h, Paint(c, s), b)
    ensures Colored(h, c, b) && ColorsOf(h, c, b) == ColorsOf(h, Paint(c, s), b)
  {
    forall i | 0 <= i < |b|
      ensures b[i].id in h && c[b[i].id] == Paint(c, s)[b[i].id] != BLUE
    {
    }
  }

  lemma PaintedBlue(h: Heap, c: Colors, a: seq<Visit>)
    requires Colored(h, c, a)
    ensures BlueIds(Paint(c, Ids(a))) == BlueIds(c) + Ids(a)
    ensures Legal(h, Paint(c, Ids(a)))
  {
  }

  function Max(a: nat, b: nat): nat {
    if a > b then a else b
  }

  /** What the painting walk changes. */
  datatype Tally = Tally(color: Colors, written: seq<Color>, hdrs: nat, data: nat, depth: nat)

  /** From s to t exactly the blocks of `order` were painted, recorded and counted. */
  ghost predicate Painted(h: Heap, s: Tally, t: Tally, order: seq<Visit>) {
    && Colored(h, s.color, order)
    && t.color == Paint(s.color, Ids(order))
    && t.written == s.written + ColorsOf(h, s.color, order)
    && t.hdrs == s.hdrs + |order|
    && t.data == s.data + Words(h, order)
    && t.depth == Max(s.depth, MaxDepth(order))
  }

  lemma PaintedNothing(h: Heap, s: Tally)
    requires Legal(h, s.color)
    ensures Painted(h, s, s, [])
  {
    assert s.written + [] == s.written;
    assert Paint(s.color, {}) == s.color;
  }

  lemma PaintedSets(h: Heap, s: Tally, t: Tally, order: seq<Visit>)
    requires Painted(h, s, t, order)
    ensures BlueIds(t.color) == BlueIds(s.color) + Ids(order)
    ensures Legal(h, t.color)
  {
    PaintedBlue(h, s.color, order);
  }

  lemma PaintedThen(h: Heap, s: Tally, t: Tally, u: Tally, a: seq<Visit>, b: seq<Visit>)
    requires Painted(h, s, t, a) && Painted(h, t, u, b)
    ensures Painted(h, s, u, a + b)
    ensures BlueIds(t.color) == BlueIds(s.color) + Ids(a)
  {
    PaintMore(h, s.color, a, b);
    PaintedBlue(h, s.color, a);
    WordsConcat(h, a, b);
    Assoc(s.written, ColorsOf(h, s.color, a), ColorsOf(h, t.color, b));
  }

  /** What the restoring walk changes. */
  datatype Recall = Recall(color: Colors, read: seq<Color>)

  /** From s to t exactly the blocks of `order` got their original colours, each read once. */
  ghost predicate Restored(h: Heap, original: Colors, s: Recall, t: Recall, order: seq<Visit>) {
    && Legal(h, s.color)
    && Colored(h, original, order)
    && t.color == Repaint(s.color, original, Ids(order))
    && t.read == s.read + ColorsOf(h, original, order)
  }

  /** The colours of `order` are the next ones in what was written. */
  ghost predicate Next(h: Heap, original: Colors, read: seq<Color>, written: seq<Color>, order: seq<Visit>) {
    Colored(h, original, order) && read + ColorsOf(h, original, order) <= written
  }

  lemma ColoredParts(h: Heap, c: Colors, a: seq<Visit>, b: seq<Visit>, rest: seq<Visit>, all: seq<Visit>)
    requires Colored(h, c, all) && a + b <= all && rest == all[|a| + |b|..]
    ensures Colored(h, c, a) && Colored(h, c, b) && Colored(h, c, rest) && Colored(h, c, a + b)
    ensures all == a + b + rest
  {
    assert all[..|a + b|] == a + b;
    assert forall i :: 0 <= i < |a| ==> a[i] == all[i];
    assert forall i :: 0 <= i < |b| ==> b[i] == all[|a| + i];
  }

  lemma NextSplit(h: Heap, original: Colors, read: seq<Color>, written: seq<Color>,
                  a: seq<Visit>, b: seq<Visit>, all: seq<Visit>)
    requires a + b <= all && Next(h, original, read, written, all)
    ensures Next(h, original, read, written, a)
    ensures Next(h, original, read + ColorsOf(h, original, a), written, b)
  {
    hide ColorsOf, Colored;
    var rest := all[|a| + |b|..];
    ColoredParts(h, original, a, b, rest, all);
    ColorsOfConcat(h, original, a, b);
    ColorsOfConcat(h, original, a + b, rest);
    var ca, cb := ColorsOf(h, original, a), ColorsOf(h, original, b);
    Assoc(read, ca + cb, ColorsOf(h, original, rest));
    Assoc(read, ca, cb);
  }

  lemma RestoredNothing(h: Heap, original: Colors, s: Recall)
    requires Legal(h, s.color) && Legal(h, original)
    ensures Restored(h, original, s, s, [])
  {
    assert s.read + [] == s.read;
    assert Repaint(s.color, original, {}) == s.color;
  }

  lemma RestoredThen(h: Heap, original: Colors, s: Recall, t: Recall, u: Recall, a: seq<Visit>, b: seq<Visit>)
    requires Restored(h, original, s, t, a) && Restored(h, original, t, u, b)
    ensures Restored(h, original, s, u, a + b)
    ensures OtherIds(t.color) == OtherIds(s.color) + Ids(a)
  {
    RestoredOthers(h, original, s, t, a);
    ConcatIds(a, b);
    ColorsOfConcat(h, original, a, b);
    Assoc(s.read, ColorsOf(h, original, a), ColorsOf(h, original, b));
    RepaintMore(s.color, original, Ids(a), Ids(b));
  }

  lemma ColorsOfConcat(h: Heap, c: Colors, a: seq<Visit>, b: seq<Visit>)
    requires Colored(h, c, a) && Colored(h, c, b)
    ensures Colored(h, c, a + b)
    ensures ColorsOf(h, c, a + b) == ColorsOf(h, c, a) + ColorsOf(h, c, b)
  {
  }

  lemma RepaintMore(c: Colors, original: Colors, s: set<Id>, t: set<Id>)
    requires c.Keys <= original.Keys
    ensures Repaint(Repaint(c, original, s), original, t) == Repaint(c, original, s + t)
  {
  }

  lemma RestoredOthers(h: Heap, original: Colors, s: Recall, t: Recall, a: seq<Visit>)
    requires Restored(h, original, s, t, a)
    ensures OtherIds(t.color) == OtherIds(s.color) + Ids(a)
    ensures Legal(h, t.color)
  {
  }

  // ----- the walk -----

  class Walker {
    const heap: Heap
    const stream: ColorStream.Stream
    var color: Colors
    var accHdrs: nat
    var accData: nat
    var accDepth: nat

    constructor (heap: Heap, color: Colors)
      ensures this.heap == heap && this.color == color
      ensures fresh(stream) && stream.colors == null
    {
      this.heap, this.color := heap, color;
      stream := new ColorStream.Stream();
      accHdrs, accData, accDepth := 0, 0, 0;
    }

    ghost function Now(): Tally
      reads this, stream
    {
      Tally(color, stream.written, accHdrs, accData, accDepth)
    }

    /** Ready to paint: the colours are legal and the stream is being written. */
    ghost predicate Painting()
      reads this, stream, stream.colors
    {
      Legal(heap, color) && stream.Writing()
    }

    /**
     Visits everything reachable from v0 through blocks not yet blue.  The last field of a block
     is followed by going round the loop (the source's `goto rec_enter`), the others by recursion.
     */
    method RecObjsize(v0: Id, depth0: nat) returns (ghost order: seq<Visit>)
      requires Painting() && v0 in heap && color[v0] != BLUE
      modifies this, stream, stream.colors
      ensures Painting() && (stream.colors == old(stream.colors) || fresh(stream.colors))
      ensures order == Dfs(heap, [Visit(v0, depth0)], BlueIds(old(color)))
      ensures Painted(heap, old(Now()), Now(), order)
      decreases heap.Keys - BlueIds(color), 1
    {
      hide ColorStream.Stream.Store, ColorStream.Stream.Writing, Dfs, ColorsOf, Words, MaxDepth, Paint, Painted;
      var v, depth := v0, depth0;
      ghost var start, goal := Now(), Dfs(heap, [Visit(v0, depth0)], BlueIds(color));
      order := [];
      PaintedNothing(heap, start);
      while true
        invariant Painting() && v in heap && color[v] != BLUE
        invariant stream.colors == old(stream.colors) || fresh(stream.colors)
        invariant Painted(heap, start, Now(), order)
        invariant goal == order + Dfs(heap, [Visit(v, depth)], BlueIds(color))
        invariant BlueIds(start.color) <= BlueIds(color)
        decreases heap.Keys - BlueIds(color)
      {
        ghost var before, here := Now(), Visit(v, depth);
        var last;
        ghost var walked;
        last, walked := EnterBlock(v, depth);
        PaintedThen(heap, start, before, Now(), order, walked);
        if last == VAL_UNIT || color[last.id] == BLUE {
          LastRound(heap, here, BlueIds(before.color), last, walked);
          order := order + walked;
          break;
        }
        ghost var sofar := order;
        order := order + walked;
        v, depth := last.id, depth + 1;
        NextRound(heap, here, Visit(v, depth), BlueIds(before.color), BlueIds(color), last, sofar, walked, goal);
      }
    }

    /** One round: count the block, record its colour, paint it, and walk all fields but the last. */
    method EnterBlock(v: Id, depth: nat) returns (last: Value, ghost order: seq<Visit>)
      requires Painting() && v in heap && color[v] != BLUE
      modifies this, stream, stream.colors
      ensures Painting() && (stream.colors == old(stream.colors) || fresh(stream.colors))
      ensures Painted(heap, old(Now()), Now(), order)
      ensures BlueIds(color) == BlueIds(old(color)) + Ids(order)
      ensures Entered(heap, Visit(v, depth), BlueIds(old(color)), last, order)
      decreases heap.Keys - BlueIds(color), 0
    {
      ghost var start, here := Now(), Visit(v, depth);
      PaintOne(v, depth);
      ghost var mid := Now();
      last, order := VAL_UNIT, [here];
      if heap[v].tag < NO_SCAN_TAG {
        ghost var walked;
        last, walked := WalkFields(v, depth, BlueIds(start.color));
        PaintedThen(heap, start, mid, Now(), [here], walked);
        order := [here] + walked;
      } else {
        EnteredUnscannable(heap, here, BlueIds(start.color));
      }
      PaintedBlue(heap, start.color, order);
    }

    method PaintOne(v: Id, depth: nat)
      requires Painting() && v in heap && color[v] != BLUE
      modifies this, stream, stream.colors
      ensures Painting() && (stream.colors == old(stream.colors) || fresh(stream.colors))
      ensures Painted(heap, old(Now()), Now(), [Visit(v, depth)])
      ensures BlueIds(color) == BlueIds(old(color)) + {v}
    {
      PaintedOne(heap, Now(), v, depth);
      var sz := |heap[v].fields|;
      accData := accData + sz;
      accHdrs := accHdrs + 1;
      if depth > accDepth {
        accDepth := depth;
      }
      var col := color[v];
      stream.WriteColor(col);
      color := color[v := BLUE];
    }

    /**
     The field loop of REC_WALK while entering: every block field but the last is walked when the
     next one is found; the last one is handed back.
     */
    method WalkFields(v: Id, depth: nat, ghost before: set<Id>) returns (prev: Value, ghost order: seq<Visit>)
      requires Painting() && v in heap && heap[v].tag < NO_SCAN_TAG
      requires v !in before && BlueIds(color) == before + {v}
      modifies this, stream, stream.colors
      ensures Painting() && (stream.colors == old(stream.colors) || fresh(stream.colors))
      ensures Painted(heap, old(Now()), Now(), order)
      ensures Entered(heap, Visit(v, depth), before, prev, [Visit(v, depth)] + order)
      decreases heap.Keys - BlueIds(color), 2
    {
      hide ColorStream.Stream.Store, ColorStream.Stream.Writing, Dfs, ColorsOf, Words, MaxDepth, Paint, Painted;
      ghost var start, seen := Now(), BlueIds(color);
      prev, order := VAL_UNIT, [];
      PaintedNothing(heap, start);
      var fields := heap[v].fields;
      for i := 0 to |fields|
        invariant Painting() && (stream.colors == old(stream.colors) || fresh(stream.colors))
        invariant Painted(heap, start, Now(), order)
        invariant Pending(heap, fields[..i], depth + 1, seen, prev, order)
      {
        var f := fields[i];
        if CondBlock(heap, f) {
          ghost var mid, walked := Now(), [];
          PaintedSets(heap, start, mid, order);
          if prev != VAL_UNIT && color[prev.id] != BLUE {
            walked := RecObjsize(prev.id, depth + 1);
          } else {
            PaintedNothing(heap, mid);
            if prev != VAL_UNIT {
              DfsOne(heap, Visit(prev.id, depth + 1), seen + Ids(order));
            }
          }
          PaintedThen(heap, start, mid, Now(), order, walked);
          NextField(heap, fields, i, depth + 1, seen, prev, order, walked);
          order := order + walked;
          prev := f;
        } else {
          NotABlock(heap, fields, i);
        }
      }
      EnteredScannable(heap, Visit(v, depth), before, seen, fields, prev, order);
    }

    // ----- the restoring walk -----

    ghost function Here(): Recall
      reads this, stream
    {
      Recall(color, stream.read)
    }

    ghost predicate Restoring()
      reads this, stream, stream.colors
    {
      Legal(heap, color) && stream.Reading()
    }

    /**
     Gives every block of the walk from v0 its colour back.  A block still to be visited is one
     that is blue, so what this walk regards as seen is the complement of blue.
     */
    method RestoreColors(v0: Id, ghost depth0: nat, ghost original: Colors) returns (ghost order: seq<Visit>)
      requires Restoring() && v0 in heap && color[v0] == BLUE
      requires Next(heap, original, stream.read, stream.written, Dfs(heap, [Visit(v0, depth0)], OtherIds(color)))
      modifies this`color, stream`readIndex, stream`prevColor, stream`repeatCount, stream`read, stream`done
      ensures Restoring()
      ensures order == Dfs(heap, [Visit(v0, depth0)], OtherIds(old(color)))
      ensures Restored(heap, original, old(Here()), Here(), order)
      decreases heap.Keys - OtherIds(color), 1
    {
      hide ColorStream.Stream.Store, ColorStream.Stream.Reading, Dfs, ColorsOf;
      var v := v0;
      ghost var depth := depth0;
      ghost var start, goal := Here(), Dfs(heap, [Visit(v0, depth0)], OtherIds(color));
      order := [];
      RestoredNothing(heap, original, start);
      while true
        invariant Restoring() && v in heap && color[v] == BLUE
        invariant Restored(heap, original, start, Here(), order)
        invariant goal == order + Dfs(heap, [Visit(v, depth)], OtherIds(color))
        invariant OtherIds(start.color) <= OtherIds(color)
        decreases heap.Keys - OtherIds(color)
      {
        ghost var before, here := Here(), Visit(v, depth);
        assert Next(heap, original, stream.read, stream.written, Dfs(heap, [here], OtherIds(color))) by {
          NextSplit(heap, original, start.read, stream.written, order, Dfs(heap, [here], OtherIds(color)), goal);
        }
        var last;
        ghost var walked;
        last, walked := RestoreBlock(v, depth, original);
        RestoredThen(heap, original, start, before, Here(), order, walked);
        if last == VAL_UNIT || color[last.id] != BLUE {
          LastRound(heap, here, OtherIds(before.color), last, walked);
          order := order + walked;
          break;
        }
        ghost var sofar := order;
        order := order + walked;
        v, depth := last.id, depth + 1;
        NextRound(heap, here, Visit(v, depth), OtherIds(before.color), OtherIds(color), last, sofar, walked, goal);
      }
    }

    method RestoreBlock(v: Id, ghost depth: nat, ghost original: Colors) returns (last: Value, ghost order: seq<Visit>)
      requires Restoring() && v in heap && color[v] == BLUE
      requires Next(heap, original, stream.read, stream.written, Dfs(heap, [Visit(v, depth)], OtherIds(color)))
      modifies this`color, stream`readIndex, stream`prevColor, stream`repeatCount, stream`read, stream`done
      ensures Restoring()
      ensures Restored(heap, original, old(Here()), Here(), order)
      ensures OtherIds(color) == OtherIds(old(color)) + Ids(order)
      ensures Entered(heap, Visit(v, depth), OtherIds(old(color)), last, order)
      decreases heap.Keys - OtherIds(color), 0
    {
      hide ColorStream.Stream.Store, ColorStream.Stream.Reading, Dfs, ColorsOf, Repaint;
      ghost var start, here, seen := Here(), Visit(v, depth), OtherIds(color);
      DfsOne(heap, here, seen);
      NextSplit(heap, original, stream.read, stream.written, [here],
                Dfs(heap, At(Kids(heap, v), depth + 1), seen + {v}), Dfs(heap, [here], seen));
      RestoreOne(v, depth, original);
      ghost var mid := Here();
      last, order := VAL_UNIT, [here];
      if heap[v].tag < NO_SCAN_TAG {
        ghost var walked;
        last, walked := RestoreFields(v, depth, original, seen);
        RestoredThen(heap, original, start, mid, Here(), [here], walked);
        order := [here] + walked;
      } else {
        EnteredUnscannable(heap, here, seen);
      }
      RestoredOthers(heap, original, start, Here(), order);
    }

    method RestoreOne(v: Id, ghost depth: nat, ghost original: Colors)
      requires Restoring() && v in heap && color[v] == BLUE
      requires Next(heap, original, stream.read, stream.written, [Visit(v, depth)])
      modifies this`color, stream`readIndex, stream`prevColor, stream`repeatCount, stream`read, stream`done
      ensures Restoring()
      ensures Restored(heap, original, old(Here()), Here(), [Visit(v, depth)])
      ensures OtherIds(color) == OtherIds(old(color)) + {v}
    {
      RestoredOne(heap, original, Here(), stream.written, v, depth);
      var col := stream.ReadColor();
      color := color[v := col];
    }

    /** The field loop of REC_WALK while restoring. */
    method RestoreFields(v: Id, ghost depth: nat, ghost original: Colors, ghost before: set<Id>)
      returns (prev: Value, ghost order: seq<Visit>)
      requires Restoring() && v in heap && heap[v].tag < NO_SCAN_TAG
      requires v !in before && OtherIds(color) == before + {v}
      requires Next(heap, original, stream.read, stream.written, Dfs(heap, At(Kids(heap, v), depth + 1), before + {v}))
      modifies this`color, stream`readIndex, stream`prevColor, stream`repeatCount, stream`read, stream`done
      ensures Restoring()
      ensures Restored(heap, original, old(Here()), Here(), order)
      ensures Entered(heap, Visit(v, depth), before, prev, [Visit(v, depth)] + order)
      decreases heap.Keys - OtherIds(color), 2
    {
      hide ColorStream.Stream.Store, ColorStream.Stream.Reading, Dfs, ColorsOf;
      ghost var start, seen := Here(), OtherIds(color);
      prev, order := VAL_UNIT, [];
      RestoredNothing(heap, original, start);
      var fields := heap[v].fields;
      for i := 0 to |fields|
        invariant Restoring()
        invariant Restored(heap, original, start, Here(), order)
        invariant Pending(heap, fields[..i], depth + 1, seen, prev, order)
      {
        var f := fields[i];
        if CondBlock(heap, f) {
          ghost var mid, walked := Here(), [];
          RestoredOthers(heap, original, start, mid, order);
          if prev != VAL_UNIT && color[prev.id] == BLUE {
            ghost var ahead := Dfs(heap, [Visit(prev.id, depth + 1)], seen + Ids(order));
            assert Next(heap, original, stream.read, stream.written, ahead) by {
              KidsAhead(heap, fields, i, depth + 1, seen, prev, order);
              NextSplit(heap, original, start.read, stream.written, order, ahead,
                        Dfs(heap, At(BlockFields(heap, fields), depth + 1), seen));
            }
            walked := RestoreColors(prev.id, depth + 1, original);
          } else {
            RestoredNothing(heap, original, mid);
            if prev != VAL_UNIT {
              DfsOne(heap, Visit(prev.id, depth + 1), seen + Ids(order));
            }
          }
          RestoredThen(heap, original, start, mid, Here(), order, walked);
          NextField(heap, fields, i, depth + 1, seen, prev, order, walked);
          order := order + walked;
          prev := f;
        } else {
          NotABlock(heap, fields, i);
        }
      }
      EnteredScannable(heap, Visit(v, depth), before, seen, fields, prev, order);
    }

    // ----- the whole measurement -----

    /** Records and paints the blocks of the exclusion list, each at its first occurrence. */
    method PaintList(scan: Value, ghost elems: seq<Id>)
      requires Painting() && ListOf(heap, scan, elems)
      modifies this`color, stream, stream.colors
      ensures Painting() && (stream.colors == old(stream.colors) || fresh(stream.colors))
      ensures Recorded(heap, old(color), old(stream.written), color, stream.written,
                       At(Firsts(elems, BlueIds(old(color))), 0))
    {
      hide ColorStream.Stream.Store, ColorStream.Stream.Writing, Firsts, ColorsOf;
      var head := scan;
      ghost var rest, vs, c0, w0 := elems, [], color, stream.written;
      RecordedNothing(heap, c0, w0);
      while CondBlock(heap, head)
        invariant Painting() && (stream.colors == old(stream.colors) || fresh(stream.colors))
        invariant ListOf(heap, head, rest)
        invariant Recorded(heap, c0, w0, color, stream.written, vs)
        invariant At(Firsts(elems, BlueIds(c0)), 0) == vs + At(Firsts(rest, BlueIds(color)), 0)
        decreases |rest|
      {
        var v := heap[head.id].fields[0];
        var col := color[v.id];
        head := heap[head.id].fields[1];
        FirstsStep(rest, BlueIds(color));
        rest := rest[1..];
        if col == BLUE {
          continue;
        }
        ghost var here, todo := [Visit(v.id, 0)], At(Firsts(rest, BlueIds(color) + {v.id}), 0);
        RecordOne(heap, c0, w0, color, stream.written, vs, v.id);
        Assoc(vs, here, todo);
        stream.WriteColor(col);
        color := color[v.id := BLUE];
        vs := vs + here;
      }
      FirstsOfNone(BlueIds(color));
      assert vs + [] == vs;
    }

    /** Gives the blocks of the exclusion list their colours back. */
    method RestoreList(scan: Value, ghost elems: seq<Id>, ghost original: Colors)
      requires Restoring() && ListOf(heap, scan, elems)
      requires Next(heap, original, stream.read, stream.written, At(Firsts(elems, OtherIds(color)), 0))
      modifies this`color, stream`readIndex, stream`prevColor, stream`repeatCount, stream`read, stream`done
      ensures Restoring()
      ensures Restored(heap, original, old(Here()), Here(), At(Firsts(elems, OtherIds(old(color))), 0))
    {
      hide ColorStream.Stream.Store, ColorStream.Stream.Reading, Firsts, ColorsOf;
      var head := scan;
      ghost var rest, vs, start := elems, [], Here();
      ghost var goal := At(Firsts(elems, OtherIds(color)), 0);
      RestoredNothing(heap, original, start);
      while CondBlock(heap, head)
        invariant Restoring() && ListOf(heap, head, rest)
        invariant Restored(heap, original, start, Here(), vs)
        invariant goal == vs + At(Firsts(rest, OtherIds(color)), 0)
        decreases |rest|
      {
        var v := heap[head.id].fields[0];
        head := heap[head.id].fields[1];
        FirstsStep(rest, OtherIds(color));
        rest := rest[1..];
        if color[v.id] != BLUE {
          continue;
        }
        ghost var here, todo, mid := [Visit(v.id, 0)], At(Firsts(rest, OtherIds(color) + {v.id}), 0), Here();
        Assoc(vs, here, todo);
        assert Next(heap, original, stream.read, stream.written, here) by {
          NextSplit(heap, original, start.read, stream.written, vs, here, goal);
        }
        RestoreOne(v.id, 0, original);
        RestoredThen(heap, original, start, mid, Here(), vs, here);
        vs := vs + here;
      }
      FirstsOfNone(OtherIds(color));
      assert vs + [] == vs;
    }

    /** Is some element of the list still blue? */
    method AnyBlue(list: Value, ghost elems: seq<Id>) returns (reached: bool)
      requires ListOf(heap, list, elems) && Legal(heap, color)
      ensures reached <==> exists id :: id in elems && id in color && color[id] == BLUE
    {
      var reach := list;
      ghost var rest := elems;
      reached := false;
      while CondBlock(heap, reach)
        invariant ListOf(heap, reach, rest)
        invariant forall id :: id in elems && id in color && color[id] == BLUE ==> id in rest
        invariant forall id :: id in rest ==> id in elems
        invariant !reached
        decreases |rest|
      {
        var v := heap[reach.id].fields[0];
        if color[v.id] == BLUE {
          reached := true;
          assert rest[0] == v.id;
          break;
        }
        reach := heap[reach.id].fields[1];
        assert rest == [v.id] + rest[1..];
        rest := rest[1..];
      }
    }

    /**
     c_objsize.  `scanned` and `sought` are the elements of the exclusion list and of the list of
     blocks to look for.  Every block has its colour back, the stream is empty again, and the
     results are those of the blocks that v reaches without entering an excluded one.
     */
    method CObjsize(v: Value, scan: Value, reach: Value, ghost scanned: seq<Id>, ghost sought: seq<Id>)
      returns (reached: bool, headers: nat, data: nat, depth: nat)
      requires stream.colors == null
      requires Legal(heap, color) && forall id :: id in color ==> color[id] != BLUE
      requires ListOf(heap, scan, scanned) && ListOf(heap, reach, sought)
      modifies this, stream
      ensures color == old(color) && stream.colors == null
      ensures var measured := Measured(heap, v, set id | id in scanned);
        && headers == |measured|
        && data == SetWords(heap, measured)
        && (reached <==> exists id :: id in sought && id in measured)
      ensures depth == MaxDepth(WalkOrder(heap, v, set id | id in scanned))
    {
      hide ColorStream.Stream.Store, ColorStream.Stream.Flushed,
           ListOf, Colored, ColorsOf, Firsts, Dfs, WalkOrder, Measured;
      ghost var original, avoid := color, set id | id in scanned;
      WalkMeasures(heap, v, avoid);
      MeasureInto(v, scan, scanned);
      headers, data, depth := accHdrs, accData, accDepth;
      reached := PutBack(v, scan, reach, scanned, sought, original);
    }

    /** The first half of c_objsize: up to rle_write_flush. */
    method MeasureInto(v: Value, scan: Value, ghost scanned: seq<Id>)
      requires stream.colors == null
      requires Unpainted(heap, color) && ListOf(heap, scan, scanned)
      modifies this, stream
      ensures stream.Flushed() && fresh(stream.colors)
      ensures var avoid := set id | id in scanned;
        var marked, order := At(Firsts(scanned, {}), 0), WalkOrder(heap, v, avoid);
        && Recorded(heap, old(color), [], color, stream.written, marked + order)
        && accHdrs == |order| && accData == Words(heap, order) && accDepth == MaxDepth(order)
    {
      hide ColorStream.Stream.Store, ColorStream.Stream.Writing, ColorStream.Stream.Flushed,
           Firsts, Dfs, ColorsOf, ListOf, WalkOrder, Colored, Paint;
      ghost var original, avoid := color, set id | id in scanned;
      ghost var marked, order := At(Firsts(scanned, {}), 0), WalkOrder(heap, v, avoid);
      ListInHeap(heap, scan, scanned);
      Marking(heap, original, scanned);
      stream.ColorsInit();
      stream.RleInitForWriting();
      PaintList(scan, scanned);
      accData := 0;
      accHdrs := 0;
      accDepth := 0;
      ghost var start := Now();
      WalkRoot(v, avoid);
      RecordedThen(heap, original, [], start, Now(), marked, order);
      stream.RleWriteFlush();
    }

    method WalkRoot(v: Value, ghost avoid: set<Id>)
      requires Painting() && BlueIds(color) == avoid
      modifies this, stream, stream.colors
      ensures Painting() && (stream.colors == old(stream.colors) || fresh(stream.colors))
      ensures Painted(heap, old(Now()), Now(), WalkOrder(heap, v, avoid))
    {
      hide ColorStream.Stream.Store, ColorStream.Stream.Writing, Dfs, ColorsOf, WalkOrder, Colored;
      RootCases(heap, v, avoid);
      if CondBlock(heap, v) && color[v.id] != BLUE {
        ghost var walked := RecObjsize(v.id, 0);
      } else {
        PaintedNothing(heap, Now());
      }
    }

    /** The second half: colours restored, list first, with the search in between. */
    method PutBack(v: Value, scan: Value, reach: Value, ghost scanned: seq<Id>, ghost sought: seq<Id>,
                   ghost original: Colors) returns (reached: bool)
      requires stream.Flushed()
      requires Unpainted(heap, original) && ListOf(heap, scan, scanned) && ListOf(heap, reach, sought)
      requires var marked, order := At(Firsts(scanned, {}), 0), WalkOrder(heap, v, set id | id in scanned);
        Recorded(heap, original, [], color, stream.written, marked + order)
      modifies this`color, stream
      ensures color == original && stream.colors == null
      ensures reached <==> exists id :: id in sought && id in Ids(WalkOrder(heap, v, set id | id in scanned))
    {
      hide ColorStream.Stream.Store, ColorStream.Stream.Flushed, ColorStream.Stream.Reading,
           Firsts, Dfs, ColorsOf, ListOf, WalkOrder, Colored, Paint, Repaint;
      ghost var avoid := set id | id in scanned;
      ghost var marked, order := At(Firsts(scanned, {}), 0), WalkOrder(heap, v, avoid);
      ListInHeap(heap, scan, scanned);
      Marking(heap, original, scanned);
      stream.RleInitForReading();
      PaintedBlue(heap, original, marked + order);
      NextSplit(heap, original, [], stream.written, marked, order, marked + order);
      Unmarking(heap, original, scanned, order);
      RestoreList(scan, scanned, original);
      ConcatIds(marked, order);
      Unwalking(heap, original, v, avoid);
      reached := AnyBlue(reach, sought);
      if CondBlock(heap, v) && color[v.id] == BLUE {
        ghost var walked := RestoreColors(v.id, 0, original);
      } else {
        RestoredNothing(heap, original, Here());
      }
      stream.RleReadFlush();
      stream.ColorsDeinit();
    }
  }

  // ----- recording without counting -----

  /** Exactly the blocks of `vs` were painted and their colours written. */
  ghost predicate Recorded(h: Heap, c: Colors, w: seq<Color>, c': Colors, w': seq<Color>, vs: seq<Visit>) {
    && Colored(h, c, vs)
    && c' == Paint(c, Ids(vs))
    && w' == w + ColorsOf(h, c, vs)
  }

  lemma RecordedNothing(h: Heap, c: Colors, w: seq<Color>)
    requires Legal(h, c)
    ensures Recorded(h, c, w, c, w, [])
  {
    assert w + [] == w;
    assert Paint(c, {}) == c;
  }

  lemma RecordOne(h: Heap, c0: Colors, w0: seq<Color>, c: Colors, w: seq<Color>, vs: seq<Visit>, id: Id)
    requires Recorded(h, c0, w0, c, w, vs)
    requires Legal(h, c) && id in h && c[id] != BLUE
    ensures Recorded(h, c0, w0, c[id := BLUE], w + [c[id]], vs + [Visit(id, 0)])
    ensures BlueIds(c[id := BLUE]) == BlueIds(c) + {id}
  {
    hide ColorsOf, Colored;
    var here := [Visit(id, 0)];
    JustOne(h, c, Visit(id, 0));
    PaintMore(h, c0, vs, here);
    Assoc(w0, ColorsOf(h, c0, vs), [c[id]]);
  }

  lemma RecordedThen(h: Heap, c: Colors, w: seq<Color>, s: Tally, t: Tally, a: seq<Visit>, b: seq<Visit>)
    requires Recorded(h, c, w, s.color, s.written, a) && Painted(h, s, t, b)
    ensures Recorded(h, c, w, t.color, t.written, a + b)
  {
    PaintMore(h, c, a, b);
    Assoc(w, ColorsOf(h, c, a), ColorsOf(h, s.color, b));
  }

  lemma JustOne(h: Heap, c: Colors, v: Visit)
    requires Legal(h, c) && v.id in h && c[v.id] != BLUE
    ensures Colored(h, c, [v]) && ColorsOf(h, c, [v]) == [c[v.id]]
    ensures Paint(c, Ids([v])) == c[v.id := BLUE]
    ensures BlueIds(c[v.id := BLUE]) == BlueIds(c) + {v.id}
  {
    assert [v][..0] == [];
    assert Ids([v]) == {v.id};
  }

  lemma FirstsStep(ids: seq<Id>, seen: set<Id>)
    requires ids != []
    ensures At(Firsts(ids, seen), 0) ==
      if ids[0] in seen then At(Firsts(ids[1..], seen), 0)
      else [Visit(ids[0], 0)] + At(Firsts(ids[1..], seen + {ids[0]}), 0)
  {
  }

  lemma FirstsOfNone(seen: set<Id>)
    ensures At(Firsts([], seen), 0) == []
  {
  }

  lemma PaintedOne(h: Heap, s: Tally, v: Id, depth: nat)
    requires Legal(h, s.color) && v in h && s.color[v] != BLUE
    ensures Painted(h, s,
      Tally(s.color[v := BLUE], s.written + [s.color[v]], s.hdrs + 1, s.data + |h[v].fields|, Max(s.depth, depth)),
      [Visit(v, depth)])
    ensures BlueIds(s.color[v := BLUE]) == BlueIds(s.color) + {v}
  {
    var vs := [Visit(v, depth)];
    assert vs[..0] == [];
    assert Ids(vs) == {v};
    assert ColorsOf(h, s.color, vs) == [s.color[v]];
    assert Paint(s.color, {v}) == s.color[v := BLUE];
  }

  // ----- one block's fields -----

  /** All but the last of the block fields have been walked, in `order`; the last is `prev`. */
  ghost predicate Pending(h: Heap, fields: seq<Value>, depth: nat, seen: set<Id>, prev: Value, order: seq<Visit>) {
    var kids := BlockFields(h, fields);
    if kids == [] then prev == VAL_UNIT && order == []
    else prev == Ptr(Last(kids)) && order == Dfs(h, At(Front(kids), depth), seen)
  }

  /** The block `here` and all its block fields but the last have been walked; that one is `last`. */
  ghost predicate Entered(h: Heap, here: Visit, seen: set<Id>, last: Value, order: seq<Visit>) {
    && here.id in h
    && (last == VAL_UNIT || (last.Ptr? && last.id in h))
    && Dfs(h, [here], seen) == order + LastWalk(h, last, here.depth + 1, seen + Ids(order))
    && here.id in Ids(order)
  }

  ghost function LastWalk(h: Heap, last: Value, depth: nat, seen: set<Id>): seq<Visit>
    requires last == VAL_UNIT || (last.Ptr? && last.id in h)
  {
    if last == VAL_UNIT then [] else Dfs(h, [Visit(last.id, depth)], seen)
  }

  lemma NotABlock(h: Heap, fields: seq<Value>, i: nat)
    requires i < |fields| && !CondBlock(h, fields[i])
    ensures BlockFields(h, fields[..i + 1]) == BlockFields(h, fields[..i])
  {
    assert fields[..i + 1][..i] == fields[..i];
  }

  lemma NextField(h: Heap, fields: seq<Value>, i: nat, depth: nat, seen: set<Id>,
                  prev: Value, order: seq<Visit>, walked: seq<Visit>)
    requires i < |fields| && CondBlock(h, fields[i])
    requires Pending(h, fields[..i], depth, seen, prev, order)
    requires walked == LastWalk(h, prev, depth, seen + Ids(order))
    ensures Pending(h, fields[..i + 1], depth, seen, fields[i], order + walked)
  {
    hide Dfs, At;
    var kids := BlockFields(h, fields[..i]);
    ABlock(h, fields, i);
    assert Front(kids + [fields[i].id]) == kids;
    if kids != [] {
      LastOf(kids);
      DfsSnoc(h, Front(kids), Last(kids), depth, seen);
    } else {
      DfsNone(h, depth, seen);
    }
  }

  lemma ABlock(h: Heap, fields: seq<Value>, i: nat)
    requires i < |fields| && CondBlock(h, fields[i])
    ensures BlockFields(h, fields[..i + 1]) == BlockFields(h, fields[..i]) + [fields[i].id]
  {
    assert fields[..i + 1][..i] == fields[..i];
  }

  lemma DfsNone(h: Heap, depth: nat, seen: set<Id>)
    ensures Dfs(h, At([], depth), seen) == []
  {
  }

  lemma RestoredOne(h: Heap, original: Colors, s: Recall, written: seq<Color>, v: Id, depth: nat)
    requires Legal(h, s.color) && v in h && s.color[v] == BLUE
    requires s.read <= written && Next(h, original, s.read, written, [Visit(v, depth)])
    ensures |s.read| < |written| && written[|s.read|] == original[v]
    ensures Restored(h, original, s, Recall(s.color[v := original[v]], s.read + [original[v]]), [Visit(v, depth)])
    ensures OtherIds(s.color[v := original[v]]) == OtherIds(s.color) + {v}
  {
    var vs := [Visit(v, depth)];
    assert vs[0].id in h && original[vs[0].id] != BLUE;
    assert Ids(vs) == {v};
    assert ColorsOf(h, original, vs) == [original[v]];
    assert (s.read + [original[v]])[|s.read|] == original[v];
    assert Repaint(s.color, original, {v}) == s.color[v := original[v]];
  }

  lemma {:induction false} BlockFieldsSplit(h: Heap, fields: seq<Value>, i: nat)
    requires i <= |fields|
    ensures BlockFields(h, fields) == BlockFields(h, fields[..i]) + BlockFields(h, fields[i..])
    decreases |fields|
  {
    if i == |fields| {
      assert fields[..i] == fields && fields[i..] == [];
      assert BlockFields(h, fields) + [] == BlockFields(h, fields);
    } else {
      var init, f := Front(fields), Last(fields);
      var last := if CondBlock(h, f) then [f.id] else [];
      BlockFieldsSplit(h, init, i);
      assert init[..i] == fields[..i];
      assert Front(fields[i..]) == init[i..];
      calc {
        BlockFields(h, fields);
        BlockFields(h, init) + last;
        (BlockFields(h, fields[..i]) + BlockFields(h, init[i..])) + last;
        { Assoc(BlockFields(h, fields[..i]), BlockFields(h, init[i..]), last); }
        BlockFields(h, fields[..i]) + BlockFields(h, fields[i..]);
      }
    }
  }

  /** The pending block comes next in the walk of all the fields. */
  lemma KidsAhead(h: Heap, fields: seq<Value>, i: nat, depth: nat, seen: set<Id>, prev: Value, order: seq<Visit>)
    requires i <= |fields| && Pending(h, fields[..i], depth, seen, prev, order) && prev != VAL_UNIT
    ensures prev.Ptr? && prev.id in h
    ensures order + Dfs(h, [Visit(prev.id, depth)], seen + Ids(order))
         <= Dfs(h, At(BlockFields(h, fields), depth), seen)
  {
    BlockFieldsSplit(h, fields, i);
    DfsOfPrefix(h, BlockFields(h, fields[..i]), BlockFields(h, fields[i..]), depth, seen);
    LastOf(BlockFields(h, fields[..i]));
    DfsSnoc(h, Front(BlockFields(h, fields[..i])), prev.id, depth, seen);
  }

  lemma LastOf<T>(s: seq<T>)
    requires s != []
    ensures s == Front(s) + [Last(s)]
  {
  }

  lemma DfsOfPrefix(h: Heap, ids: seq<Id>, more: seq<Id>, depth: nat, seen: set<Id>)
    requires forall i :: i in ids ==> i in h
    requires forall i :: i in more ==> i in h
    ensures Dfs(h, At(ids, depth), seen) <= Dfs(h, At(ids + more, depth), seen)
  {
    assert At(ids + more, depth) == At(ids, depth) + At(more, depth);
    DfsAppend(h, At(ids, depth), At(more, depth), seen);
  }

  lemma LastRound(h: Heap, here: Visit, seen: set<Id>, last: Value, order: seq<Visit>)
    requires Entered(h, here, seen, last, order)
    requires last == VAL_UNIT || last.id in seen + Ids(order)
    ensures Dfs(h, [here], seen) == order
  {
    if last != VAL_UNIT {
      DfsOne(h, Visit(last.id, here.depth + 1), seen + Ids(order));
    }
    assert order + [] == order;
  }

  lemma NextRound(h: Heap, here: Visit, next: Visit, seen: set<Id>, seen': set<Id>, last: Value,
                  order: seq<Visit>, walked: seq<Visit>, goal: seq<Visit>)
    requires Entered(h, here, seen, last, walked)
    requires last != VAL_UNIT && next == Visit(last.id, here.depth + 1)
    requires seen' == seen + Ids(walked)
    requires goal == order + Dfs(h, [here], seen)
    ensures goal == (order + walked) + Dfs(h, [next], seen')
  {
    Assoc(order, walked, Dfs(h, [next], seen'));
  }

  lemma EnteredUnscannable(h: Heap, here: Visit, seen: set<Id>)
    requires here.id in h && here.id !in seen && h[here.id].tag >= NO_SCAN_TAG
    ensures Entered(h, here, seen, VAL_UNIT, [here])
  {
    DfsOne(h, here, seen);
    assert [here] + [] == [here];
    assert here in [here];
  }

  lemma EnteredScannable(h: Heap, here: Visit, seen: set<Id>, seen': set<Id>,
                        fields: seq<Value>, last: Value, walked: seq<Visit>)
    requires here.id in h && here.id !in seen && fields == h[here.id].fields && h[here.id].tag < NO_SCAN_TAG
    requires seen' == seen + {here.id}
    requires Pending(h, fields[..|fields|], here.depth + 1, seen', last, walked)
    ensures Entered(h, here, seen, last, [here] + walked)
  {
    hide Dfs, At, BlockFields, Ids;
    assert fields[..|fields|] == fields;
    var kids, d := BlockFields(h, fields), here.depth + 1;
    DfsOne(h, here, seen);
    ConsIds(here, walked);
    if kids == [] {
      DfsNone(h, d, seen');
      assert [here] + [] + [] == [here];
    } else {
      assert kids == Front(kids) + [Last(kids)];
      DfsSnoc(h, Front(kids), Last(kids), d, seen');
      assert seen' + Ids(walked) == seen + Ids([here] + walked);
      Assoc([here], walked, Dfs(h, [Visit(last.id, d)], seen' + Ids(walked)));
    }
  }

  // ----- the measurement, on values -----

  /** The blocks that v reaches through scannable blocks without entering an excluded one. */
  ghost function Measured(h: Heap, v: Value, avoid: set<Id>): set<Id> {
    if CondBlock(h, v) then set id | id in h && Reachable(h, avoid, v.id, id) else {}
  }

  ghost function WalkOrder(h: Heap, v: Value, avoid: set<Id>): (order: seq<Visit>)
    ensures InHeap(h, order)
  {
    if CondBlock(h, v) then
      DfsVisitsOnce(h, [Visit(v.id, 0)], avoid);
      Dfs(h, [Visit(v.id, 0)], avoid)
    else []
  }

  lemma WalkMeasures(h: Heap, v: Value, avoid: set<Id>)
    ensures var order, measured := WalkOrder(h, v, avoid), Measured(h, v, avoid);
      && Distinct(order) && Ids(order) == measured && measured !! avoid && measured <= h.Keys
      && |order| == |measured| && Words(h, order) == SetWords(h, measured)
    ensures CondBlock(h, v) && v.id !in avoid ==> v.id in Measured(h, v, avoid)
  {
    var order := WalkOrder(h, v, avoid);
    if CondBlock(h, v) {
      DfsVisitsOnce(h, [Visit(v.id, 0)], avoid);
      if v.id in avoid {
        DfsOne(h, Visit(v.id, 0), avoid);
        forall id
          ensures !Reachable(h, avoid, v.id, id)
        {
        }
      } else {
        DfsIsReachability(h, v.id, avoid);
        assert PathTo(h, avoid, [v.id], v.id, v.id);
      }
      assert Ids(order) == Measured(h, v, avoid);
    }
    CountedOnce(h, order);
  }

  /** s contains v, and what its blocks below tag 251 point to: of both what is in the heap and not excluded. */
  ghost predicate HoldsGraph(h: Heap, v: Value, avoid: set<Id>, s: set<Id>) {
    && (v.Ptr? && v.id in h && v.id !in avoid ==> v.id in s)
    && forall id, k ::
         id in s && id in h && h[id].tag < 251 && Ptr(k) in h[id].fields && k in h && k !in avoid ==> k in s
  }

  lemma GraphClosed(h: Heap, avoid: set<Id>, s: set<Id>)
    requires ClosedIn(h, s, avoid + s)
    ensures forall id, k ::
      id in s && id in h && h[id].tag < 251 && Ptr(k) in h[id].fields && k in h && k !in avoid ==> k in s
  {
    hide Kids;
    forall id, k | id in s && id in h && h[id].tag < 251 && Ptr(k) in h[id].fields && k in h && k !in avoid
      ensures k in s
    {
      KidsAre(h, id, k);
      assert k in avoid + s;
    }
  }

  lemma GraphCloses(h: Heap, v: Value, avoid: set<Id>, s: set<Id>)
    requires HoldsGraph(h, v, avoid, s)
    ensures ClosedIn(h, s, avoid + s)
  {
    hide Kids;
    forall id, k | id in s && id in h && k in Kids(h, id)
      ensures k in avoid + s
    {
      KidsAre(h, id, k);
    }
  }

  /** What is measured is the least such set: the root, blocks of every kind, and nothing else. */
  lemma MeasuredIsLeast(h: Heap, v: Value, avoid: set<Id>)
    ensures var m := Measured(h, v, avoid);
      && m <= h.Keys && m !! avoid
      && (v.Ptr? && v.id in h && v.id !in avoid ==> v.id in m)
      && (forall id, k ::
            id in m && h[id].tag < 251 && Ptr(k) in h[id].fields && k in h && k !in avoid ==> k in m)
      && forall s: set<Id> :: HoldsGraph(h, v, avoid, s) ==> m <= s
  {
    hide Kids, Measured, ClosedIn;
    var m := Measured(h, v, avoid);
    WalkMeasures(h, v, avoid);
    MeasuredCloses(h, v, avoid);
    GraphClosed(h, avoid, m);
    forall s: set<Id> | HoldsGraph(h, v, avoid, s)
      ensures m <= s
    {
      MeasuredInside(h, v, avoid, s);
    }
  }

  lemma MeasuredCloses(h: Heap, v: Value, avoid: set<Id>)
    ensures var m := Measured(h, v, avoid); ClosedIn(h, m, avoid + m)
  {
    hide Kids, Measured, Dfs;
    WalkMeasures(h, v, avoid);
    RootCases(h, v, avoid);
    if CondBlock(h, v) && v.id !in avoid {
      DfsClosed(h, [Visit(v.id, 0)], avoid);
    }
  }

  lemma MeasuredInside(h: Heap, v: Value, avoid: set<Id>, s: set<Id>)
    requires HoldsGraph(h, v, avoid, s)
    ensures Measured(h, v, avoid) <= s
  {
    hide Kids, ClosedIn, Path;
    GraphCloses(h, v, avoid, s);
    forall id | id in Measured(h, v, avoid)
      ensures id in s
    {
      var p :| PathTo(h, avoid, p, v.id, id);
      PathEnds(h, avoid, p);
      PathStaysInside(h, avoid, p, s);
    }
  }

  lemma PathEnds(h: Heap, avoid: set<Id>, p: seq<Id>)
    requires Path(h, avoid, p)
    ensures p != [] && p[0] in h && p[0] !in avoid
  {
  }

  /** What is added up, and what nothing amounts to. */
  lemma Amounts(h: Heap, s: set<Id>)
    requires s <= h.Keys
    ensures SetWords(h, {}) == 0 && MaxDepth([]) == 0
    ensures forall id :: id in s ==> SetWords(h, s) == |h[id].fields| + SetWords(h, s - {id})
  {
    forall id | id in s
      ensures SetWords(h, s) == |h[id].fields| + SetWords(h, s - {id})
    {
      SetWordsRemove(h, s, id);
    }
  }

  lemma {:induction false} ListInHeap(h: Heap, list: Value, elems: seq<Id>)
    requires ListOf(h, list, elems)
    ensures forall id :: id in elems ==> id in h
    decreases elems
  {
    if elems != [] {
      ListInHeap(h, h[list.id].fields[1], elems[1..]);
      assert elems == [elems[0]] + elems[1..];
    }
  }

  ghost predicate Unpainted(h: Heap, c: Colors) {
    Legal(h, c) && forall id :: id in c ==> c[id] != BLUE
  }

  /** Painting the exclusion list paints its elements, all of them and nothing else. */
  lemma Marking(h: Heap, c: Colors, scanned: seq<Id>)
    requires Unpainted(h, c) && forall id :: id in scanned ==> id in h
    ensures BlueIds(c) == {}
    ensures var marked, avoid := At(Firsts(scanned, {}), 0), set id | id in scanned;
      && Ids(marked) == avoid
      && Colored(h, c, marked)
      && BlueIds(Paint(c, avoid)) == avoid
  {
    FirstsAreAll(scanned, {});
    AtIds(Firsts(scanned, {}), 0);
  }

  /** With the list and the walk painted, the list is restored in the order it was recorded. */
  lemma Unmarking(h: Heap, c: Colors, scanned: seq<Id>, order: seq<Visit>)
    requires Unpainted(h, c) && forall id :: id in scanned ==> id in h
    requires Ids(order) <= h.Keys
    ensures var marked := At(Firsts(scanned, {}), 0);
      At(Firsts(scanned, OtherIds(Paint(c, Ids(marked + order)))), 0) == marked
  {
    var firsts := Firsts(scanned, {});
    FirstsAreAll(scanned, {});
    AtIds(firsts, 0);
    ConcatIds(At(firsts, 0), order);
    FirstsLockstep(scanned, {}, OtherIds(Paint(c, Ids(At(firsts, 0) + order))));
  }

  lemma RootCases(h: Heap, v: Value, avoid: set<Id>)
    ensures CondBlock(h, v) && v.id !in avoid ==> WalkOrder(h, v, avoid) == Dfs(h, [Visit(v.id, 0)], avoid)
    ensures !CondBlock(h, v) || v.id in avoid ==> WalkOrder(h, v, avoid) == []
  {
    if CondBlock(h, v) {
      DfsOne(h, Visit(v.id, 0), avoid);
    }
  }

  /**
   With the list restored, blue is exactly what was walked, the restoring walk goes the same
   way, and after it every colour is the original one.
   */
  lemma Unwalking(h: Heap, c: Colors, v: Value, avoid: set<Id>)
    requires Unpainted(h, c) && avoid <= h.Keys
    ensures var order := WalkOrder(h, v, avoid);
      var c' := Repaint(Paint(c, avoid + Ids(order)), c, avoid);
      && BlueIds(c') == Ids(order)
      && (CondBlock(h, v) && v.id in Ids(order) ==> Dfs(h, [Visit(v.id, 0)], OtherIds(c')) == order)
      && (!CondBlock(h, v) || v.id !in Ids(order) ==> order == [])
      && Repaint(c', c, Ids(order)) == c
  {
    hide WalkOrder, Measured, Dfs;
    WalkMeasures(h, v, avoid);
    RootCases(h, v, avoid);
    Halfway(h, c, avoid, Ids(WalkOrder(h, v, avoid)));
    if CondBlock(h, v) && v.id !in avoid {
      DfsLockstep(h, [Visit(v.id, 0)], avoid, h.Keys - Ids(WalkOrder(h, v, avoid)));
    }
  }

  lemma Halfway(h: Heap, c: Colors, avoid: set<Id>, walked: set<Id>)
    requires Unpainted(h, c) && avoid <= h.Keys && walked <= h.Keys && avoid !! walked
    ensures var c' := Repaint(Paint(c, avoid + walked), c, avoid);
      && BlueIds(c') == walked
      && OtherIds(c') == h.Keys - walked
      && Repaint(c', c, walked) == c
  {
  }
}
