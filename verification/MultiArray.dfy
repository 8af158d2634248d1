/**
 The big dynamic array (libs/extlib-leftovers/multiArray.ml): one flat block, or chunks of 1024
 once the flat block would outgrow Sys.max_array_length, which is a parameter here.
 */
module MultiArray {

  datatype Result<T> = Ok(value: T) | InvalidArg(n: int)

  const SIZE := 1024

  function Fold<A, T>(f: (A, T) -> A, acc: A, s: seq<T>): A {
    if s == [] then acc else f(Fold(f, acc, s[..|s| - 1]), s[|s| - 1])
  }

  function Mapped<T, U>(f: T -> U, s: seq<T>): (r: seq<U>)
    ensures |r| == |s| && forall i :: 0 <= i < |s| ==> r[i] == f(s[i])
  {
    seq(|s|, i requires 0 <= i < |s| => f(s[i]))
  }

  /** How many cells the filling loops write: all of each chunk but the last, and there n land mask. */
  function Written(n: nat, count: nat): int {
    (count - 1) * SIZE + n % SIZE
  }

  /** The cells of chunk i after filling. */
  function Block<T>(s: seq<T>, count: nat, filler: T, i: nat): (b: seq<T>)
    requires i < count && Written(|s|, count) <= |s|
    ensures |b| == SIZE
  {
    var part := s[i * SIZE..i * SIZE + (if i == count - 1 then |s| % SIZE else SIZE)];
    part + seq(SIZE - |part|, _ => filler)
  }

  /** All cells after filling. */
  function Filled<T>(s: seq<T>, count: nat, filler: T): (b: seq<T>)
    requires 0 <= Written(|s|, count) <= |s|
    ensures |b| == count * SIZE
  {
    s[..Written(|s|, count)] + seq(count * SIZE - Written(|s|, count), _ => filler)
  }

  lemma BlockOfFilled<T>(s: seq<T>, count: nat, filler: T, i: nat, j: nat)
    requires i < count && Written(|s|, count) <= |s| && j < SIZE
    ensures Block(s, count, filler, i)[j] == Filled(s, count, filler)[i * SIZE + j]
  {
  }

  /** What the loops over a whole array reach: not the last chunk when it is full. */
  function Reached<T>(s: seq<T>, flat: bool): (r: seq<T>)
    ensures r <= s
  {
    if flat || |s| % SIZE != 0 || s == [] then s else s[..|s| - SIZE]
  }

  lemma ReachedIsWritten<T>(s: seq<T>, count: nat)
    requires 0 < |s| && (count - 1) * SIZE < |s| <= count * SIZE
    ensures 0 <= Written(|s|, count) <= |s| && Reached(s, false) == s[..Written(|s|, count)]
  {
  }

  class MultiArray<T> {
    const maxArrayLength: nat
    const filler: T  // what a new block is filled with
    var arr: array<array?<T>>
    var len: nat
    var darr: array?<T>
    ghost var contents: seq<T>
    ghost var Repr: set<object>

    ghost predicate Flat()
      reads this, darr
    {
      darr != null && len <= darr.Length && darr[..len] == contents
    }

    ghost predicate Owned()
      reads this, arr
    {
      && this in Repr && arr in Repr && (darr != null ==> darr in Repr && darr != arr as object)
      && forall i :: 0 <= i < arr.Length && arr[i] != null ==> arr[i] in Repr
    }

    /** The chunks are blocks of their own, just enough of them. */
    ghost predicate Chunks()
      reads `arr, arr
    {
      && (forall i :: 0 <= i < arr.Length ==> arr[i] != null && arr[i].Length == SIZE && arr[i] != arr as object)
      && (forall i, j :: 0 <= i < j < arr.Length ==> arr[i] != arr[j])
    }

    ghost predicate Holds(ts: seq<T>)
      requires Chunks()
      reads `arr, arr, set i | 0 <= i < arr.Length :: arr[i]
    {
      && |ts| <= arr.Length * SIZE
      && forall i, j :: 0 <= i < arr.Length && 0 <= j < SIZE && i * SIZE + j < |ts| ==> arr[i][j] == ts[i * SIZE + j]
    }

    ghost predicate Chunked()
      reads this, arr, set i | 0 <= i < arr.Length :: arr[i]
    {
      && darr == null && 0 < len && (arr.Length - 1) * SIZE < len <= arr.Length * SIZE
      && Chunks() && Holds(contents)
    }

    ghost predicate Valid()
      reads this, Repr
    {
      && arr in Repr && Owned() && |contents| == len
      && (if darr != null then Flat() else Chunked())
    }

    /** create() */
    constructor (maxArrayLength: nat, filler: T)
      ensures Valid() && fresh(Repr) && contents == [] && darr != null && darr.Length == 0
      ensures this.maxArrayLength == maxArrayLength && this.filler == filler
    {
      this.maxArrayLength, this.filler := maxArrayLength, filler;
      len := 0;
      arr := new array?<T>[0](_ => null);
      darr := new T[0](_ => filler);
      contents := [];
      new;
      Repr := {this, arr, darr};
    }

    function Length(): (n: int)
      requires Valid()
      reads this, Repr
      ensures n == |contents|
    {
      len
    }

    function Get(idx: int): (r: Result<T>)
      requires Valid()
      reads this, Repr
      ensures r == if 0 <= idx < |contents| then Ok(contents[idx]) else InvalidArg(idx)
    {
      if idx < 0 || idx >= len then InvalidArg(idx)
      else if darr == null then
        assert idx == idx / SIZE * SIZE + idx % SIZE;
        Ok(arr[idx / SIZE][idx % SIZE])
      else
        assert darr[..len][idx] == darr[idx];
        Ok(darr[idx])
    }

    method Set(idx: int, v: T) returns (r: Result<()>)
      requires Valid()
      modifies Repr
      ensures Valid() && Repr == old(Repr) && (darr == null <==> old(darr) == null)
      ensures r.Ok? <==> 0 <= idx < |old(contents)|
      ensures contents == if r.Ok? then old(contents)[idx := v] else old(contents)
    {
      if idx < 0 || idx >= len {
        return InvalidArg(idx);
      }
      contents := contents[idx := v];
      if darr == null {
        PutChunked(idx, v, old(contents));
      } else {
        darr[idx] := v;
      }
      r := Ok(());
    }

    /** Writes one cell of one chunk: one element changes, or one is added at the end. */
    method PutChunked(idx: nat, v: T, ghost ts: seq<T>)
      requires Chunks() && Holds(ts) && idx <= |ts| && idx < arr.Length * SIZE
      modifies arr[idx / SIZE]
      ensures Chunks() && unchanged(arr)
      ensures Holds(if idx < |ts| then ts[idx := v] else ts + [v])
    {
      var c, o := idx / SIZE, idx % SIZE;
      assert idx == c * SIZE + o;
      var chunk := arr[c];
      chunk[o] := v;
    }

    /** A block of one chunk's size with s at its beginning. */
    method NewChunk(s: seq<T>) returns (chunk: array<T>)
      requires |s| <= SIZE
      ensures fresh(chunk) && chunk.Length == SIZE && chunk[..] == s + seq(SIZE - |s|, _ => filler)
    {
      chunk := new T[SIZE](_ => filler);
      for j := 0 to |s|
        invariant forall k :: 0 <= k < SIZE ==> chunk[k] == if k < j then s[k] else filler
      {
        chunk[j] := s[j];
      }
    }

    /** One more, empty, chunk. */
    method GrowChunks()
      requires arr in Repr && Owned() && Chunked() && len == arr.Length * SIZE
      modifies `arr, `Repr
      ensures arr in Repr && Owned() && Chunks() && Holds(contents)
      ensures arr.Length == old(arr.Length) + 1 && fresh(Repr - old(Repr))
    {
      var asize := arr.Length;
      var narr := new array?<T>[asize + 1](_ => null);
      for i := 0 to asize
        invariant unchanged(this) && forall k :: 0 <= k < i ==> narr[k] == arr[k]
      {
        narr[i] := arr[i];
      }
      var chunk := NewChunk([]);
      narr[asize] := chunk;
      arr := narr;
      Repr := Repr + {arr, chunk};
    }

    /** The nested loops that fill new chunks from s. */
    method FillChunks(s: seq<T>, count: nat)
      requires count >= 1 && Written(|s|, count) <= |s|
      modifies `arr
      ensures fresh(arr) && arr.Length == count && Chunks() && Holds(Filled(s, count, filler))
      ensures forall i :: 0 <= i < count ==> fresh(arr[i])
    {
      hide Block, Filled;
      var narr := new array?<T>[count](_ => null);
      for i := 0 to count
        invariant unchanged(this)
        invariant forall k :: 0 <= k < i ==> narr[k] != null && fresh(narr[k]) && narr[k].Length == SIZE
        invariant forall k :: 0 <= k < i ==> narr[k] != narr as object && narr[k][..] == Block(s, count, filler, k)
        invariant forall j, k :: 0 <= j < k < i ==> narr[j] != narr[k]
      {
        PartInBounds(|s|, count, i);
        var part := s[i * SIZE..i * SIZE + (if i == count - 1 then |s| % SIZE else SIZE)];
        var chunk := NewChunk(part);
        BlockIs(s, count, filler, i);
        narr[i] := chunk;
      }
      arr := narr;
      forall i, j | 0 <= i < count && 0 <= j < SIZE
        ensures arr[i][j] == Filled(s, count, filler)[i * SIZE + j]
      {
        BlockOfFilled(s, count, filler, i, j);
        assert arr[i][..][j] == arr[i][j];
      }
    }

    /** From one flat block to chunks, with room for one more element. */
    method Promote()
      requires Valid() && darr != null
      modifies `arr, `darr, `Repr
      ensures arr in Repr && Owned() && Chunks() && Holds(contents) && darr == null
      ensures arr.Length == len / SIZE + 1 && fresh(Repr - old(Repr))
      ensures fresh(arr) && forall i :: 0 <= i < arr.Length ==> fresh(arr[i])
    {
      hide Filled;
      var s := darr[..len];
      var count := (len + SIZE) / SIZE;
      darr := null;
      FilledAll(s, count, filler);
      FillChunks(s, count);
      Repr := Repr + {arr} + (set i | 0 <= i < arr.Length :: arr[i]);
      HoldsPrefix(Filled(s, count, filler), contents);
    }

    lemma HoldsPrefix(ts: seq<T>, us: seq<T>)
      requires Chunks() && Holds(ts) && us <= ts
      ensures Holds(us)
    {
    }

    /** A flat block of twice the size. */
    method Resize()
      requires Valid() && darr != null && len == darr.Length
      modifies `darr, `Repr
      ensures Valid() && darr != null && fresh(darr) && fresh(Repr - old(Repr))
      ensures darr.Length == if len == 0 then 1 else len * 2
    {
      var darr' := new T[if len == 0 then 1 else len * 2](_ => filler);
      for i := 0 to len
        invariant unchanged(this) && forall k :: 0 <= k < i ==> darr'[k] == contents[k]
      {
        assert darr[i] == darr[..len][i];
        darr'[i] := darr[i];
      }
      darr := darr';
      Repr := Repr + {darr};
    }

    /** The new element goes into the last chunk, which has room for it. */
    method PutLast(v: T)
      requires arr in Repr && Owned() && darr == null && |contents| == len && Chunks() && Holds(contents)
      requires (arr.Length - 1) * SIZE <= len < arr.Length * SIZE
      modifies `len, `contents, arr[len / SIZE]
      ensures Valid() && darr == null && contents == old(contents) + [v]
    {
      hide Chunks, Holds;
      ChunkInRepr(len / SIZE);
      PutChunked(len, v, contents);
      len := len + 1;
      contents := contents + [v];
    }

    lemma ChunkInRepr(i: nat)
      requires Owned() && Chunks() && i < arr.Length
      ensures arr[i] != null && arr[i] in Repr && arr[i] != arr as object
    {
    }

    /** Appends one element; chunks stay chunks, and a full flat block becomes chunks near its limit. */
    method Add(v: T)
      requires Valid()
      modifies Repr
      ensures Valid() && fresh(Repr - old(Repr)) && contents == old(contents) + [v]
      ensures darr == null <==> old(darr == null || (len == darr.Length && len * 2 >= maxArrayLength))
      ensures darr != null ==> darr.Length == old(darr).Length || darr.Length <= maxArrayLength
    {
      hide Chunks, Holds;
      if darr == null {
        if len >= arr.Length * SIZE {
          GrowChunks();
        }
        ChunkInRepr(len / SIZE);
        PutLast(v);
      } else if len < darr.Length {
        darr[len] := v;
        len := len + 1;
        contents := contents + [v];
      } else if len * 2 >= maxArrayLength {
        Promote();
        PutLast(v);
      } else {
        Resize();
        darr[len] := v;
        len := len + 1;
        contents := contents + [v];
      }
    }

    method Clear()
      requires Valid()
      modifies this
      ensures Valid() && fresh(Repr - old(Repr)) && contents == []
    {
      len := 0;
      arr := new array?<T>[0](_ => null);
      darr := new T[0](_ => filler);
      contents := [];
      Repr := {this, arr, darr};
    }

    /** init: flat up to the limit, in chunks above it. */
    constructor Init(len: nat, f: nat -> T, maxArrayLength: nat, filler: T)
      ensures Valid() && fresh(Repr) && this.maxArrayLength == maxArrayLength && this.filler == filler
      ensures len <= maxArrayLength ==> darr != null && contents == seq(len, f)
      ensures len > maxArrayLength ==> darr == null && contents == InitCells(seq(len, f), filler)
    {
      this.maxArrayLength, this.filler := maxArrayLength, filler;
      this.len := len;
      arr := new array?<T>[0](_ => null);
      darr := null;
      contents := [];
      new;
      Repr := {this, arr};
      if len > maxArrayLength {
        InitChunks(seq(len, f));
      } else {
        InitFlat(seq(len, f));
      }
    }

    method InitChunks(s: seq<T>)
      requires arr in Repr && Owned() && darr == null && 0 < len == |s|
      modifies this
      ensures Valid() && darr == null && fresh(Repr - old(Repr)) && contents == InitCells(s, filler)
    {
      hide Filled;
      var count := (len + SIZE - 1) / SIZE;
      FillChunks(s, count);
      HoldsPrefix(Filled(s, count, filler), InitCells(s, filler));
      contents := InitCells(s, filler);
      Repr := Repr + {arr} + (set i | 0 <= i < count :: arr[i]);
    }

    method InitFlat(s: seq<T>)
      requires arr in Repr && Owned() && len == |s|
      modifies this
      ensures Valid() && darr != null && fresh(Repr - old(Repr)) && contents == s
    {
      var block := new T[len](_ => filler);
      for i := 0 to len
        invariant unchanged(this) && forall k :: 0 <= k < i ==> block[k] == s[k]
      {
        block[i] := s[i];
      }
      darr := block;
      contents := s;
      Repr := Repr + {darr};
    }

    /** make: the same from one element. */
    constructor Make(len: nat, e: T, maxArrayLength: nat, filler: T)
      ensures Valid() && fresh(Repr) && this.maxArrayLength == maxArrayLength && this.filler == filler
      ensures len <= maxArrayLength ==> darr != null && contents == seq(len, _ => e)
      ensures len > maxArrayLength ==> darr == null && contents == InitCells(seq(len, _ => e), filler)
    {
      this.maxArrayLength, this.filler := maxArrayLength, filler;
      this.len := len;
      arr := new array?<T>[0](_ => null);
      darr := null;
      contents := [];
      new;
      Repr := {this, arr};
      if len > maxArrayLength {
        InitChunks(seq(len, _ => e));
      } else {
        InitFlat(seq(len, _ => e));
      }
    }

    /** The elements that the loops hand over: every one, or all but those of a full last chunk. */
    method Iter() returns (visited: seq<T>)
      requires Valid()
      ensures visited == Reached(contents, darr != null)
      ensures visited == contents <==> darr != null || len % SIZE != 0
      ensures visited != contents ==> |visited| == |contents| - SIZE
    {
      visited := [];
      if darr == null {
        var max := arr.Length - 1;
        ReachedIsWritten(contents, arr.Length);
        for i := 0 to max + 1
          invariant visited == contents[..if i == arr.Length then Written(len, i) else i * SIZE]
        {
          var chunk := arr[i];
          var bound := if i == max then len % SIZE else SIZE;
          for j := 0 to bound
            invariant i * SIZE + j <= len && visited == contents[..i * SIZE + j]
          {
            visited := visited + [chunk[j]];
          }
        }
      } else {
        for i := 0 to len
          invariant visited == contents[..i]
        {
          assert darr[i] == darr[..len][i];
          visited := visited + [darr[i]];
        }
      }
    }

    method FoldLeft<A>(f: (A, T) -> A, acc: A) returns (r: A)
      requires Valid()
      ensures r == Fold(f, acc, Reached(contents, darr != null))
    {
      r := acc;
      if darr == null {
        var max := arr.Length - 1;
        ReachedIsWritten(contents, arr.Length);
        for i := 0 to max + 1
          invariant r == Fold(f, acc, contents[..if i == arr.Length then Written(len, i) else i * SIZE])
        {
          var chunk := arr[i];
          var bound := if i == max then len % SIZE else SIZE;
          for j := 0 to bound
            invariant i * SIZE + j <= len && r == Fold(f, acc, contents[..i * SIZE + j])
          {
            assert contents[..i * SIZE + j + 1][..i * SIZE + j] == contents[..i * SIZE + j];
            r := f(r, chunk[j]);
          }
        }
      } else {
        for i := 0 to len
          invariant r == Fold(f, acc, contents[..i])
        {
          assert darr[i] == darr[..len][i] && contents[..i + 1][..i] == contents[..i];
          r := f(r, darr[i]);
        }
        assert contents[..len] == contents;
      }
    }

    /** The image of one chunk's first n cells, in a chunk of its own. */
    method MapChunk<U>(f: T -> U, chunk: array<T>, n: nat, other: U) returns (narr: array<U>)
      requires chunk.Length == SIZE && n <= SIZE
      ensures fresh(narr) && narr.Length == SIZE
      ensures narr[..] == Mapped(f, chunk[..n]) + seq(SIZE - n, _ => other)
    {
      narr := new U[SIZE](_ => other);
      for j := 0 to n
        invariant forall k :: 0 <= k < SIZE ==> narr[k] == if k < j then f(chunk[k]) else other
      {
        narr[j] := f(chunk[j]);
      }
    }

    /** Takes over a list of chunks; for map, which builds the result from outside. */
    method Adopt(narr: array<array?<T>>, n: nat, ghost ts: seq<T>)
      requires Valid() && |ts| == n && 0 < n && (narr.Length - 1) * SIZE < n <= narr.Length * SIZE
      requires forall k :: 0 <= k < narr.Length ==> narr[k] != null && narr[k].Length == SIZE
      requires forall k :: 0 <= k < narr.Length ==> narr[k] != narr as object
      requires forall j, k :: 0 <= j < k < narr.Length ==> narr[j] != narr[k]
      requires forall i, j :: 0 <= i < narr.Length && 0 <= j < SIZE && i * SIZE + j < n ==>
                 narr[i][j] == ts[i * SIZE + j]
      modifies this
      ensures Valid() && darr == null && contents == ts
      ensures Repr == {this, narr} + (set i | 0 <= i < narr.Length :: narr[i])
    {
      arr, darr, len := narr, null, n;
      contents := ts;
      Repr := {this, arr} + (set i | 0 <= i < arr.Length :: arr[i]);
    }

    lemma ChunkHolds(i: nat, n: nat)
      requires darr == null && Chunked() && |contents| == len
      requires i < arr.Length && n <= SIZE && i * SIZE + n <= len
      ensures arr[i][..n] == contents[i * SIZE..i * SIZE + n]
    {
      forall j | 0 <= j < n
        ensures arr[i][..n][j] == contents[i * SIZE..i * SIZE + n][j]
      {
        assert arr[i][j] == contents[i * SIZE + j];
      }
    }

    lemma ChunkBound(i: nat)
      requires Valid() && darr == null && i < arr.Length
      ensures arr.Length == (|contents| + SIZE - 1) / SIZE && |contents| == len
      ensures i * SIZE < |contents| && arr[i] != null && arr[i].Length == SIZE
    {
    }

    lemma ChunkMapped<U>(f: T -> U, other: U, i: nat, bound: nat, row: seq<U>)
      requires Valid() && darr == null && i < arr.Length && arr[i] != null && arr[i].Length == SIZE
      requires bound == if i == arr.Length - 1 then len % SIZE else SIZE
      requires row == Mapped(f, arr[i][..bound]) + seq(SIZE - bound, _ => other)
      ensures i * SIZE < |contents| && row == MappedBlock(f, contents, other, i)
    {
      hide Filled, Block, Written, Mapped, InitCells, MappedBlock;
      ChunkBound(i);
      BlockMapped(f, contents, other, i);
      ChunkHolds(i, bound);
    }

    method MapChunks<U>(f: T -> U, other: U) returns (narr: array<array?<U>>)
      requires Valid() && darr == null
      ensures fresh(narr) && narr.Length == arr.Length
      ensures forall k :: 0 <= k < narr.Length ==> narr[k] != null && narr[k].Length == SIZE
      ensures forall k :: 0 <= k < narr.Length ==> narr[k] != narr as object
      ensures forall k :: 0 <= k < narr.Length ==> fresh(narr[k])
      ensures forall j, k :: 0 <= j < k < narr.Length ==> narr[j] != narr[k]
      ensures forall i, j :: 0 <= i < narr.Length && 0 <= j < SIZE && i * SIZE + j < len ==>
                narr[i][j] == InitCells(Mapped(f, contents), other)[i * SIZE + j]
    {
      hide Filled, Block, Written, Mapped, InitCells, MappedBlock;
      narr := new array?<U>[arr.Length](_ => null);
      var max := arr.Length - 1;
      for i := 0 to max + 1
        invariant forall k :: 0 <= k < i ==> narr[k] != null && fresh(narr[k]) && narr[k].Length == SIZE
        invariant forall k :: 0 <= k < i ==> narr[k] != narr as object
        invariant forall j, k :: 0 <= j < k < i ==> narr[j] != narr[k]
        invariant forall k :: 0 <= k < i ==> narr[k][..] == MappedBlock(f, contents, other, k)
      {
        ChunkBound(i);
        var bound := if i == max then len % SIZE else SIZE;
        var chunk := MapChunk(f, arr[i], bound, other);
        ChunkMapped(f, other, i, bound, chunk[..]);
        narr[i] := chunk;
      }
      CellsMapped(f, contents, other, narr);
    }

    method MapFlat<U>(f: T -> U, other: U) returns (arr2: array<U>)
      requires Valid() && darr != null
      ensures fresh(arr2) && arr2[..] == Mapped(f, contents)
    {
      arr2 := new U[len](_ => other);
      for i := 0 to len
        invariant forall k :: 0 <= k < i ==> arr2[k] == f(contents[k])
      {
        assert darr[i] == darr[..len][i];
        arr2[i] := f(darr[i]);
      }
    }

    /** map; in chunks, the image of a full last chunk is missing as after init. */
    method Map<U>(f: T -> U, other: U) returns (d2: MultiArray<U>)
      requires Valid()
      ensures d2.Valid() && fresh(d2.Repr) && (d2.darr == null <==> darr == null)
      ensures d2.contents == if darr != null then Mapped(f, contents) else InitCells(Mapped(f, contents), other)
    {
      hide InitCells, Mapped;
      if darr == null {
        var narr := MapChunks(f, other);
        d2 := new MultiArray(maxArrayLength, other);
        d2.Adopt(narr, len, InitCells(Mapped(f, contents), other));
      } else {
        var arr2 := MapFlat(f, other);
        d2 := new MultiArray(maxArrayLength, other);
        d2.AdoptFlat(arr2, Mapped(f, contents));
      }
    }

    method AdoptFlat(block: array<T>, ghost ts: seq<T>)
      requires Valid() && block[..] == ts && block != arr as object
      modifies this
      ensures Valid() && darr == block && contents == ts && Repr == old(Repr) + {block}
    {
      darr, len := block, block.Length;
      contents := ts;
      Repr := Repr + {block};
    }
  }

  /** What init above the limit leaves in the array. */
  function InitCells<T>(s: seq<T>, filler: T): (r: seq<T>)
    ensures |r| == |s|
  {
    if s == [] then [] else Filled(s, (|s| + SIZE - 1) / SIZE, filler)[..|s|]
  }

  /** Chunk i of map's result, for as many chunks as s fills. */
  function MappedBlock<T, U>(f: T -> U, s: seq<T>, other: U, i: nat): (b: seq<U>)
    requires i * SIZE < |s|
    ensures |b| == SIZE
  {
    Block(Mapped(f, s), (|s| + SIZE - 1) / SIZE, other, i)
  }

  lemma BlockMapped<T, U>(f: T -> U, s: seq<T>, other: U, i: nat)
    requires i * SIZE < |s|
    ensures var count := (|s| + SIZE - 1) / SIZE; var bound := if i == count - 1 then |s| % SIZE else SIZE;
      i * SIZE + bound <= |s| &&
      MappedBlock(f, s, other, i) == Mapped(f, s[i * SIZE..i * SIZE + bound]) + seq(SIZE - bound, _ => other)
  {
  }

  lemma BlockCell<T, U>(f: T -> U, s: seq<T>, other: U, i: nat, j: nat)
    requires j < SIZE && i * SIZE + j < |s|
    ensures MappedBlock(f, s, other, i)[j] == InitCells(Mapped(f, s), other)[i * SIZE + j]
  {
    BlockOfFilled(Mapped(f, s), (|s| + SIZE - 1) / SIZE, other, i, j);
  }

  lemma CellsMapped<T, U>(f: T -> U, s: seq<T>, other: U, narr: array<array?<U>>)
    requires narr.Length == (|s| + SIZE - 1) / SIZE
    requires forall k :: 0 <= k < narr.Length ==> narr[k] != null && narr[k].Length == SIZE
    requires forall k :: 0 <= k < narr.Length ==> narr[k][..] == MappedBlock(f, s, other, k)
    ensures forall i, j :: 0 <= i < narr.Length && 0 <= j < SIZE && i * SIZE + j < |s| ==>
              narr[i][j] == InitCells(Mapped(f, s), other)[i * SIZE + j]
  {
    hide MappedBlock, InitCells, Mapped;
    forall i, j | 0 <= i < narr.Length && 0 <= j < SIZE && i * SIZE + j < |s|
      ensures narr[i][j] == InitCells(Mapped(f, s), other)[i * SIZE + j]
    {
      BlockCell(f, s, other, i, j);
      assert narr[i][..][j] == narr[i][j];
    }
  }

  lemma FilledAll<T>(s: seq<T>, count: nat, filler: T)
    requires count == |s| / SIZE + 1
    ensures Written(|s|, count) == |s| && s <= Filled(s, count, filler)
  {
  }

  lemma PartInBounds(n: nat, count: nat, i: nat)
    requires i < count && Written(n, count) <= n
    ensures 0 <= i * SIZE <= i * SIZE + (if i == count - 1 then n % SIZE else SIZE) <= n
  {
  }

  lemma BlockIs<T>(s: seq<T>, count: nat, filler: T, i: nat)
    requires i < count && Written(|s|, count) <= |s|
    ensures i * SIZE + (if i == count - 1 then |s| % SIZE else SIZE) <= |s|
    ensures var part := s[i * SIZE..i * SIZE + (if i == count - 1 then |s| % SIZE else SIZE)];
      Block(s, count, filler, i) == part + seq(SIZE - |part|, _ => filler)
  {
  }

  // ------------------------------------------------------------------ what a full last chunk costs

  function Append<T>(acc: seq<T>, t: T): seq<T> {
    acc + [t]
  }

  lemma {:induction false} FoldAppend<T>(s: seq<T>)
    ensures Fold<seq<T>, T>(Append, [], s) == s
    decreases |s|
  {
    if s != [] {
      FoldAppend(s[..|s| - 1]);
      assert s == s[..|s| - 1] + [s[|s| - 1]];
    }
  }

  /**
   fold_left folds over what iter visits.  It gives what folding over all elements gives, for every
   function, if and only if there are no chunks or the last of them is not full.
   */
  lemma FoldLeftAll<T(!new)>(s: seq<T>, flat: bool)
    ensures (forall f: (seq<T>, T) -> seq<T>, acc :: Fold(f, acc, Reached(s, flat)) == Fold(f, acc, s)) <==>
      flat || |s| % SIZE != 0 || s == []
  {
    if Reached(s, flat) != s {
      FoldAppend(s);
      FoldAppend(Reached(s, flat));
      assert Fold<seq<T>, T>(Append, [], Reached(s, flat)) != Fold<seq<T>, T>(Append, [], s);
    }
  }

  /** init and map above the limit are right unless the last chunk is full and not filler anyway. */
  lemma InitCellsAll<T>(s: seq<T>, filler: T)
    requires s != []
    ensures InitCells(s, filler) == s <==>
      |s| % SIZE != 0 || forall i :: |s| - SIZE <= i < |s| ==> s[i] == filler
    ensures forall i :: 0 <= i < |s| - SIZE ==> InitCells(s, filler)[i] == s[i]
  {
    var n := Written(|s|, (|s| + SIZE - 1) / SIZE);
    assert n == if |s| % SIZE == 0 then |s| - SIZE else |s|;
    assert forall i :: 0 <= i < |s| ==> InitCells(s, filler)[i] == if i < n then s[i] else filler;
  }

  datatype Op<T> = Adding(v: T) | Setting(idx: int, v: T) | Clearing

  function After<T>(s: seq<T>, ops: seq<Op<T>>): seq<T> {
    if ops == [] then s
    else
      var t := After(s, ops[..|ops| - 1]);
      match ops[|ops| - 1]
      case Adding(v) => t + [v]
      case Setting(idx, v) => if 0 <= idx < |t| then t[idx := v] else t
      case Clearing => []
  }

  /** Every run of add, set and clear, through every change of representation. */
  method Run<T>(d: MultiArray<T>, ops: seq<Op<T>>)
    requires d.Valid()
    modifies d.Repr
    ensures d.Valid() && fresh(d.Repr - old(d.Repr)) && d.contents == After(old(d.contents), ops)
  {
    for n := 0 to |ops|
      invariant d.Valid() && fresh(d.Repr - old(d.Repr))
      invariant d.contents == After(old(d.contents), ops[..n])
    {
      assert ops[..n + 1][..n] == ops[..n];
      match ops[n]
      case Adding(v) => d.Add(v);
      case Setting(idx, v) => var _ := d.Set(idx, v);
      case Clearing => d.Clear();
    }
    assert ops[..|ops|] == ops;
  }

  /** Adds elements until there are chunks; that ends, whatever the limit is. */
  method AddUntilChunked(maxArrayLength: nat) returns (d: MultiArray<int>)
    ensures d.Valid() && fresh(d.Repr) && d.darr == null && d.maxArrayLength == maxArrayLength
  {
    hide MultiArray.Holds, MultiArray.Chunks, MultiArray.Owned;
    d := new MultiArray<int>(maxArrayLength, 0);
    while d.darr != null
      invariant d.Valid() && fresh(d.Repr)
      invariant d.darr != null ==> d.darr.Length <= maxArrayLength
      decreases d.darr != null, maxArrayLength - d.len
    {
      d.Add(0);
    }
  }

  /** Adds elements until the last chunk is full. */
  method FillLastChunk(d: MultiArray<int>)
    requires d.Valid() && d.darr == null
    modifies d.Repr
    ensures d.Valid() && d.darr == null && fresh(d.Repr - old(d.Repr)) && |d.contents| % SIZE == 0
  {
    hide MultiArray.Valid;
    ghost var full := |d.contents| + (SIZE - |d.contents| % SIZE);
    while d.Length() % SIZE != 0
      invariant d.Valid() && d.darr == null && fresh(d.Repr - old(d.Repr))
      invariant |d.contents| <= full && full % SIZE == 0
      decreases full - |d.contents|
    {
      d.Add(0);
    }
  }

  /** Whatever the limit is, some run ends with a full last chunk, and iter then misses 1024 elements. */
  method SkipsAFullChunk(maxArrayLength: nat) returns (d: MultiArray<int>, visited: seq<int>)
    ensures d.Valid() && fresh(d.Repr) && d.darr == null && d.maxArrayLength == maxArrayLength
    ensures visited == Reached(d.contents, false) && |visited| == |d.contents| - SIZE
  {
    hide MultiArray.Holds, MultiArray.Chunks, MultiArray.Flat, MultiArray.Owned;
    d := AddUntilChunked(maxArrayLength);
    FillLastChunk(d);
    visited := d.Iter();
  }

  /** The same for init: of 1024 elements above the limit none is written. */
  method InitOfAFullChunk(f: nat -> int, filler: int) returns (d: MultiArray<int>)
    ensures d.Valid() && fresh(d.Repr) && d.maxArrayLength == 1023
    ensures d.contents == seq(1024, _ => filler)
    ensures (exists i :: 0 <= i < 1024 && f(i) != filler) ==> d.contents != seq(1024, i requires i >= 0 => f(i))
  {
    d := new MultiArray<int>.Init(1024, f, 1023, filler);
    assert InitCells(seq(1024, f), filler) == seq(1024, _ => filler);
    if i :| 0 <= i < 1024 && f(i) != filler {
      assert seq(1024, i requires i >= 0 => f(i))[i] != d.contents[i];
    }
  }
}
