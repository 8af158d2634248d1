/**
 The colour stream of libs/objsize/c_objsize.c: a growing bit array, a write index, a read
 index, and the run-length coder above it.  Every ASSERT of the source is an `assert` here.
 */
module ColorStream {
  import BitArray
  import opened ColorCodec
  import opened Sequences

  const COLORS_INIT_COUNT := 256

  class Stream {
    var colors: array?<bv8>
    var bitcap: nat
    var writeIndex: nat
    var readIndex: nat
    var prevColor: Color
    var repeatCount: nat

    ghost var doublings: nat
    ghost var bits: seq<bool>        // everything written, as bits
    ghost var tokens: seq<Token>     // the same, as tokens
    ghost var written: seq<Color>    // the colours passed to WriteColor
    ghost var read: seq<Color>       // the colours handed out by ReadColor
    ghost var done: seq<Token>       // the tokens decoded for them

    /** The store: capacity is 512 * 2^k, all of it backed by bytes, holding `bits`. */
    ghost predicate Store()
      reads `colors, `bitcap, `writeIndex, `readIndex, `bits, `doublings, colors
    {
      && colors != null
      && bitcap == 2 * COLORS_INIT_COUNT * Pow2(doublings)
      && colors.Length * BitArray.BITS_OF_CHAR == bitcap
      && readIndex <= writeIndex <= bitcap
      && |bits| == writeIndex
      && BitArray.Holds(colors[..], bits)
    }

    /** The writing phase: the stream and the pending run stand for `written`. */
    ghost predicate Writing()
      reads this, colors
    {
      && Store()
      && readIndex == 0
      && bits == Bits(tokens)
      && Wrote(State(), written)
    }

    ghost function State(): RleState
      reads this
    {
      RleState(tokens, prevColor, repeatCount)
    }

    /** Flushed: the stream is complete, short, and the coder is idle. */
    ghost predicate Flushed()
      reads this, colors
    {
      && Store()
      && readIndex == 0
      && bits == Bits(tokens)
      && AllOk(tokens) && Expand(tokens) == written
      && |bits| <= 5 * |written| + 3
      && repeatCount == 0
    }

    /** The reading phase: `done` has been decoded, `read` handed out, a run may be pending. */
    ghost predicate Reading()
      reads this, colors
    {
      && Store()
      && bits == Bits(tokens)
      && AllOk(tokens) && Expand(tokens) == written
      && done <= tokens
      && readIndex == |Bits(done)|
      && Decoded(done, read, prevColor, repeatCount)
    }

    /** No Stream is in use. */
    constructor ()
      ensures colors == null
    {
      colors := null;
      bitcap, writeIndex, readIndex, prevColor, repeatCount := 0, 0, 0, 0, 0;
      bits, tokens, written, read, done, doublings := [], [], [], [], [], 0;
    }

    // ----- bits -----

    method ColorsInit()
      requires colors == null
      modifies this
      ensures Store() && fresh(colors) && bits == [] && readIndex == 0
      ensures prevColor == old(prevColor) && repeatCount == old(repeatCount)
    {
      bitcap := COLORS_INIT_COUNT * 2;
      BitArray.WordAlignExactly(bitcap / BitArray.BITS_OF_CHAR);
      colors := new bv8[BitArray.SizeBytes(bitcap)];
      writeIndex := 0;
      readIndex := 0;
      bits, doublings := [], 0;
    }

    method ColorsDeinit()
      modifies `colors
      ensures colors == null
    {
      colors := null;
    }

    /** Doubles the capacity. */
    method Grow()
      requires Store()
      modifies `colors, `bitcap, `doublings
      ensures Store() && fresh(colors)
      ensures bitcap == 2 * old(bitcap)
    {
      var newBitcap := bitcap * 2;
      BitArray.WordAlignExactly(newBitcap / BitArray.BITS_OF_CHAR);
      var newArr := BitArray.Realloc(colors, newBitcap);
      assert colors[..] <= newArr[..];
      BitArray.HoldsInCopy(colors[..], newArr[..], bits);
      colors := newArr;
      bitcap := newBitcap;
      doublings := doublings + 1;
    }

    method WriteBit(bit: int)
      requires Store()
      modifies `colors, `bitcap, `writeIndex, `bits, `doublings, colors
      ensures Store() && (colors == old(colors) || fresh(colors))
      ensures bits == old(bits) + [bit != 0]
    {
      if writeIndex == bitcap {
        Grow();
      }
      assert writeIndex < bitcap;  // "bound on write"
      ghost var before := colors[..];
      BitArray.Set(colors, writeIndex, bit);
      BitArray.PutAppends(before, bits, bit != 0);
      writeIndex := writeIndex + 1;
      bits := bits + [bit != 0];
    }

    method ReadBit() returns (res: nat)
      requires Store()
      requires readIndex < writeIndex
      modifies `readIndex
      ensures Store() && readIndex == old(readIndex) + 1
      ensures res == if bits[old(readIndex)] then 1 else 0
    {
      assert readIndex < writeIndex;  // "bound on read"
      res := if BitArray.Get(colors[..], readIndex) then 1 else 0;
      readIndex := readIndex + 1;
    }

    // ----- numbers -----

    method WriteInt(arg: nat, width: nat)
      requires Store()
      requires arg < Pow2(width)
      modifies `colors, `bitcap, `writeIndex, `bits, `doublings, colors
      ensures Store() && (colors == old(colors) || fresh(colors))
      ensures bits == old(bits) + IntBits(arg, width)
    {
      var a: nat, w: nat := arg, width;
      while w > 0
        invariant Store() && (colors == old(colors) || fresh(colors))
        invariant a < Pow2(w)
        invariant bits + IntBits(a, w) == old(bits) + IntBits(arg, width)
      {
        ghost var before := bits;
        WriteBit(a % 2);
        Assoc(before, [a % 2 == 1], IntBits(a / 2, w - 1));
        w := w - 1;
        a := a / 2;
      }
      assert a == 0;  // "writeint"
    }

    method ReadInt(width: nat) returns (acc: nat)
      requires Store()
      requires 0 < width
      requires readIndex + width <= writeIndex
      modifies `readIndex
      ensures Store() && readIndex == old(readIndex) + width
      ensures acc == BitsInt(bits[old(readIndex)..readIndex])
    {
      acc := 0;
      var hibit := Pow2(width - 1);
      var w: nat := width;
      while w > 0
        invariant w <= width && readIndex == old(readIndex) + width - w && Store()
        invariant acc == Pow2(w) * BitsInt(bits[old(readIndex)..readIndex])
      {
        ghost var seen := bits[old(readIndex)..readIndex];
        var bit := ReadBit();
        w := w - 1;
        PlaceTopBit(seen, bit, w, acc);
        assert bits[old(readIndex)..readIndex] == seen + [bit == 1];
        acc := acc / 2;
        if bit != 0 {
          acc := acc + hibit;  // acc |= hibit: acc < hibit here
        }
      }
    }

    // ----- the writer -----

    method RleWriteRepeats()
      requires Store() && bits == Bits(tokens)
      modifies `colors, `bitcap, `writeIndex, `bits, `doublings, `tokens, `repeatCount, colors
      ensures Store() && (colors == old(colors) || fresh(colors))
      ensures bits == Bits(tokens)
      ensures tokens == old(tokens) + RepeatTokens(old(repeatCount))
      ensures repeatCount == 0
    {
      hide Store, Bits, RepeatTokens, OrderFrom;
      ghost var goal := tokens + RepeatTokens(repeatCount);
      while repeatCount >= MAX_REPEAT_COUNT
        invariant Store() && (colors == old(colors) || fresh(colors))
        invariant bits == Bits(tokens)
        invariant tokens + RepeatTokens(repeatCount) == goal
      {
        ghost var ts, n := tokens, repeatCount;
        RepeatsInFront(ts, n);
        var ord := ChooseOrder(repeatCount);
        WriteOrder(ord);
        repeatCount := repeatCount - Pow2(ord);
        assert tokens == ts + [Order(ord)];
      }
      assert repeatCount < MAX_REPEAT_COUNT;  // "write_repeats"
      RepeatsEnd(repeatCount);
      if repeatCount > 0 {
        WriteCount();
        repeatCount := 0;
      } else {
        assert tokens + [] == tokens;
      }
    }

    method ChooseOrder(n: nat) returns (ord: nat)
      requires n >= MAX_REPEAT_COUNT
      ensures ord == OrderFrom(n, 0)
    {
      ord := 0;
      while ord < MAX_REPEAT_ORDER - 1 && Pow2(ord) <= n / 2
        invariant ord < MAX_REPEAT_ORDER && Pow2(ord) <= n
        invariant OrderFrom(n, ord) == OrderFrom(n, 0)
        decreases MAX_REPEAT_ORDER - ord
      {
        ord := ord + 1;
      }
    }

    method WriteOrder(ord: nat)
      requires Store() && bits == Bits(tokens)
      requires ord < MAX_REPEAT_ORDER
      modifies `colors, `bitcap, `writeIndex, `bits, `doublings, `tokens, colors
      ensures Store() && (colors == old(colors) || fresh(colors))
      ensures bits == Bits(tokens) && tokens == old(tokens) + [Order(ord)]
    {
      PowersOfTwo();
      ghost var before := bits;
      WriteInt(BLUE, 2);
      WriteInt(1, 1);
      assert Pow2(ord) != 0;  // "write_repeats#2"
      WriteInt(ord, BITS_FOR_ORDER);
      Assoc(before, IntBits(BLUE, 2), IntBits(1, 1));
      Assoc(before, IntBits(BLUE, 2) + IntBits(1, 1), IntBits(ord, BITS_FOR_ORDER));
      Extend(tokens, Order(ord));
      tokens := tokens + [Order(ord)];
    }

    method WriteCount()
      requires Store() && bits == Bits(tokens)
      requires repeatCount < MAX_REPEAT_COUNT
      modifies `colors, `bitcap, `writeIndex, `bits, `doublings, `tokens, colors
      ensures Store() && (colors == old(colors) || fresh(colors))
      ensures bits == Bits(tokens) && tokens == old(tokens) + [Count(repeatCount)]
    {
      PowersOfTwo();
      ghost var before := bits;
      WriteInt(BLUE, 2);
      WriteInt(0, 1);
      WriteInt(repeatCount, BITS_FOR_COUNT);
      Assoc(before, IntBits(BLUE, 2), IntBits(0, 1));
      Assoc(before, IntBits(BLUE, 2) + IntBits(0, 1), IntBits(repeatCount, BITS_FOR_COUNT));
      Extend(tokens, Count(repeatCount));
      tokens := tokens + [Count(repeatCount)];
    }

    method WriteSingle(color: Color)
      requires Store() && bits == Bits(tokens)
      modifies `colors, `bitcap, `writeIndex, `bits, `doublings, `tokens, colors
      ensures Store() && (colors == old(colors) || fresh(colors))
      ensures bits == Bits(tokens) && tokens == old(tokens) + [Single(color)]
    {
      PowersOfTwo();
      Extend(tokens, Single(color));
      WriteInt(color, 2);
      tokens := tokens + [Single(color)];
    }

    method RleWriteFlush()
      requires Writing()
      modifies `colors, `bitcap, `writeIndex, `bits, `doublings, `tokens, `repeatCount, colors
      ensures Flushed() && (colors == old(colors) || fresh(colors))
      ensures State() == Flush(old(State()))
    {
      FlushedOutput(State());
      if repeatCount > 0 {
        RleWriteRepeats();
      } else {
        assert tokens + [] == tokens;
      }
      assert repeatCount == 0;  // "rle_write_flush"
    }

    method RleWrite(color: Color)
      requires Writing()
      modifies `colors, `bitcap, `writeIndex, `bits, `doublings, `tokens, `repeatCount, `prevColor, `written, colors
      ensures Writing() && (colors == old(colors) || fresh(colors))
      ensures written == old(written) + [color]
      ensures State() == WriteStep(old(State()), color)
    {
      hide Store, Bits, Expand, Fill, AllOk, LastColor, RepeatTokens;
      WriterStepInvariant(State(), written, color);
      if prevColor == color {
        repeatCount := repeatCount + 1;
      } else {
        RleWriteFlush();
        assert color != BLUE;  // "rle_write"
        WriteSingle(color);
        prevColor := color;
      }
      written := written + [color];
    }

    method WriteColor(col: nat)
      requires col <= 3 && col != BLUE
      requires Writing()
      modifies `colors, `bitcap, `writeIndex, `bits, `doublings, `tokens, `repeatCount, `prevColor, `written, colors
      ensures Writing() && (colors == old(colors) || fresh(colors))
      ensures written == old(written) + [col]
    {
      RleWrite(col);
    }

    /** Before the first write. */
    method RleInitForWriting()
      requires Store() && bits == [] && readIndex == 0
      modifies `prevColor, `repeatCount, `tokens, `written
      ensures Writing() && written == []
    {
      prevColor := 0;
      repeatCount := 0;
      tokens, written := [], [];
    }

    // ----- the reader -----

    lemma BitsStored()
      requires Store()
      ensures |bits| == writeIndex
    {
    }

    /** Before the first read; the code is that of RleInitForWriting. */
    method RleInitForReading()
      requires Flushed()
      modifies `prevColor, `repeatCount, `read, `done
      ensures Reading() && read == []
    {
      prevColor := 0;
      repeatCount := 0;
      read, done := [], [];
    }

    method RleRead() returns (c: nat)
      requires Reading() && |read| < |written|
      modifies `readIndex, `prevColor, `repeatCount, `read, `done
      ensures Reading()
      ensures read == old(read) + [written[|old(read)|]]
      ensures c == written[|old(read)|]
      decreases repeatCount == 0
    {
      if repeatCount > 0 {
        NextOfRun(done, read, prevColor, repeatCount);
        ReadSoFar(tokens, written, done, read, prevColor, repeatCount);
        repeatCount := repeatCount - 1;
        read := read + [prevColor];
        return prevColor;
      } else {
        c := ReadToken();
        if c == BLUE {
          assert repeatCount > 0;  // "rle_read"
          c := RleRead();
        }
      }
    }

    /** Takes the next token from the stream: a colour, or blue with a run now pending. */
    method ReadToken() returns (c: nat)
      requires Reading() && repeatCount == 0 && |read| < |written|
      modifies `readIndex, `prevColor, `repeatCount, `read, `done
      ensures Reading()
      ensures c == BLUE ==> repeatCount > 0 && read == old(read)
      ensures c != BLUE ==> c == written[|old(read)|] && read == old(read) + [written[|old(read)|]]
    {
      hide Bits, Expand, AllOk, Fill, LastColor, BitsInt, Store;
      BitsStored();
      ghost var t := NextToken(tokens, written, done, read, prevColor);
      TokenAhead(bits, tokens, done, t);
      done := done + [t];
      c := ReadInt(2);
      if c == BLUE {
        ReadRepeat(t);
      } else {
        prevColor := c;
        read := read + [t.color];
      }
    }

    /** The rest of a repetition token, after its two blue bits. */
    method ReadRepeat(ghost t: Token)
      requires Store() && t.Ok() && !t.Single?
      requires readIndex >= 2 && readIndex + Width(t) - 2 <= |bits| && ReadsAs(bits, readIndex - 2, t)
      modifies `readIndex, `repeatCount
      ensures Store() && readIndex == old(readIndex) + Width(t) - 2
      ensures repeatCount == t.Span()
    {
      var rk := ReadInt(1);
      if rk == 0 {
        repeatCount := ReadInt(BITS_FOR_COUNT);
      } else {
        var order := ReadInt(BITS_FOR_ORDER);
        repeatCount := Pow2(order);
      }
    }

    method ReadColor() returns (res: nat)
      requires Reading() && |read| < |written|
      modifies `readIndex, `prevColor, `repeatCount, `read, `done
      ensures Reading()
      ensures read == old(read) + [written[|old(read)|]]
      ensures res == written[|old(read)|]
    {
      res := RleRead();
      assert res <= 3 && res != BLUE;  // "readcolor"
    }

    /** When every colour has been read back, no run is pending and the whole stream is used up. */
    method RleReadFlush()
      requires Reading() && |read| == |written|
      ensures repeatCount == 0 && readIndex == writeIndex
    {
      ReadSoFar(tokens, written, done, read, prevColor, repeatCount);
      assert repeatCount == 0 && readIndex == writeIndex;  // "rle_reader_flush"
    }
  }

  // ----- decoding, on values -----

  /** The tokens `done` stand for the colours `read` and `rep` more of colour `prev`. */
  ghost predicate Decoded(done: seq<Token>, read: seq<Color>, prev: Color, rep: nat) {
    && prev == LastColor(done)
    && read + Fill(prev, rep) == Expand(done)
  }

  lemma NextOfRun(done: seq<Token>, read: seq<Color>, prev: Color, rep: nat)
    requires Decoded(done, read, prev, rep) && rep > 0
    ensures Decoded(done, read + [prev], prev, rep - 1)
  {
    FillSum(prev, 1, rep - 1);
    FillOne(prev);
    Assoc(read, [prev], Fill(prev, rep - 1));
  }

  /** What has been read is what was written; tokens are left exactly when colours are. */
  lemma ReadSoFar(ts: seq<Token>, cs: seq<Color>, done: seq<Token>, read: seq<Color>, prev: Color, rep: nat)
    requires AllOk(ts) && Expand(ts) == cs && done <= ts
    requires Decoded(done, read, prev, rep)
    ensures read + Fill(prev, rep) <= cs
    ensures done == ts <==> |read| + rep == |cs|
    ensures rep > 0 ==> cs[|read|] == prev
  {
    assert ts[..|done|] == done;
    PrefixOf(ts, |done|);
    if rep > 0 {
      assert (read + Fill(prev, rep))[|read|] == prev;
    }
  }

  /** With no run pending and colours still to come, another token can be decoded. */
  lemma NextToken(ts: seq<Token>, cs: seq<Color>, done: seq<Token>, read: seq<Color>, prev: Color)
    returns (t: Token)
    requires AllOk(ts) && Expand(ts) == cs && done <= ts
    requires Decoded(done, read, prev, 0) && |read| < |cs|
    ensures t.Ok() && done + [t] <= ts
    ensures t.Single? ==> t.color == cs[|read|] && Decoded(done + [t], read + [t.color], t.color, 0)
    ensures !t.Single? ==> Decoded(done + [t], read, prev, t.Span())
  {
    ReadSoFar(ts, cs, done, read, prev, 0);
    t := ts[|done|];
    DecodeOne(done, read, prev, t);
    if t.Single? {
      ReadSoFar(ts, cs, done + [t], read + [t.color], t.color, 0);
      Prefix(read + [t.color] + [], cs, |read|);
    }
  }

  /** The bits of that token stand at the read index. */
  lemma TokenAhead(bits: seq<bool>, ts: seq<Token>, done: seq<Token>, t: Token)
    requires AllOk(ts) && bits == Bits(ts)
    requires t.Ok() && done + [t] <= ts
    ensures |Bits(done + [t])| == |Bits(done)| + Width(t) <= |bits|
    ensures ReadsAs(bits, |Bits(done)|, t)
  {
    hide Bits, Expand, Token.Bits, AllOk;
    var more := done + [t];
    Extend(done, t);
    assert ts[..|more|] == more;
    PrefixOf(ts, |more|);
    SliceOfPrefix(Bits(done), t.Bits(), bits);
    Fields(bits, |Bits(done)|, t);
  }

  lemma DecodeOne(done: seq<Token>, read: seq<Color>, prev: Color, t: Token)
    requires Decoded(done, read, prev, 0)
    ensures t.Single? ==> Decoded(done + [t], read + [t.color], t.color, 0)
    ensures !t.Single? ==> Decoded(done + [t], read, prev, t.Span())
  {
    Extend(done, t);
    FillOne(prev);
    assert read + [] == read;
    if t.Single? {
      FillOne(t.color);
      assert (read + [t.color]) + [] == read + [t.color];
    }
  }

  lemma Prefix<T>(s: seq<T>, t: seq<T>, i: nat)
    requires s <= t && i < |s|
    ensures t[i] == s[i]
  {
  }

  lemma SliceOfPrefix<T>(a: seq<T>, b: seq<T>, s: seq<T>)
    requires a + b <= s
    ensures s[|a|..|a| + |b|] == b
  {
    assert s[|a|..|a| + |b|] == (a + b)[|a|..];
  }

  function Width(t: Token): nat {
    match t case Single(_) => 2 case Count(_) => 8 case Order(_) => 7
  }

  /** The fixed-width fields of t, read where it stands. */
  ghost predicate ReadsAs(bits: seq<bool>, at: nat, t: Token)
    requires at + Width(t) <= |bits|
  {
    && BitsInt(bits[at..at + 2]) == (if t.Single? then t.color else BLUE)
    && (t.Count? ==> BitsInt(bits[at + 2..at + 3]) == 0 && BitsInt(bits[at + 3..at + 8]) == t.n)
    && (t.Order? ==> BitsInt(bits[at + 2..at + 3]) == 1 && BitsInt(bits[at + 3..at + 7]) == t.ord)
  }

  /** What the fixed-width fields of a token read as, wherever it stands. */
  lemma Fields(bits: seq<bool>, at: nat, t: Token)
    requires t.Ok()
    requires at + |t.Bits()| <= |bits| && bits[at..at + |t.Bits()|] == t.Bits()
    ensures |t.Bits()| == Width(t)
    ensures ReadsAs(bits, at, t)
  {
    PowersOfTwo();
    match t
    case Single(c) =>
      Field(bits, at, [], c, 2, []);
    case Count(n) =>
      FieldsOfRepeat(bits, at, 0, n, BITS_FOR_COUNT);
    case Order(ord) =>
      FieldsOfRepeat(bits, at, 1, ord, BITS_FOR_ORDER);
  }

  lemma FieldsOfRepeat(bits: seq<bool>, at: nat, kind: nat, arg: nat, width: nat)
    requires kind < 2 && arg < Pow2(width)
    requires at + 3 + width <= |bits|
    requires bits[at..at + 3 + width] == IntBits(BLUE, 2) + IntBits(kind, 1) + IntBits(arg, width)
    ensures BitsInt(bits[at..at + 2]) == BLUE
    ensures BitsInt(bits[at + 2..at + 3]) == kind
    ensures BitsInt(bits[at + 3..at + 3 + width]) == arg
  {
    PowersOfTwo();
    var a, b, c := IntBits(BLUE, 2), IntBits(kind, 1), IntBits(arg, width);
    Assoc(a, b, c);
    assert [] + a + (b + c) == a + b + c;
    assert (a + b) + c + [] == a + b + c;
    Field(bits, at, [], BLUE, 2, b + c);
    Field(bits, at, a, kind, 1, c);
    Field(bits, at, a + b, arg, width, []);
  }

  lemma Field(bits: seq<bool>, at: nat, before: seq<bool>, arg: nat, width: nat, after: seq<bool>)
    requires arg < Pow2(width)
    requires at + |before| + width + |after| <= |bits|
    requires bits[at..at + |before| + width + |after|] == before + IntBits(arg, width) + after
    ensures BitsInt(bits[at + |before|..at + |before| + width]) == arg
  {
    IntBitsInverse(arg, width);
    var code := before + IntBits(arg, width) + after;
    SubSlice(bits, at, |code|, |before|, |before| + width);
    assert code[|before|..|before| + width] == IntBits(arg, width);
  }

  lemma SubSlice<T>(s: seq<T>, at: nat, n: nat, lo: nat, hi: nat)
    requires lo <= hi <= n && at + n <= |s|
    ensures s[at + lo..at + hi] == s[at..at + n][lo..hi]
  {
    var t := s[at..at + n];
    assert |s[at + lo..at + hi]| == |t[lo..hi]|;
    forall i {:trigger t[i]} | lo <= i < hi
      ensures s[at + lo..at + hi][i - lo] == t[lo..hi][i - lo]
    {
      assert t[i] == s[at + i];
    }
  }

  lemma PowersOfTwo()
    ensures Pow2(1) == 2 && Pow2(2) == 4 && Pow2(4) == 16 && Pow2(5) == 32
  {
    assert Pow2(3) == 8;
  }

  lemma {:induction false} Pow2Sum(m: nat, n: nat)
    ensures Pow2(m) * Pow2(n) == Pow2(m + n)
  {
    if m > 0 {
      Pow2Sum(m - 1, n);
    }
  }

  /** Shifting down and setting the top bit keeps the number built so far in place. */
  lemma PlaceTopBit(seen: seq<bool>, bit: nat, w: nat, acc: nat)
    requires bit < 2
    requires acc == Pow2(w + 1) * BitsInt(seen)
    ensures acc / 2 + (if bit != 0 then Pow2(w + |seen|) else 0) == Pow2(w) * BitsInt(seen + [bit == 1])
    ensures acc / 2 < Pow2(w + |seen|)
  {
    var b, p, q := BitsInt(seen), Pow2(w), Pow2(|seen|);
    BitsIntAppend(seen, bit == 1);
    Pow2Sum(w, |seen|);
    BitsIntBound(seen);
    Halve(p, b);
    Below(p, b, q);
    Distribute(p, b, q);
  }

  lemma Halve(p: nat, b: nat)
    ensures (2 * p) * b / 2 == p * b
  {
    assert (2 * p) * b == 2 * (p * b);
  }

  lemma Below(p: nat, b: nat, q: nat)
    requires p > 0 && b < q
    ensures p * b < p * q
  {
  }

  lemma Distribute(p: nat, b: nat, q: nat)
    ensures p * (b + q) == p * b + p * q
  {
  }
}
