/**
 The run-length code in which the object-graph walk keeps the colours it overwrites
 (libs/objsize/c_objsize.c).  This module is the specification side: tokens, their bits,
 what they stand for, and the writer as a state transition on values.
 */
module ColorCodec {
  import opened Sequences

  // Colour numbers of the OCaml collector; 1 is gray and 3 is black.
  const WHITE := 0
  const BLUE := 2

  const BITS_FOR_COUNT := 5
  const BITS_FOR_ORDER := 4
  const MAX_REPEAT_COUNT := 32
  const MAX_REPEAT_ORDER := 16

  type Color = c: nat | c < 4 && c != BLUE witness WHITE

  /** One unit of the stream: a colour, or a repetition of the colour in force. */
  datatype Token = Single(color: Color) | Count(n: nat) | Order(ord: nat) {
    /** The fields fit their widths and no repetition is empty. */
    predicate Ok() {
      match this
      case Single(_) => true
      case Count(n) => 0 < n < MAX_REPEAT_COUNT
      case Order(ord) => ord < MAX_REPEAT_ORDER
    }

    function Span(): nat {
      match this
      case Single(_) => 1
      case Count(n) => n
      case Order(ord) => Pow2(ord)
    }

    function Bits(): seq<bool> {
      match this
      case Single(c) => IntBits(c, 2)
      case Count(n) => IntBits(BLUE, 2) + IntBits(0, 1) + IntBits(n, BITS_FOR_COUNT)
      case Order(ord) => IntBits(BLUE, 2) + IntBits(1, 1) + IntBits(ord, BITS_FOR_ORDER)
    }
  }

  function Pow2(n: nat): (p: nat)
    ensures p > 0
  {
    if n == 0 then 1 else 2 * Pow2(n - 1)
  }

  /** The low `width` bits of `arg`, least significant first. */
  function IntBits(arg: nat, width: nat): (bits: seq<bool>)
    ensures |bits| == width
  {
    if width == 0 then [] else [arg % 2 == 1] + IntBits(arg / 2, width - 1)
  }

  /** The number whose bits, least significant first, are `bits`. */
  function BitsInt(bits: seq<bool>): nat {
    if bits == [] then 0 else (if bits[0] then 1 else 0) + 2 * BitsInt(bits[1..])
  }

  lemma {:induction false} IntBitsInverse(arg: nat, width: nat)
    requires arg < Pow2(width)
    ensures BitsInt(IntBits(arg, width)) == arg
  {
    if width > 0 {
      IntBitsInverse(arg / 2, width - 1);
      assert IntBits(arg, width)[1..] == IntBits(arg / 2, width - 1);
    }
  }

  lemma {:induction false} BitsIntAppend(bits: seq<bool>, b: bool)
    ensures BitsInt(bits + [b]) == BitsInt(bits) + (if b then Pow2(|bits|) else 0)
  {
    if bits == [] {
      assert bits + [b] == [b];
      assert [b][1..] == [];
    } else {
      BitsIntAppend(bits[1..], b);
      assert (bits + [b])[1..] == bits[1..] + [b];
    }
  }

  lemma {:induction false} BitsIntBound(bits: seq<bool>)
    ensures BitsInt(bits) < Pow2(|bits|)
  {
    if bits != [] {
      BitsIntBound(bits[1..]);
    }
  }

  // ----- token sequences -----

  predicate AllOk(ts: seq<Token>) {
    forall i :: 0 <= i < |ts| ==> ts[i].Ok()
  }

  function Front<T>(s: seq<T>): seq<T>
    requires s != []
  {
    s[..|s| - 1]
  }

  function Last<T>(s: seq<T>): T
    requires s != []
  {
    s[|s| - 1]
  }

  function Bits(ts: seq<Token>): seq<bool> {
    if ts == [] then [] else Bits(Front(ts)) + Last(ts).Bits()
  }

  /** The colour in force after `ts`; the coder starts in white. */
  function LastColor(ts: seq<Token>): Color {
    if ts == [] then WHITE
    else if Last(ts).Single? then Last(ts).color
    else LastColor(Front(ts))
  }

  function Fill(c: Color, n: nat): (s: seq<Color>)
    ensures |s| == n && forall i :: 0 <= i < n ==> s[i] == c
  {
    if n == 0 then [] else Fill(c, n - 1) + [c]
  }

  /** The colours a token sequence stands for. */
  function Expand(ts: seq<Token>): seq<Color> {
    if ts == [] then [] else Expand(Front(ts)) + Fill(LastColor(ts), Last(ts).Span())
  }

  lemma Extend(ts: seq<Token>, t: Token)
    ensures Bits(ts + [t]) == Bits(ts) + t.Bits()
    ensures LastColor(ts + [t]) == if t.Single? then t.color else LastColor(ts)
    ensures Expand(ts + [t]) == Expand(ts) + Fill(LastColor(ts + [t]), t.Span())
  {
    assert Front(ts + [t]) == ts;
  }

  /** Bits and colours of a prefix are prefixes; every further token adds at least one colour. */
  lemma {:induction false} PrefixOf(ts: seq<Token>, k: nat)
    requires AllOk(ts) && k <= |ts|
    ensures Bits(ts[..k]) <= Bits(ts)
    ensures Expand(ts[..k]) <= Expand(ts)
    ensures k < |ts| ==> |Expand(ts[..k])| < |Expand(ts)|
  {
    if k == |ts| {
      assert ts[..k] == ts;
    } else {
      PrefixOf(Front(ts), k);
      assert Front(ts)[..k] == ts[..k];
      assert Last(ts).Span() > 0;
    }
  }

  // ----- the writer -----

  /** The largest power the writer tries for a run of n: ord rises while 2^ord <= n/2, up to 15. */
  function OrderFrom(n: nat, ord: nat): (r: nat)
    requires ord < MAX_REPEAT_ORDER
    requires Pow2(ord) <= n
    ensures ord <= r < MAX_REPEAT_ORDER
    ensures Pow2(ord) <= Pow2(r) <= n
    decreases MAX_REPEAT_ORDER - ord
  {
    if ord < MAX_REPEAT_ORDER - 1 && Pow2(ord) <= n / 2 then OrderFrom(n, ord + 1) else ord
  }

  lemma OrderTakesSixteen(n: nat)
    requires n >= MAX_REPEAT_COUNT
    ensures Pow2(OrderFrom(n, 0)) >= 16
  {
    assert Pow2(1) == 2 && Pow2(2) == 4 && Pow2(3) == 8 && Pow2(4) == 16;
    assert OrderFrom(n, 0) == OrderFrom(n, 1) == OrderFrom(n, 2) == OrderFrom(n, 3) == OrderFrom(n, 4);
  }

  function RepeatTokens(n: nat): (ts: seq<Token>)
    ensures AllOk(ts)
  {
    if n >= MAX_REPEAT_COUNT then
      var ord := OrderFrom(n, 0);
      [Order(ord)] + RepeatTokens(n - Pow2(ord))
    else if n > 0 then [Count(n)]
    else []
  }

  lemma {:induction false} Concat(ts: seq<Token>, us: seq<Token>)
    ensures Bits(ts + us) == Bits(ts) + Bits(us)
    decreases |us|
  {
    if us == [] {
      assert ts + us == ts;
    } else {
      var init, t := Front(us), Last(us);
      assert us == init + [t];
      calc {
        Bits(ts + us);
        { Assoc(ts, init, [t]); }
        Bits((ts + init) + [t]);
        { Extend(ts + init, t); }
        Bits(ts + init) + t.Bits();
        { Concat(ts, init); }
        (Bits(ts) + Bits(init)) + t.Bits();
        { Assoc(Bits(ts), Bits(init), t.Bits()); }
        Bits(ts) + (Bits(init) + t.Bits());
        Bits(ts) + Bits(us);
      }
    }
  }

  lemma FillSum(c: Color, m: nat, n: nat)
    ensures Fill(c, m) + Fill(c, n) == Fill(c, m + n)
  {
  }

  /** One repetition token in front of tokens that add m copies of the colour adds Span more. */
  lemma RepeatStep(ts: seq<Token>, t: Token, us: seq<Token>, m: nat)
    requires !t.Single?
    requires LastColor((ts + [t]) + us) == LastColor(ts + [t])
    requires Expand((ts + [t]) + us) == Expand(ts + [t]) + Fill(LastColor(ts + [t]), m)
    ensures LastColor(ts + ([t] + us)) == LastColor(ts)
    ensures Expand(ts + ([t] + us)) == Expand(ts) + Fill(LastColor(ts), t.Span() + m)
  {
    var c, n := LastColor(ts), t.Span();
    Assoc(ts, [t], us);
    Extend(ts, t);
    Assoc(Expand(ts), Fill(c, n), Fill(c, m));
    FillSum(c, n, m);
  }

  /** Appending the tokens of a run of n appends n copies of the colour in force. */
  lemma {:induction false} RepeatTokensExpand(ts: seq<Token>, n: nat)
    ensures LastColor(ts + RepeatTokens(n)) == LastColor(ts)
    ensures Expand(ts + RepeatTokens(n)) == Expand(ts) + Fill(LastColor(ts), n)
    decreases n
  {
    hide Expand, LastColor, Fill, OrderFrom, AllOk;
    if n >= MAX_REPEAT_COUNT {
      var t := Order(OrderFrom(n, 0));
      var m := n - t.Span();
      RepeatTokensExpand(ts + [t], m);
      RepeatStep(ts, t, RepeatTokens(m), m);
    } else if n > 0 {
      Extend(ts, Count(n));
    } else {
      assert ts + [] == ts;
      FillOne(LastColor(ts));
      assert Expand(ts) + [] == Expand(ts);
    }
  }

  lemma RepeatsEnd(n: nat)
    requires n < MAX_REPEAT_COUNT
    ensures RepeatTokens(n) == if n > 0 then [Count(n)] else []
  {
  }

  lemma RepeatsInFront(ts: seq<Token>, n: nat)
    requires n >= MAX_REPEAT_COUNT
    ensures var ord := OrderFrom(n, 0);
      ts + RepeatTokens(n) == (ts + [Order(ord)]) + RepeatTokens(n - Pow2(ord))
  {
    hide OrderFrom, AllOk;
    var ord := OrderFrom(n, 0);
    Assoc(ts, [Order(ord)], RepeatTokens(n - Pow2(ord)));
  }

  lemma {:induction false} RepeatTokensBits(n: nat)
    ensures |Bits(RepeatTokens(n))| <= 5 * n + 3
    ensures n == 0 ==> Bits(RepeatTokens(n)) == []
  {
    hide Bits, OrderFrom;
    NoBits();
    if n >= MAX_REPEAT_COUNT {
      var t := Order(OrderFrom(n, 0));
      OrderTakesSixteen(n);
      RepeatTokensBits(n - t.Span());
      Concat([t], RepeatTokens(n - t.Span()));
      OneToken(t);
    } else if n > 0 {
      OneToken(Count(n));
    }
  }

  lemma NoBits()
    ensures Bits([]) == []
  {
  }

  lemma OneToken(t: Token)
    ensures |Bits([t])| == |t.Bits()| <= 8
  {
    assert [] + [t] == [t];
    Extend([], t);
  }

  /** The coder's state: what has been put in the stream, the colour in force, the pending run. */
  datatype RleState = RleState(tokens: seq<Token>, prev: Color, rep: nat)

  const INIT := RleState([], WHITE, 0)

  function Flush(s: RleState): RleState {
    RleState(s.tokens + RepeatTokens(s.rep), s.prev, 0)
  }

  function WriteStep(s: RleState, c: Color): RleState {
    if s.prev == c then s.(rep := s.rep + 1)
    else RleState(Flush(s).tokens + [Single(c)], c, 0)
  }

  function WriteAll(cs: seq<Color>): RleState {
    if cs == [] then INIT else WriteStep(WriteAll(Front(cs)), Last(cs))
  }

  lemma FlushedOutput(s: RleState)
    requires AllOk(s.tokens) && s.prev == LastColor(s.tokens)
    ensures var f := Flush(s).tokens;
      && AllOk(f)
      && LastColor(f) == s.prev
      && Expand(f) == Expand(s.tokens) + Fill(s.prev, s.rep)
      && |Bits(f)| <= |Bits(s.tokens)| + 5 * s.rep + 3
  {
    RepeatTokensExpand(s.tokens, s.rep);
    RepeatTokensBits(s.rep);
    Concat(s.tokens, RepeatTokens(s.rep));
  }

  /** What holds after the colours `cs` have been written. */
  ghost predicate Wrote(s: RleState, cs: seq<Color>) {
    && AllOk(s.tokens)
    && s.prev == LastColor(s.tokens)
    && Expand(s.tokens) + Fill(s.prev, s.rep) == cs
    && |Bits(s.tokens)| + 5 * s.rep <= 5 * |cs|
    && s.rep <= |cs|
  }

  lemma WriterStepInvariant(s: RleState, cs: seq<Color>, c: Color)
    requires Wrote(s, cs)
    ensures Wrote(WriteStep(s, c), cs + [c])
  {
    if s.prev == c {
      Assoc(Expand(s.tokens), Fill(c, s.rep), [c]);
    } else {
      FlushedOutput(s);
      Extend(Flush(s).tokens, Single(c));
      FillOne(c);
    }
  }

  lemma FillOne(c: Color)
    ensures Fill(c, 0) == [] && Fill(c, 1) == [c]
  {
  }

  lemma {:induction false} WriterInvariant(cs: seq<Color>)
    ensures Wrote(WriteAll(cs), cs)
  {
    if cs != [] {
      WriterInvariant(Front(cs));
      WriterStepInvariant(WriteAll(Front(cs)), Front(cs), Last(cs));
      assert cs == Front(cs) + [Last(cs)];
    }
  }

  /**
   Whatever colours are written and flushed, the stream stands for exactly those colours,
   and it is at most 5n+3 bits long.
   */
  lemma RoundTrip(cs: seq<Color>)
    ensures var ts := Flush(WriteAll(cs)).tokens;
      && AllOk(ts)
      && Expand(ts) == cs
      && |Bits(ts)| <= 5 * |cs| + 3
  {
    WriterInvariant(cs);
    FlushedOutput(WriteAll(cs));
  }
}
