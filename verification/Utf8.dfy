/**
 UTF-8 strings of 31-bit code points (libs/extlib-leftovers/uTF8.ml).  Strings are sequences of
 bytes.  The partner of the source's functions is the table of RFC 2279 section 2: a head byte
 that gives the number of continuation bytes, and six bits of the code point in each of those.
 */
module Utf8 {
  import opened Sequences

  type Byte = n: int | 0 <= n < 0x100

  datatype Result<T> = Ok(value: T) | InvalidArg | MalformedCode

  // ------------------------------------------------------------------ the table

  /** k without its c lowest groups of six bits. */
  function Shifted(k: nat, c: nat): nat {
    if c == 0 then k else Shifted(k / 64, c - 1)
  }

  /** The continuation bytes of k, c of them. */
  function Tail(k: nat, c: nat): (t: seq<Byte>)
    ensures |t| == c && Conts(t)
    decreases c
  {
    if c == 0 then [] else Tail(k / 64, c - 1) + [0x80 + k % 64]
  }

  predicate Conts(t: seq<Byte>) {
    forall j :: 0 <= j < |t| ==> 0x80 <= t[j] < 0xc0
  }

  /** What is spelled by a, six bits further for every byte of t. */
  function Value(a: nat, t: seq<Byte>): nat
    requires Conts(t)
    decreases |t|
  {
    if t == [] then a else Value(a * 64 + (t[0] - 0x80), t[1..])
  }

  /** How many continuation bytes k takes. */
  function Extra(k: nat): (c: nat)
    ensures c <= 5
  {
    if k < 0x80 then 0 else if k < 0x800 then 1 else if k < 0x10000 then 2
    else if k < 0x200000 then 3 else if k < 0x4000000 then 4 else 5
  }

  /** The least head byte before c continuation bytes. */
  function Base(c: nat): nat
    requires c <= 5
  {
    if c == 0 then 0 else if c == 1 then 0xc0 else if c == 2 then 0xe0
    else if c == 3 then 0xf0 else if c == 4 then 0xf8 else 0xfc
  }

  predicate Code(k: int) {
    0 <= k < 0x80000000
  }

  lemma ShiftedBounds(k: nat)
    ensures Shifted(k, 0) == k && Shifted(k, 1) == k / 0x40 && Shifted(k, 2) == k / 0x1000
    ensures Shifted(k, 3) == k / 0x40000 && Shifted(k, 4) == k / 0x1000000 && Shifted(k, 5) == k / 0x40000000
  {
    var k1, k2, k3, k4, k5 := k / 64, k / 64 / 64, k / 64 / 64 / 64, k / 64 / 64 / 64 / 64, k / 64 / 64 / 64 / 64 / 64;
    assert Shifted(k4, 1) == Shifted(k5, 0);
    assert Shifted(k3, 2) == Shifted(k4, 1) && Shifted(k3, 1) == Shifted(k4, 0);
    assert Shifted(k2, 3) == Shifted(k3, 2) && Shifted(k2, 2) == Shifted(k3, 1) && Shifted(k2, 1) == Shifted(k3, 0);
    assert Shifted(k1, 4) == Shifted(k2, 3) && Shifted(k1, 3) == Shifted(k2, 2) && Shifted(k1, 2) == Shifted(k2, 1);
  }

  /** The byte in front of the continuation bytes. */
  function HeadOf(k: nat): nat {
    Base(Extra(k)) + Shifted(k, Extra(k))
  }

  lemma HeadBounds(k: nat)
    requires Code(k)
    ensures var c, h := Extra(k), HeadOf(k);
      (c == 0 && h < 0x80) || (c == 1 && 0xc2 <= h <= 0xdf) || (c == 2 && 0xe0 <= h <= 0xef)
      || (c == 3 && 0xf0 <= h <= 0xf7) || (c == 4 && 0xf8 <= h <= 0xfb) || (c == 5 && 0xfc <= h <= 0xfd)
  {
    ShiftedBounds(k);
  }

  /** The encoding of one code point. */
  function Enc(k: nat): (e: seq<Byte>)
    requires Code(k)
    ensures |e| == Extra(k) + 1
  {
    HeadBounds(k);
    [HeadOf(k)] + Tail(k, Extra(k))
  }

  predicate Codes(ks: seq<nat>) {
    forall k :: k in ks ==> Code(k)
  }

  function EncodeAll(ks: seq<nat>): seq<Byte>
    requires Codes(ks)
  {
    if ks == [] then [] else Enc(ks[0]) + EncodeAll(ks[1..])
  }

  // ------------------------------------------------------------------ continuation bytes spell numbers

  lemma ValueStep(a: nat, c: Byte, t: seq<Byte>)
    requires 0x80 <= c < 0xc0 && Conts(t)
    ensures Conts([c] + t) && Value(a, [c] + t) == Value(a * 64 + (c - 0x80), t)
  {
    assert ([c] + t)[1..] == t;
  }

  lemma ContsSnoc(t: seq<Byte>, b: Byte)
    requires Conts(t) && 0x80 <= b < 0xc0
    ensures Conts(t + [b])
  {
  }

  lemma {:induction false} ValueSnoc(a: nat, t: seq<Byte>, b: Byte)
    requires Conts(t) && 0x80 <= b < 0xc0
    ensures Conts(t + [b]) && Value(a, t + [b]) == Value(a, t) * 64 + (b - 0x80)
    decreases |t|
  {
    ContsSnoc(t, b);
    if t == [] {
      ValueStep(a, b, []);
      assert t + [b] == [b] + [];
    } else {
      var c, rest := t[0], t[1..];
      ValueSnoc(a * 64 + (c - 0x80), rest, b);
      ContsSnoc(rest, b);
      ValueStep(a, c, rest + [b]);
      assert t + [b] == [c] + (rest + [b]);
    }
  }

  lemma {:induction false} TailSpells(k: nat, c: nat)
    ensures Value(Shifted(k, c), Tail(k, c)) == k
  {
    if c == 0 {
    } else {
      TailSpells(k / 64, c - 1);
      ValueSnoc(Shifted(k, c), Tail(k / 64, c - 1), 0x80 + k % 64);
    }
  }

  lemma {:induction false} SpelledTail(a: nat, t: seq<Byte>)
    requires Conts(t)
    ensures Tail(Value(a, t), |t|) == t
    ensures Shifted(Value(a, t), |t|) == a
    decreases |t|
  {
    if t == [] {
    } else {
      var m := |t| - 1;
      var u, b := t[..m], t[m];
      assert t == u + [b];
      ValueSnoc(a, u, b);
      SpelledTail(a, u);
      var v, w := Value(a, t), Value(a, u);
      assert v / 64 == w && v % 64 == b - 0x80;
    }
  }

  // ------------------------------------------------------------------ validate

  /** trail: c continuation bytes from i, after a. */
  function Trail(s: seq<Byte>, c: nat, i: nat, a: nat): Result<nat> {
    if c == 0 then Ok(a)
    else if i >= |s| then MalformedCode
    else
      var n := s[i];
      if n < 0x80 || n >= 0xc0 then MalformedCode
      else Trail(s, c - 1, i + 1, a * 64 + (n - 0x80))
  }

  /** main: everything from i. */
  function Check(s: seq<Byte>, i: nat): Result<()>
    decreases |s| - i
  {
    if i >= |s| then Ok(())
    else
      var n := s[i];
      if n < 0x80 then Check(s, i + 1)
      else if n < 0xc2 then MalformedCode
      else if n <= 0xdf then
        var v := Trail(s, 1, i + 1, n - 0xc0);
        if !v.Ok? || v.value < 0x80 then MalformedCode else Check(s, i + 2)
      else if n <= 0xef then
        var v := Trail(s, 2, i + 1, n - 0xe0);
        if !v.Ok? || v.value < 0x800 then MalformedCode else Check(s, i + 3)
      else if n <= 0xf7 then
        var v := Trail(s, 3, i + 1, n - 0xf0);
        if !v.Ok? || v.value < 0x10000 then MalformedCode else Check(s, i + 4)
      else if n <= 0xfb then
        var v := Trail(s, 4, i + 1, n - 0xf8);
        if !v.Ok? || v.value < 0x200000 then MalformedCode else Check(s, i + 5)
      else if n <= 0xfd then
        var v := Trail(s, 5, i + 1, n - 0xfc);
        if !v.Ok? || v.value / 0x10000 < 0x400 then MalformedCode else Check(s, i + 6)
      else MalformedCode
  }

  function Validate(s: seq<Byte>): Result<()> {
    Check(s, 0)
  }

  lemma {:induction false} TrailSpells(s: seq<Byte>, c: nat, i: nat, a: nat)
    ensures Trail(s, c, i, a).Ok? <==> c == 0 || (i + c <= |s| && Conts(s[i..i + c]))
    ensures c > 0 && Trail(s, c, i, a).Ok? ==> Trail(s, c, i, a).value == Value(a, s[i..i + c])
    decreases c
  {
    if c > 0 && i < |s| && 0x80 <= s[i] < 0xc0 {
      var a' := a * 64 + (s[i] - 0x80);
      TrailSpells(s, c - 1, i + 1, a');
      if i + c <= |s| {
        assert s[i..i + c] == [s[i]] + s[i + 1..i + c];
        if Conts(s[i + 1..i + c]) {
          assert Conts(s[i..i + c]);
          assert s[i..i + c][1..] == s[i + 1..i + c];
        }
        assert s[i + 1..i + c] == s[i..i + c][1..];
      }
    } else if c > 0 && i + c <= |s| {
      assert s[i..i + c][0] == s[i];
    }
  }

  // ------------------------------------------------------------------ one encoded code point

  /** The encoding of k stands at i. */
  predicate At(s: seq<Byte>, i: nat, k: nat) {
    Code(k) && i + Extra(k) < |s| && s[i..i + Extra(k) + 1] == Enc(k)
  }

  lemma AtParts(s: seq<Byte>, i: nat, k: nat)
    requires At(s, i, k)
    ensures Code(k) && i + Extra(k) < |s|
    ensures s[i] == Base(Extra(k)) + Shifted(k, Extra(k))
    ensures s[i + 1..i + 1 + Extra(k)] == Tail(k, Extra(k))
    ensures Trail(s, Extra(k), i + 1, Shifted(k, Extra(k))) == Ok(k)
    ensures forall j :: i < j <= i + Extra(k) ==> 0x80 <= s[j] < 0xc0
  {
    hide Trail, Shifted, Tail, Value;
    var c := Extra(k);
    var e := s[i..i + c + 1];
    assert e[0] == s[i] && e[1..] == s[i + 1..i + 1 + c];
    assert Enc(k)[1..] == Tail(k, c);
    TrailSpells(s, c, i + 1, Shifted(k, c));
    TailSpells(k, c);
    NoTrail(s, i + 1, k);
    forall j | i < j <= i + c
      ensures 0x80 <= s[j] < 0xc0
    {
      assert s[j] == Tail(k, c)[j - i - 1];
    }
  }

  /** The other way: a head byte and continuation bytes that spell v, of the size v needs. */
  lemma AtSpelled(s: seq<Byte>, i: nat, c: nat, v: nat)
    requires c <= 5 && i < |s| && s[i] >= Base(c)
    requires Trail(s, c, i + 1, s[i] - Base(c)) == Ok(v)
    requires Code(v) && Extra(v) == c
    ensures At(s, i, v)
  {
    hide Trail, Shifted, Tail, Value, Conts;
    var a := s[i] - Base(c);
    TrailSpells(s, c, i + 1, a);
    NoTrail(s, i + 1, a);
    if c > 0 {
      var t := s[i + 1..i + 1 + c];
      SpelledTail(a, t);
      assert s[i..i + c + 1] == [s[i]] + t;
    } else {
      assert s[i..i + 1] == [s[i]];
    }
  }

  lemma CheckAt(s: seq<Byte>, i: nat, k: nat)
    requires At(s, i, k)
    ensures Check(s, i) == Check(s, i + Extra(k) + 1)
  {
    hide Shifted, Tail, Trail, Enc, At;
    AtParts(s, i, k);
    HeadBounds(k);
    NoTrail(s, i + 1, k);
  }

  lemma NoTrail(s: seq<Byte>, i: nat, k: nat)
    ensures Shifted(k, 0) == k && Tail(k, 0) == [] && Trail(s, 0, i, k) == Ok(k)
  {
  }

  /** A byte string that passes begins with a code point, and the rest passes. */
  lemma CheckGives(s: seq<Byte>, i: nat) returns (k: nat)
    requires i < |s| && Check(s, i).Ok?
    ensures At(s, i, k) && Check(s, i + Extra(k) + 1).Ok?
  {
    hide Shifted, Tail, Trail, Enc, At;
    var n := s[i];
    var c := if n < 0x80 then 0 else if n <= 0xdf then 1 else if n <= 0xef then 2
             else if n <= 0xf7 then 3 else if n <= 0xfb then 4 else 5;
    NoTrail(s, i + 1, n);
    k := Spelled(s, i, c);
    AtSpelled(s, i, c, k);
  }

  /** What the continuation bytes spell is below the limit that the head byte sets. */
  lemma Spelled(s: seq<Byte>, i: nat, c: nat) returns (v: nat)
    requires i < |s| && c <= 5
    requires Base(c) <= s[i] < (if c == 0 then 0x80 else if c == 5 then 0xfe else Base(c + 1))
    requires Trail(s, c, i + 1, s[i] - Base(c)).Ok?
    ensures Trail(s, c, i + 1, s[i] - Base(c)) == Ok(v)
    ensures v < [0x80, 0x800, 0x10000, 0x200000, 0x4000000, 0x80000000][c]
  {
    hide Trail, Shifted, Tail, Value;
    var a := s[i] - Base(c);
    NoTrail(s, i + 1, a);
    v := Trail(s, c, i + 1, a).value;
    TrailSpells(s, c, i + 1, a);
    if c > 0 {
      SpelledTail(a, s[i + 1..i + 1 + c]);
      ShiftedLimit(v, c);
    }
  }

  lemma ShiftedLimit(v: nat, c: nat)
    requires 1 <= c <= 5 && Base(c) + Shifted(v, c) < if c == 5 then 0xfe else Base(c + 1)
    ensures v < [0x80, 0x800, 0x10000, 0x200000, 0x4000000, 0x80000000][c]
  {
    hide Shifted;
    ShiftedBounds(v);
    if c == 1 {
      assert v / 0x40 < 0x20;
    } else if c == 2 {
      assert v / 0x1000 < 0x10;
    } else if c == 3 {
      assert v / 0x40000 < 8;
    } else if c == 4 {
      assert v / 0x1000000 < 4;
    } else {
      assert v / 0x40000000 < 2;
    }
  }

  // ------------------------------------------------------------------ whole strings

  /** Where character n begins; Offset(ks, |ks|) is the end. */
  function Offset(ks: seq<nat>, n: nat): nat
    requires n <= |ks|
  {
    if n == 0 then 0 else Extra(ks[0]) + 1 + Offset(ks[1..], n - 1)
  }

  lemma AtShift(pre: seq<Byte>, s: seq<Byte>, i: nat, k: nat)
    requires At(s, i, k)
    ensures At(pre + s, |pre| + i, k)
  {
    assert (pre + s)[|pre| + i..|pre| + i + Extra(k) + 1] == s[i..i + Extra(k) + 1];
  }

  lemma AtStart(k: nat, rest: seq<Byte>)
    requires Code(k)
    ensures At(Enc(k) + rest, 0, k)
  {
    assert (Enc(k) + rest)[0..Extra(k) + 1] == Enc(k);
  }

  /** Every character of an encoded string stands at its offset, and they follow one another. */
  lemma {:induction false} Positions(ks: seq<nat>, n: nat)
    requires Codes(ks) && n < |ks|
    ensures At(EncodeAll(ks), Offset(ks, n), ks[n])
    ensures Offset(ks, n + 1) == Offset(ks, n) + Extra(ks[n]) + 1
    decreases n
  {
    hide At, Tail, Shifted, Extra;
    var e, rest := Enc(ks[0]), EncodeAll(ks[1..]);
    if n == 0 {
      AtStart(ks[0], rest);
      assert Offset(ks[1..], 0) == 0;
    } else {
      Positions(ks[1..], n - 1);
      AtShift(e, rest, Offset(ks[1..], n - 1), ks[n]);
    }
  }

  lemma {:induction false} EndOffset(ks: seq<nat>)
    requires Codes(ks)
    ensures Offset(ks, |ks|) == |EncodeAll(ks)|
    decreases |ks|
  {
    if ks != [] {
      EndOffset(ks[1..]);
    }
  }

  lemma {:induction false} CheckEncoded(ks: seq<nat>, n: nat)
    requires Codes(ks) && n <= |ks|
    ensures Check(EncodeAll(ks), Offset(ks, n)) == Ok(())
    decreases |ks| - n
  {
    hide EncodeAll, Enc, At, Tail, Shifted, Offset, Trail;
    if n == |ks| {
      EndOffset(ks);
    } else {
      CheckEncoded(ks, n + 1);
      Positions(ks, n);
      CheckAt(EncodeAll(ks), Offset(ks, n), ks[n]);
    }
  }

  lemma AtSlice(s: seq<Byte>, i: nat, k: nat)
    requires At(s, i, k)
    ensures Code(k) && i + Extra(k) < |s| && s[i..i + Extra(k) + 1] == Enc(k)
  {
  }

  lemma {:induction false} CheckedIsEncoded(s: seq<Byte>, i: nat) returns (ks: seq<nat>)
    requires i <= |s| && Check(s, i).Ok?
    ensures Codes(ks) && s[i..] == EncodeAll(ks)
    decreases |s| - i
  {
    hide Check, Enc, Code, At;
    if i == |s| {
      ks := [];
    } else {
      var k := CheckGives(s, i);
      AtSlice(s, i, k);
      var j := i + Extra(k) + 1;
      var rest := CheckedIsEncoded(s, j);
      ks := [k] + rest;
      assert ks[1..] == rest;
      assert s[i..] == s[i..j] + s[j..];
    }
  }

  /** validate accepts exactly the concatenations of encoded code points below 2^31. */
  lemma ValidateIff(s: seq<Byte>)
    ensures Validate(s).Ok? <==> exists ks :: Codes(ks) && EncodeAll(ks) == s
  {
    if Validate(s).Ok? {
      var ks := CheckedIsEncoded(s, 0);
      assert s[0..] == s;
      assert Codes(ks) && EncodeAll(ks) == s;
    }
    forall ks | Codes(ks) && EncodeAll(ks) == s
      ensures Validate(s).Ok?
    {
      CheckEncoded(ks, 0);
    }
  }

  // ------------------------------------------------------------------ look, next, length, nth

  /** hi lsl 6 lor x, for 0 <= x < 128: bit 6 of x falls on the lowest bit of hi. */
  function LslLor(hi: int, x: int): int {
    hi * 64 + x % 64 + (if x >= 64 && hi % 2 == 0 then 64 else 0)
  }

  /** The groups of look, c of them from i; 0x7f land b keeps seven bits. */
  function LookGroups(s: seq<Byte>, i: nat, c: nat, n': int): int
    requires i + c <= |s|
    decreases c
  {
    if c == 0 then n' else LookGroups(s, i + 1, c - 1, LslLor(n', s[i] % 0x80))
  }

  /** The last byte is read first, and its bounds are checked. */
  function LookAfter(s: seq<Byte>, i: nat, c: nat, n': int): Result<int> {
    if i + c >= |s| then InvalidArg else Ok(LookGroups(s, i + 1, c, n'))
  }

  function Look(s: seq<Byte>, i: int): Result<int> {
    if i < 0 || i >= |s| then InvalidArg
    else
      var n: int := s[i];
      if n < 0x80 then Ok(n)
      else if n <= 0xdf then LookAfter(s, i, 1, n - 0xc0)
      else if n <= 0xef then LookAfter(s, i, 2, n - 0xe0)
      else if n <= 0xf7 then LookAfter(s, i, 3, n - 0xf0)
      else if n <= 0xfb then LookAfter(s, i, 4, n - 0xf8)
      else if n <= 0xfd then LookAfter(s, i, 5, n - 0xfc)
      else InvalidArg
  }

  predicate Head(n: Byte) {
    n < 0x80 || n >= 0xc2
  }

  function SearchHead(s: seq<Byte>, i: nat): (j: nat)
    ensures j >= i
    decreases |s| - i
  {
    if i >= |s| then i else if Head(s[i]) then i else SearchHead(s, i + 1)
  }

  function Next(s: seq<Byte>, i: int): (r: Result<nat>)
    ensures r.Ok? ==> 0 <= i < |s| && r.value > i
  {
    if i < 0 || i >= |s| then InvalidArg
    else
      var n := s[i];
      if n < 0x80 then Ok(i + 1)
      else if n < 0xc0 then Ok(SearchHead(s, i + 1))
      else if n <= 0xdf then Ok(i + 2)
      else if n <= 0xef then Ok(i + 3)
      else if n <= 0xf7 then Ok(i + 4)
      else if n <= 0xfb then Ok(i + 5)
      else if n <= 0xfd then Ok(i + 6)
      else InvalidArg
  }

  function SearchHeadBackward(s: seq<Byte>, i: int): Result<int>
    decreases i
  {
    if i < 0 then Ok(-1)
    else if i >= |s| then InvalidArg
    else if Head(s[i]) then Ok(i)
    else SearchHeadBackward(s, i - 1)
  }

  function Prev(s: seq<Byte>, i: int): Result<int> {
    SearchHeadBackward(s, i - 1)
  }

  function Last(s: seq<Byte>): Result<int> {
    SearchHeadBackward(s, |s| - 1)
  }

  function NthAux(s: seq<Byte>, i: nat, n: int): Result<nat>
    decreases |s| - i
  {
    if n == 0 then Ok(i)
    else
      var j := Next(s, i);
      if j.Ok? then NthAux(s, j.value, n - 1) else j
  }

  function Nth(s: seq<Byte>, n: int): Result<nat> {
    NthAux(s, 0, n)
  }

  function LengthAux(s: seq<Byte>, c: nat, i: nat): Result<nat>
    decreases |s| - i
  {
    if i >= |s| then Ok(c)
    else
      var n := s[i];
      if n < 0x80 then LengthAux(s, c + 1, i + 1)
      else if n < 0xc0 then InvalidArg
      else if n < 0xe0 then LengthAux(s, c + 1, i + 2)
      else if n < 0xf0 then LengthAux(s, c + 1, i + 3)
      else if n < 0xf8 then LengthAux(s, c + 1, i + 4)
      else if n < 0xfc then LengthAux(s, c + 1, i + 5)
      else if n < 0xfe then LengthAux(s, c + 1, i + 6)
      else InvalidArg
  }

  function Length(s: seq<Byte>): Result<nat> {
    LengthAux(s, 0, 0)
  }

  /** What iter hands to its procedure, from i on. */
  function IterAux(s: seq<Byte>, i: nat): Result<seq<int>>
    decreases |s| - i
  {
    if i >= |s| then Ok([])
    else
      var u, j := Look(s, i), Next(s, i);
      if !u.Ok? || !j.Ok? then InvalidArg
      else
        var rest := IterAux(s, j.value);
        if rest.Ok? then Ok([u.value] + rest.value) else rest
  }

  function Iter(s: seq<Byte>): Result<seq<int>> {
    IterAux(s, 0)
  }

  function Get(s: seq<Byte>, n: int): Result<int> {
    var i := Nth(s, n);
    if i.Ok? then Look(s, i.value) else InvalidArg
  }

  lemma {:induction false} GroupsSpell(s: seq<Byte>, i: nat, c: nat, a: nat)
    requires Trail(s, c, i, a).Ok? && i + c <= |s|
    ensures LookGroups(s, i, c, a) == Trail(s, c, i, a).value
    decreases c
  {
    if c > 0 {
      assert LslLor(a, s[i] % 0x80) == a * 64 + (s[i] - 0x80);
      GroupsSpell(s, i + 1, c - 1, a * 64 + (s[i] - 0x80));
    }
  }

  lemma OneCharacter(s: seq<Byte>, i: nat, k: nat)
    requires At(s, i, k)
    ensures Look(s, i) == Ok(k) && Next(s, i) == Ok(i + Extra(k) + 1) && Head(s[i])
    ensures forall c: nat :: LengthAux(s, c, i) == LengthAux(s, c + 1, i + Extra(k) + 1)
  {
    hide Shifted, Tail, Trail, Enc, At, LookGroups;
    AtParts(s, i, k);
    HeadBounds(k);
    NoTrail(s, i + 1, k);
    GroupsSpell(s, i + 1, Extra(k), Shifted(k, Extra(k)));
  }

  /** look, next and get on an encoded string. */
  lemma LookNext(ks: seq<nat>, n: nat)
    requires Codes(ks) && n < |ks|
    ensures Look(EncodeAll(ks), Offset(ks, n)) == Ok(ks[n])
    ensures Next(EncodeAll(ks), Offset(ks, n)) == Ok(Offset(ks, n + 1))
  {
    hide Enc, EncodeAll, At, Tail, Shifted, Offset, Look, Next;
    Positions(ks, n);
    OneCharacter(EncodeAll(ks), Offset(ks, n), ks[n]);
  }

  lemma {:induction false} LengthFrom(ks: seq<nat>, n: nat, c: nat)
    requires Codes(ks) && n <= |ks|
    ensures LengthAux(EncodeAll(ks), c, Offset(ks, n)) == Ok(c + |ks| - n)
    decreases |ks| - n
  {
    hide EncodeAll, Enc, At, Tail, Shifted, Offset, Trail;
    if n == |ks| {
      EndOffset(ks);
    } else {
      LengthFrom(ks, n + 1, c + 1);
      Positions(ks, n);
      OneCharacter(EncodeAll(ks), Offset(ks, n), ks[n]);
    }
  }

  lemma LengthCounts(ks: seq<nat>)
    requires Codes(ks)
    ensures Length(EncodeAll(ks)) == Ok(|ks|)
  {
    LengthFrom(ks, 0, 0);
  }

  lemma NextInBounds(s: seq<Byte>, i: int)
    ensures i >= |s| ==> Next(s, i) == InvalidArg
  {
  }

  lemma {:induction false} NthFrom(ks: seq<nat>, m: nat, n: int)
    requires Codes(ks) && m <= |ks|
    ensures NthAux(EncodeAll(ks), Offset(ks, m), n) == if 0 <= n <= |ks| - m then Ok(Offset(ks, m + n)) else InvalidArg
    decreases |ks| - m
  {
    hide EncodeAll, Enc, At, Tail, Shifted, Offset, Trail, Next;
    NextInBounds(EncodeAll(ks), Offset(ks, m));
    if n != 0 {
      EndOffset(ks);
      if m < |ks| {
        LookNext(ks, m);
        NthFrom(ks, m + 1, n - 1);
      }
    }
  }

  /** nth answers exactly the numbers from 0 to the length. */
  lemma NthIsOffset(ks: seq<nat>, n: int)
    requires Codes(ks)
    ensures Nth(EncodeAll(ks), n) == if 0 <= n <= |ks| then Ok(Offset(ks, n)) else InvalidArg
    ensures Get(EncodeAll(ks), n) == if 0 <= n < |ks| then Ok(ks[n]) else InvalidArg
  {
    hide Enc, EncodeAll, Offset, NthAux, Look, Next;
    Beginning(ks);
    NthFrom(ks, 0, n);
    EndOffset(ks);
    if 0 <= n < |ks| {
      LookNext(ks, n);
    } else if n == |ks| {
      LookOutside(EncodeAll(ks), |EncodeAll(ks)|);
    }
  }

  lemma Beginning(ks: seq<nat>)
    ensures Offset(ks, 0) == 0
  {
  }

  lemma LookOutside(s: seq<Byte>, i: nat)
    requires i >= |s|
    ensures Look(s, i) == InvalidArg
  {
  }

  lemma {:induction false} IterFrom(ks: seq<nat>, n: nat)
    requires Codes(ks) && n <= |ks|
    ensures IterAux(EncodeAll(ks), Offset(ks, n)) == Ok(ks[n..])
    decreases |ks| - n
  {
    hide EncodeAll, Enc, At, Tail, Shifted, Offset, Look, Next;
    EndOffset(ks);
    if n == |ks| {
      assert ks[n..] == [];
    } else {
      IterFrom(ks, n + 1);
      LookNext(ks, n);
      Positions(ks, n);
      assert ks[n..] == [ks[n]] + ks[n + 1..];
    }
  }

  /** iter visits the code points that were encoded, so there is only one way to read a string. */
  lemma IterDecodes(ks: seq<nat>)
    requires Codes(ks)
    ensures Iter(EncodeAll(ks)) == Ok(ks)
  {
    IterFrom(ks, 0);
    assert ks[0..] == ks;
  }

  lemma UniquelyEncoded(ks: seq<nat>, js: seq<nat>)
    requires Codes(ks) && Codes(js) && EncodeAll(ks) == EncodeAll(js)
    ensures ks == js
  {
    IterDecodes(ks);
    IterDecodes(js);
  }

  // ------------------------------------------------------------------ moving inside and backwards

  lemma InsideNotHead(ks: seq<nat>, n: nat, i: nat)
    requires Codes(ks) && n < |ks| && Offset(ks, n) < i < Offset(ks, n + 1)
    ensures i < |EncodeAll(ks)| && 0x80 <= EncodeAll(ks)[i] < 0xc0
  {
    hide Shifted, Tail, Trail, Enc, At, Offset, EncodeAll;
    Positions(ks, n);
    AtParts(EncodeAll(ks), Offset(ks, n), ks[n]);
  }

  lemma {:induction false} SearchStops(s: seq<Byte>, i: nat, j: nat)
    requires i <= j <= |s| && forall m :: i <= m < j ==> !Head(s[m])
    requires j < |s| ==> Head(s[j])
    ensures SearchHead(s, i) == j
    decreases j - i
  {
    if i < j {
      SearchStops(s, i + 1, j);
    }
  }

  lemma {:induction false} BackwardStops(s: seq<Byte>, i: nat, j: nat)
    requires j <= i < |s| && Head(s[j]) && forall m :: j < m <= i ==> !Head(s[m])
    ensures SearchHeadBackward(s, i) == Ok(j)
    decreases i - j
  {
    if j < i {
      BackwardStops(s, i - 1, j);
    }
  }

  /** Where a character begins, or the string ends, next and prev find it from any byte beside it. */
  lemma NextInside(ks: seq<nat>, n: nat, i: nat)
    requires Codes(ks) && n < |ks| && Offset(ks, n) <= i < Offset(ks, n + 1)
    ensures Next(EncodeAll(ks), i) == Ok(Offset(ks, n + 1))
  {
    hide Shifted, Tail, Trail, Enc, At, Offset, EncodeAll, SearchHead;
    var s := EncodeAll(ks);
    LookNext(ks, n);
    if i > Offset(ks, n) {
      InsideNotHead(ks, n, i);
      var j := Offset(ks, n + 1);
      EndOffset(ks);
      Ordered(ks, n + 1);
      if n + 1 < |ks| {
        Positions(ks, n + 1);
        OneCharacter(s, j, ks[n + 1]);
      }
      forall m | i + 1 <= m < j
        ensures !Head(s[m])
      {
        InsideNotHead(ks, n, m);
      }
      SearchStops(s, i + 1, j);
    }
  }

  lemma {:induction false} Ordered(ks: seq<nat>, n: nat)
    requires n <= |ks|
    ensures Offset(ks, n) <= Offset(ks, |ks|)
    ensures n < |ks| ==> Offset(ks, n) < Offset(ks, |ks|)
    decreases |ks|
  {
    if n > 0 {
      Ordered(ks[1..], n - 1);
    } else if |ks| > 0 {
      Ordered(ks[1..], 0);
    }
  }

  /** prev from anywhere behind the head of a character up to the next head. */
  lemma PrevInside(ks: seq<nat>, n: nat, i: nat)
    requires Codes(ks) && n < |ks| && Offset(ks, n) < i <= Offset(ks, n + 1)
    ensures Prev(EncodeAll(ks), i) == Ok(Offset(ks, n))
  {
    hide Shifted, Tail, Trail, Enc, At, Offset, EncodeAll, SearchHeadBackward;
    var s := EncodeAll(ks);
    var j := Offset(ks, n);
    Positions(ks, n);
    OneCharacter(s, j, ks[n]);
    EndOffset(ks);
    Ordered(ks, n);
    Ordered(ks, n + 1);
    forall m | j < m <= i - 1
      ensures m < |s| && !Head(s[m])
    {
      InsideNotHead(ks, n, m);
    }
    BackwardStops(s, i - 1, j);
  }

  /** At the boundaries prev undoes next, and before the first character there is -1. */
  lemma PrevUndoesNext(ks: seq<nat>, n: nat)
    requires Codes(ks) && n < |ks|
    ensures Next(EncodeAll(ks), Offset(ks, n)) == Ok(Offset(ks, n + 1))
    ensures Prev(EncodeAll(ks), Offset(ks, n + 1)) == Ok(Offset(ks, n))
    ensures Prev(EncodeAll(ks), 0) == Ok(-1)
    ensures Last(EncodeAll(ks)) == Ok(Offset(ks, |ks| - 1))
  {
    hide Shifted, Tail, Trail, Enc, At, Offset, EncodeAll;
    LookNext(ks, n);
    Positions(ks, n);
    PrevInside(ks, n, Offset(ks, n + 1));
    EndOffset(ks);
    Positions(ks, |ks| - 1);
    PrevInside(ks, |ks| - 1, Offset(ks, |ks|));
  }

  // ------------------------------------------------------------------ compare

  /** Lexicographic order: -1, 0 or 1.  The source's compare is this on bytes. */
  function Lex(a: seq<int>, b: seq<int>): (r: int)
    ensures r == 0 <==> a == b
    decreases |a|
  {
    if a == [] then if b == [] then 0 else -1
    else if b == [] then 1
    else if a[0] < b[0] then -1
    else if a[0] > b[0] then 1
    else assert a == [a[0]] + a[1..] && b == [b[0]] + b[1..]; Lex(a[1..], b[1..])
  }

  function Compare(s1: seq<Byte>, s2: seq<Byte>): int {
    Lex(s1, s2)
  }

  lemma {:induction false} LexPrefix(p: seq<int>, a: seq<int>, b: seq<int>)
    ensures Lex(p + a, p + b) == Lex(a, b)
    decreases |p|
  {
    if p == [] {
      assert p + a == a && p + b == b;
    } else {
      LexPrefix(p[1..], a, b);
      assert (p + a)[1..] == p[1..] + a && (p + b)[1..] == p[1..] + b;
    }
  }

  /** What the order is: the first difference decides, and a proper prefix comes first. */
  lemma {:induction false} LexExactly(a: seq<int>, b: seq<int>)
    ensures Lex(a, b) == -1 <==>
      a < b || exists i :: 0 <= i < |a| && i < |b| && a[..i] == b[..i] && a[i] < b[i]
    ensures Lex(a, b) == 1 <==>
      b < a || exists i :: 0 <= i < |a| && i < |b| && a[..i] == b[..i] && b[i] < a[i]
    ensures Lex(a, b) == 0 <==> a == b
    decreases |a|
  {
    var n := Shared(a, b);
    var p, x, y := a[..n], a[n..], b[n..];
    assert a == p + x && b == p + y;
    LexPrefix(p, x, y);
    if n < |a| && n < |b| {
      assert x == [a[n]] + x[1..] && y == [b[n]] + y[1..];
      LexHeads(a[n], x[1..], b[n], y[1..]);
      forall i | 0 <= i < |a| && i < |b| && a[..i] == b[..i] && a[i] != b[i]
        ensures i == n
      {
        FirstDifference(a, b, i, n);
      }
    } else {
      forall i | 0 <= i < |a| && i < |b|
        ensures a[i] == b[i]
      {
        SameBelow(a, b, n, i);
      }
    }
  }

  /** The length of what a and b begin with both. */
  function Shared(a: seq<int>, b: seq<int>): (n: nat)
    ensures n <= |a| && n <= |b| && a[..n] == b[..n]
    ensures n < |a| && n < |b| ==> a[n] != b[n]
    decreases |a|
  {
    if a == [] || b == [] || a[0] != b[0] then 0
    else
      var n := Shared(a[1..], b[1..]);
      assert a[..n + 1] == [a[0]] + a[1..][..n] && b[..n + 1] == [b[0]] + b[1..][..n];
      n + 1
  }

  lemma SameBelow(a: seq<int>, b: seq<int>, n: nat, i: nat)
    requires i < n <= |a| && n <= |b| && a[..n] == b[..n]
    ensures a[i] == b[i]
  {
    assert a[..n][i] == b[..n][i];
  }

  lemma FirstDifference(a: seq<int>, b: seq<int>, i: nat, n: nat)
    requires i < |a| && i < |b| && n < |a| && n < |b|
    requires a[..i] == b[..i] && a[i] != b[i] && a[..n] == b[..n] && a[n] != b[n]
    ensures i == n
  {
    if i < n {
      SameBelow(a, b, n, i);
    } else if n < i {
      SameBelow(a, b, i, n);
    }
  }

  /** compare: the first different byte decides, and a proper prefix is less. */
  lemma CompareExactly(s: seq<Byte>, t: seq<Byte>)
    ensures Compare(s, t) == -1 <==>
      s < t || exists i :: 0 <= i < |s| && i < |t| && s[..i] == t[..i] && s[i] < t[i]
    ensures Compare(s, t) == 1 <==>
      t < s || exists i :: 0 <= i < |s| && i < |t| && s[..i] == t[..i] && t[i] < s[i]
    ensures Compare(s, t) == 0 <==> s == t
  {
    LexExactly(s, t);
  }

  lemma {:induction false} LexFlip(a: seq<int>, b: seq<int>)
    ensures Lex(b, a) == -Lex(a, b)
    decreases |a|
  {
    if a != [] && b != [] {
      LexFlip(a[1..], b[1..]);
    }
  }

  lemma {:induction false} ShiftedOrder(k: nat, j: nat, c: nat)
    requires k <= j
    ensures Shifted(k, c) <= Shifted(j, c)
    decreases c
  {
    if c > 0 {
      ShiftedOrder(k / 64, j / 64, c - 1);
    }
  }

  lemma LexHeads(a: int, s: seq<int>, b: int, t: seq<int>)
    ensures Lex([a] + s, [b] + t) == if a < b then -1 else if a > b then 1 else Lex(s, t)
  {
    assert ([a] + s)[1..] == s && ([b] + t)[1..] == t;
  }

  lemma {:induction false} TailOrder(k: nat, j: nat, c: nat, x: seq<int>, y: seq<int>)
    requires k < j && Shifted(k, c) == Shifted(j, c)
    ensures Lex(Tail(k, c) + x, Tail(j, c) + y) == -1
    decreases c
  {
    if c > 0 {
      var lk, lj := [0x80 + k % 64], [0x80 + j % 64];
      var tk, tj := Tail(k / 64, c - 1), Tail(j / 64, c - 1);
      Assoc(tk, lk, x);
      Assoc(tj, lj, y);
      LexHeads(lk[0], x, lj[0], y);
      if k / 64 < j / 64 {
        TailOrder(k / 64, j / 64, c - 1, lk + x, lj + y);
      } else {
        LexPrefix(tk, lk + x, lj + y);
      }
    }
  }

  lemma EncSplit(k: nat, x: seq<int>)
    requires Code(k)
    ensures Enc(k) + x == [HeadOf(k)] + (Tail(k, Extra(k)) + x)
  {
    hide Shifted, Tail, Extra, Base;
  }

  lemma HeadOrder(k: nat, j: nat)
    requires Code(k) && Code(j) && k < j
    ensures HeadOf(k) <= HeadOf(j)
    ensures HeadOf(k) == HeadOf(j) ==> Extra(k) == Extra(j) && Shifted(k, Extra(k)) == Shifted(j, Extra(j))
  {
    hide Shifted;
    HeadBounds(k);
    HeadBounds(j);
    if Extra(k) == Extra(j) {
      ShiftedOrder(k, j, Extra(k));
    }
  }

  lemma EncOrder(k: nat, j: nat, x: seq<int>, y: seq<int>)
    requires Code(k) && Code(j) && k < j
    ensures Lex(Enc(k) + x, Enc(j) + y) == -1
  {
    hide Shifted, Tail, Extra, Enc, Base, Lex, HeadOf;
    EncSplit(k, x);
    EncSplit(j, y);
    HeadOrder(k, j);
    LexHeads(HeadOf(k), Tail(k, Extra(k)) + x, HeadOf(j), Tail(j, Extra(j)) + y);
    if HeadOf(k) == HeadOf(j) {
      TailOrder(k, j, Extra(k), x, y);
    }
  }

  /** Comparing bytes compares code points, prefixes and all. */
  lemma {:induction false} CompareIsCodeOrder(ks: seq<nat>, js: seq<nat>)
    requires Codes(ks) && Codes(js)
    ensures Compare(EncodeAll(ks), EncodeAll(js)) == Lex(ks, js)
    decreases |ks|
  {
    if ks != [] && js != [] {
      var x, y := EncodeAll(ks[1..]), EncodeAll(js[1..]);
      if ks[0] < js[0] {
        EncOrder(ks[0], js[0], x, y);
      } else if ks[0] > js[0] {
        EncOrder(js[0], ks[0], y, x);
        LexFlip(EncodeAll(js), EncodeAll(ks));
      } else {
        CompareIsCodeOrder(ks[1..], js[1..]);
        LexPrefix(Enc(ks[0]), x, y);
      }
    }
  }

  /** The order of the code points: the first different one decides, and a proper prefix is less. */
  lemma CompareCodes(ks: seq<nat>, js: seq<nat>)
    requires Codes(ks) && Codes(js)
    ensures var r := Compare(EncodeAll(ks), EncodeAll(js));
      && (r == -1 <==> ks < js || exists i :: 0 <= i < |ks| && i < |js| && ks[..i] == js[..i] && ks[i] < js[i])
      && (r == 1 <==> js < ks || exists i :: 0 <= i < |ks| && i < |js| && ks[..i] == js[..i] && js[i] < ks[i])
      && (r == 0 <==> ks == js)
  {
    hide Lex, Compare, EncodeAll;
    CompareIsCodeOrder(ks, js);
    LexExactly(ks, js);
  }

  // ------------------------------------------------------------------ add_uchar, init

  /** k lsr n land 0b111111, as the low six bits of a continuation byte. */
  function Group(k: nat, p: nat): (b: Byte)
    requires p >= 1
  {
    0x80 + k / p % 64
  }

  /** The bytes that add_uchar appends; Char.chr refuses what is not a byte. */
  function UcharBytes(k: int): Result<seq<Byte>> {
    if k < 0 || k >= 0x100000000 then InvalidArg
    else if k >= 0x4000000 then
      Ok([0xfc + k / 0x40000000, Group(k, 0x1000000), Group(k, 0x40000), Group(k, 0x1000), Group(k, 0x40), Group(k, 1)])
    else if k <= 0x7f then Ok([k])
    else if k <= 0x7ff then Ok([0xc0 + k / 0x40, Group(k, 1)])
    else if k <= 0xffff then Ok([0xe0 + k / 0x1000, Group(k, 0x40), Group(k, 1)])
    else if k <= 0x1fffff then Ok([0xf0 + k / 0x40000, Group(k, 0x1000), Group(k, 0x40), Group(k, 1)])
    else Ok([0xf8 + k / 0x1000000, Group(k, 0x40000), Group(k, 0x1000), Group(k, 0x40), Group(k, 1)])
  }

  lemma TailGroups(k: nat)
    ensures Tail(k, 1) == [Group(k, 1)]
    ensures Tail(k, 2) == [Group(k, 0x40)] + Tail(k, 1)
    ensures Tail(k, 3) == [Group(k, 0x1000)] + Tail(k, 2)
    ensures Tail(k, 4) == [Group(k, 0x40000)] + Tail(k, 3)
    ensures Tail(k, 5) == [Group(k, 0x1000000)] + Tail(k, 4)
  {
    hide Tail, Shifted;
    NoTrail([], 0, k);
    TailFirst(k, 0);
    TailFirst(k, 1);
    TailFirst(k, 2);
    TailFirst(k, 3);
    TailFirst(k, 4);
    ShiftedBounds(k);
  }

  lemma {:induction false} TailFirst(k: nat, c: nat)
    ensures Tail(k, c + 1) == [0x80 + Shifted(k, c) % 64] + Tail(k, c)
    decreases c
  {
    if c == 0 {
      NoTrail([], 0, k);
      assert Tail(k, 1) == Tail(k / 64, 0) + [0x80 + k % 64];
    } else {
      TailFirst(k / 64, c - 1);
      var a, t, b := [0x80 + Shifted(k, c) % 64], Tail(k / 64, c - 1), [0x80 + k % 64];
      assert Tail(k, c + 1) == (a + t) + b && Tail(k, c) == t + b;
      assert (a + t) + b == a + (t + b);
    }
  }

  lemma TailsSpelled(k: nat)
    ensures var t1, t2, t3 := Group(k, 1), Group(k, 0x40), Group(k, 0x1000);
      var t4, t5 := Group(k, 0x40000), Group(k, 0x1000000);
      && Tail(k, 0) == [] && Tail(k, 1) == [t1] && Tail(k, 2) == [t2, t1] && Tail(k, 3) == [t3, t2, t1]
      && Tail(k, 4) == [t4, t3, t2, t1] && Tail(k, 5) == [t5, t4, t3, t2, t1]
  {
    hide Tail, Group;
    TailGroups(k);
    NoTrail([], 0, k);
  }

  lemma HeadIs(k: nat)
    requires Code(k)
    ensures HeadOf(k)
         == if k < 0x80 then k else if k < 0x800 then 0xc0 + k / 0x40 else if k < 0x10000 then 0xe0 + k / 0x1000
            else if k < 0x200000 then 0xf0 + k / 0x40000 else if k < 0x4000000 then 0xf8 + k / 0x1000000
            else 0xfc + k / 0x40000000
  {
    hide Shifted;
    ShiftedBounds(k);
  }

  lemma AddUcharOfCode(k: nat)
    requires Code(k)
    ensures UcharBytes(k) == Ok(Enc(k))
  {
    hide Tail, Shifted, Group, HeadOf;
    TailsSpelled(k);
    HeadIs(k);
    assert Enc(k) == [HeadOf(k)] + Tail(k, Extra(k));
    assert UcharBytes(k).value == Enc(k);
  }

  /** add_uchar writes the table's encoding of every code point below 2^31; the rest is refused or invalid. */
  lemma AddUcharIsTable(k: int)
    ensures Code(k) ==> UcharBytes(k) == Ok(Enc(k))
    ensures Code(k) <==> UcharBytes(k).Ok? && Validate(UcharBytes(k).value).Ok?
  {
    hide Tail, Shifted, Trail, Enc, Group;
    if Code(k) {
      AddUcharOfCode(k);
      CheckEncoded([k], 0);
      assert EncodeAll([k]) == Enc(k) + EncodeAll([]);
      assert Offset([k], 0) == 0 && EncodeAll([k]) == Enc(k);
    } else if UcharBytes(k).Ok? {
      assert UcharBytes(k).value[0] >= 0xfe;
    }
  }

  lemma {:induction false} EncodeAllSnoc(ks: seq<nat>, k: nat)
    requires Codes(ks) && Code(k)
    ensures Codes(ks + [k]) && EncodeAll(ks + [k]) == EncodeAll(ks) + Enc(k)
    decreases |ks|
  {
    if ks == [] {
      assert [k][1..] == [];
      assert EncodeAll([k]) == Enc(k) + EncodeAll([]);
      assert ks + [k] == [k];
    } else {
      EncodeAllSnoc(ks[1..], k);
      assert (ks + [k])[1..] == ks[1..] + [k];
      var a, b, c := Enc(ks[0]), EncodeAll(ks[1..]), Enc(k);
      assert (a + b) + c == a + (b + c);
    }
  }

  lemma EncodeTwo(k: nat, j: nat)
    requires Code(k) && Code(j)
    ensures EncodeAll([k, j]) == Enc(k) + Enc(j)
  {
    hide Enc;
    assert [k, j][1..] == [j] && [j][1..] == [];
    assert EncodeAll([j]) == Enc(j) + EncodeAll([]);
  }

  /** Code points of every length, with the bytes written out. */
  lemma Encodings()
    ensures Enc(0x41) == [0x41]
    ensures Enc(0x391) == [0xce, 0x91]
    ensures Enc(0x2262) == [0xe2, 0x89, 0xa2]
    ensures Enc(0x10348) == [0xf0, 0x90, 0x8d, 0x88]
    ensures Enc(0x200000) == [0xf8, 0x88, 0x80, 0x80, 0x80]
    ensures Enc(0x7fffffff) == [0xfd, 0xbf, 0xbf, 0xbf, 0xbf, 0xbf]
    ensures EncodeAll([0x2262, 0x391]) == [0xe2, 0x89, 0xa2, 0xce, 0x91]
  {
    hide Enc, EncodeAll;
    AddUcharOfCode(0x41);
    AddUcharOfCode(0x391);
    AddUcharOfCode(0x2262);
    AddUcharOfCode(0x10348);
    AddUcharOfCode(0x200000);
    AddUcharOfCode(0x7fffffff);
    EncodeTwo(0x2262, 0x391);
  }

  /** A buffer, for the functions that append to one. */
  class Buf {
    var contents: seq<Byte>

    constructor ()
      ensures contents == []
    {
      contents := [];
    }

    method AddChar(b: Byte)
      modifies this
      ensures contents == old(contents) + [b]
    {
      contents := contents + [b];
    }

    method AddUchar(k: int) returns (r: Result<()>)
      modifies this
      ensures r == if UcharBytes(k).Ok? then Ok(()) else InvalidArg
      ensures contents == old(contents) + (if r.Ok? then UcharBytes(k).value else [])
    {
      if k < 0 || k >= 0x4000000 {
        if k < 0 || k >= 0x100000000 {
          return InvalidArg;
        }
        AddChar(0xfc + k / 0x40000000);
        AddChar(Group(k, 0x1000000));
        AddChar(Group(k, 0x40000));
        AddChar(Group(k, 0x1000));
        AddChar(Group(k, 0x40));
        AddChar(Group(k, 1));
      } else if k <= 0x7f {
        AddChar(k);
      } else if k <= 0x7ff {
        AddChar(0xc0 + k / 0x40);
        AddChar(Group(k, 1));
      } else if k <= 0xffff {
        AddChar(0xe0 + k / 0x1000);
        AddChar(Group(k, 0x40));
        AddChar(Group(k, 1));
      } else if k <= 0x1fffff {
        AddChar(0xf0 + k / 0x40000);
        AddChar(Group(k, 0x1000));
        AddChar(Group(k, 0x40));
        AddChar(Group(k, 1));
      } else {
        AddChar(0xf8 + k / 0x1000000);
        AddChar(Group(k, 0x40000));
        AddChar(Group(k, 0x1000));
        AddChar(Group(k, 0x40));
        AddChar(Group(k, 1));
      }
      r := Ok(());
    }
  }

  lemma NoCodes()
    ensures Codes([]) && EncodeAll([]) == []
  {
  }

  /** init: the string of the code points that f gives, up to the first that cannot be written. */
  method Init(len: int, f: int -> int) returns (r: Result<seq<Byte>>, ghost ks: seq<nat>)
    ensures r.Ok? <==> forall c :: 0 <= c < len ==> UcharBytes(f(c)).Ok?
    ensures (forall c :: 0 <= c < len ==> Code(f(c))) ==>
      |ks| == (if len < 0 then 0 else len) && (forall c :: 0 <= c < len ==> ks[c] == f(c))
      && Codes(ks) && r == Ok(EncodeAll(ks))
  {
    hide Enc, Tail, Shifted, UcharBytes, EncodeAll, Codes, Validate;
    assert Codes([]) && EncodeAll([]) == [] by { NoCodes(); }
    var buf := new Buf();
    ks := [];
    var c := 0;
    while c < len
      invariant 0 <= c <= (if len < 0 then 0 else len)
      invariant forall d :: 0 <= d < c ==> UcharBytes(f(d)).Ok?
      invariant (forall d :: 0 <= d < c ==> Code(f(d))) ==>
        |ks| == c && (forall d :: 0 <= d < c ==> ks[d] == f(d)) && Codes(ks) && buf.contents == EncodeAll(ks)
    {
      var k := f(c);
      AddUcharIsTable(k);
      var added := buf.AddUchar(k);
      if !added.Ok? {
        assert !UcharBytes(f(c)).Ok? && !Code(f(c));
        return InvalidArg, ks;
      }
      if Code(k) && Codes(ks) {
        EncodeAllSnoc(ks, k);
        ks := ks + [k];
      }
      c := c + 1;
    }
    r := Ok(buf.contents);
  }
}
