/**
 The Base64 codec (libs/extlib-leftovers/base64.ml).  Its partner is the grouping of sections 3.2
 and 4 of RFC 4648: three bytes are four digits, and a shorter last group is not padded.
 */
module Base64 {
  import opened Sequences

  type Byte = n: int | 0 <= n < 0x100
  type Digit = n: int | 0 <= n < 64

  datatype Result<T> = Ok(value: T) | InvalidChar | InvalidTable | NoMoreInput

  // ------------------------------------------------------------------ the grouping

  function Digit1(x: int): Digit
    requires 0 <= x < 0x100
  {
    x / 4
  }

  function Digit2(x: int, y: int): Digit
    requires 0 <= x < 0x100 && 0 <= y < 0x100
  {
    x % 4 * 16 + y / 16
  }

  function Digit3(y: int, z: int): Digit
    requires 0 <= y < 0x100 && 0 <= z < 0x100
  {
    y % 16 * 4 + z / 64
  }

  function Digit4(z: int): Digit
    requires 0 <= z < 0x100
  {
    z % 64
  }

  function Digits(s: seq<Byte>): seq<Digit> {
    if |s| == 0 then []
    else if |s| == 1 then [Digit1(s[0]), Digit2(s[0], 0)]
    else if |s| == 2 then [Digit1(s[0]), Digit2(s[0], s[1]), Digit3(s[1], 0)]
    else [Digit1(s[0]), Digit2(s[0], s[1]), Digit3(s[1], s[2]), Digit4(s[2])] + Digits(s[3..])
  }

  function Byte1(a: int, b: int): Byte
    requires 0 <= a < 64 && 0 <= b < 64
  {
    a * 4 + b / 16
  }

  function Byte2(b: int, c: int): Byte
    requires 0 <= b < 64 && 0 <= c < 64
  {
    b % 16 * 16 + c / 4
  }

  function Byte3(c: int, d: int): Byte
    requires 0 <= c < 64 && 0 <= d < 64
  {
    c % 4 * 64 + d
  }

  /** The bytes that whole groups and the rest of a group hold; one digit alone holds none. */
  function Bytes(d: seq<Digit>): seq<Byte> {
    if |d| <= 1 then []
    else if |d| == 2 then [Byte1(d[0], d[1])]
    else if |d| == 3 then [Byte1(d[0], d[1]), Byte2(d[1], d[2])]
    else [Byte1(d[0], d[1]), Byte2(d[1], d[2]), Byte3(d[2], d[3])] + Bytes(d[4..])
  }

  lemma GroupBack(x: Byte, y: Byte, z: Byte)
    ensures Byte1(Digit1(x), Digit2(x, y)) == x && Byte2(Digit2(x, y), Digit3(y, z)) == y
    ensures Byte3(Digit3(y, z), Digit4(z)) == z
  {
  }

  lemma {:induction false} BytesOfDigits(s: seq<Byte>)
    ensures Bytes(Digits(s)) == s
    decreases |s|
  {
    hide Byte1, Byte2, Byte3, Digit1, Digit2, Digit3, Digit4;
    if s == [] {
    } else if |s| == 1 {
      GroupBack(s[0], 0, 0);
      assert s == [s[0]];
    } else if |s| == 2 {
      GroupBack(s[0], s[1], 0);
      assert s == [s[0], s[1]];
    } else {
      GroupBack(s[0], s[1], s[2]);
      BytesOfDigits(s[3..]);
      assert Digits(s)[4..] == Digits(s[3..]);
      assert s == [s[0], s[1], s[2]] + s[3..];
    }
  }

  /** The number that the digits of a group spell is the one that its bytes spell, then come the next groups. */
  lemma DigitsSpellBytes(x: int, y: int, z: int, rest: seq<Byte>)
    requires 0 <= x < 0x100 && 0 <= y < 0x100 && 0 <= z < 0x100
    ensures var d: seq<int> := Digits([x, y, z] + rest);
      |d| >= 4 && ((d[0] * 64 + d[1]) * 64 + d[2]) * 64 + d[3] == (x * 256 + y) * 256 + z && d[4..] == Digits(rest)
    ensures var d: seq<int> := Digits([x, y]); |d| == 3 && (d[0] * 64 + d[1]) * 64 + d[2] == (x * 256 + y) * 4
    ensures var d: seq<int> := Digits([x]); |d| == 2 && d[0] * 64 + d[1] == x * 16
    ensures Digits([]) == []
  {
    var s: seq<Byte> := [x, y, z] + rest;
    assert s[0] == x && s[1] == y && s[2] == z && s[3..] == rest;
  }

  /** The same for the bytes of a group of digits; the bits left over are dropped. */
  lemma BytesSpellDigits(a: int, b: int, c: int, d: int, rest: seq<Digit>)
    requires 0 <= a < 64 && 0 <= b < 64 && 0 <= c < 64 && 0 <= d < 64
    ensures var s: seq<int> := Bytes([a, b, c, d] + rest);
      |s| >= 3 && (s[0] * 256 + s[1]) * 256 + s[2] == ((a * 64 + b) * 64 + c) * 64 + d && s[3..] == Bytes(rest)
    ensures var s: seq<int> := Bytes([a, b, c]); |s| == 2 && s[0] * 256 + s[1] == ((a * 64 + b) * 64 + c) / 4
    ensures var s: seq<int> := Bytes([a, b]); |s| == 1 && s[0] == (a * 64 + b) / 16
    ensures Bytes([a]) == [] && Bytes([]) == []
  {
    var t: seq<Digit> := [a, b, c, d] + rest;
    assert t[0] == a && t[1] == b && t[2] == c && t[3] == d && t[4..] == rest;
  }

  /** ceil(8n/6) digits. */
  lemma {:induction false} DigitCount(s: seq<Byte>)
    ensures |Digits(s)| == (8 * |s| + 5) / 6
    decreases |s|
  {
    if |s| >= 3 {
      DigitCount(s[3..]);
    }
  }

  lemma {:induction false} ByteCount(d: seq<Digit>)
    ensures |Bytes(d)| == |d| * 6 / 8
    decreases |d|
  {
    if |d| >= 4 {
      ByteCount(d[4..]);
    }
  }

  lemma {:induction false} DigitsConcat(a: seq<Byte>, b: seq<Byte>)
    requires |a| % 3 == 0
    ensures Digits(a + b) == Digits(a) + Digits(b)
    decreases |a|
  {
    hide Digit1, Digit2, Digit3, Digit4;
    if a == [] {
      assert a + b == b;
    } else {
      assert |a| >= 3;
      DigitsConcat(a[3..], b);
      assert (a + b)[3..] == a[3..] + b;
      assert (a + b)[0] == a[0] && (a + b)[1] == a[1] && (a + b)[2] == a[2];
    }
  }

  lemma {:induction false} BytesConcat(a: seq<Digit>, b: seq<Digit>)
    requires |a| % 4 == 0
    ensures Bytes(a + b) == Bytes(a) + Bytes(b)
    decreases |a|
  {
    hide Byte1, Byte2, Byte3;
    if a == [] {
      assert a + b == b;
    } else {
      assert |a| >= 4;
      BytesConcat(a[4..], b);
      assert (a + b)[4..] == a[4..] + b;
    }
  }

  // ------------------------------------------------------------------ 63-bit integers

  /** The value of a native integer with the 63 low bits of x. */
  function Wrap(x: int): (r: int)
    ensures -0x4000000000000000 <= r < 0x4000000000000000
    ensures r % 0x1000 == x % 0x1000
  {
    (x + 0x4000000000000000) % 0x8000000000000000 - 0x4000000000000000
  }

  // ------------------------------------------------------------------ encoding

  /** The state of an encoder: the accumulator, which nothing ever clears, and how many bits are new. */
  class Encoder {
    const tbl: seq<Byte>
    var data: int
    var count: nat
    var out: seq<Byte>

    constructor (tbl: seq<Byte>)
      requires |tbl| == 64
      ensures this.tbl == tbl && count == 0 && out == []
    {
      this.tbl := tbl;
      data, count, out := 0, 0, [];
    }

    lemma HoldsNothing()
      requires |tbl| == 64 && count == 0 && out == []
      ensures Holds([])
    {
    }

    /** What is written is what is complete of s, and data ends with the bits that are left over. */
    ghost predicate Holds(s: seq<Byte>)
      reads this
    {
      && |tbl| == 64 && out == Spell(tbl, Complete(s))
      && count == |s| % 3 * 2
      && (count == 2 ==> data % 4 == s[|s| - 1] % 4) && (count == 4 ==> data % 16 == s[|s| - 1] % 16)
    }

    method Write(c: Byte, ghost s: seq<Byte>)
      requires Holds(s)
      modifies this
      ensures Holds(s + [c])
    {
      hide Complete, Completes, Wrap, Spell, First;
      ghost var q, k, r := Residue(data, c);
      CompleteSnoc(s, c);
      SpellConcat(tbl, Complete(s), Completes(s, c));
      ghost var before := data;
      data := Wrap(data * 0x100 + c);
      CompletesAre(s, c, before, data, q, k, r);
      SpellFew(tbl, Completes(s, c));
      count := count + 8;
      Emit();
    }

    /** Writes whole digits, from the new bits downwards. */
    method Emit()
      requires |tbl| == 64 && (count == 8 || count == 10 || count == 12)
      modifies `count, `out
      ensures count == old(count) % 6
      ensures out == old(out) + [tbl[First(data, old(count) - 8)]] + (if old(count) == 12 then [tbl[data % 64]] else [])
    {
      PowersOf2();
      ghost var first := tbl[First(data, count - 8)];
      while count >= 6
        invariant (count == old(count) && out == old(out)) || (count == old(count) - 6 && out == old(out) + [first])
          || (old(count) == 12 && count == 0 && out == old(out) + [first] + [tbl[data % 64]])
      {
        count := count - 6;
        var d := data / Power2(count) % 64;
        out := out + [tbl[d]];
      }
      assert old(out) + [first] + [] == old(out) + [first];
    }

    /** What is left over becomes one more digit, filled up with zeros; count stays what it is. */
    method Flush(ghost s: seq<Byte>)
      requires Holds(s)
      modifies `out
      ensures out == Spell(tbl, Digits(s))
    {
      hide Spell;
      ghost var last := LastDigit(s);
      SpellConcat(tbl, Complete(s), last);
      DigitsAreComplete(s);
      SpellFew(tbl, last);
      if count > 0 {
        PowersOf2();
        ghost var rest := if count == 2 then data % 4 else data % 16;
        Shifted64(data);
        WrapLow(data * Power2(6 - count));
        var d := Wrap(data * Power2(6 - count)) % 64;
        out := out + [tbl[d]];
      } else {
        assert out + [] == out;
      }
    }
  }

  /** The first digit that a byte completes, when held bits were there before it. */
  function First(data: int, held: nat): Digit {
    if held == 0 then data / 4 % 64 else if held == 2 then data / 16 % 64 else data / 64 % 64
  }

  lemma PowersOf2()
    ensures Power2(0) == 1 && Power2(2) == 4 && Power2(4) == 16 && Power2(6) == 64
  {
  }

  lemma Div4(q: int, x: int)
    ensures (4 * q + x) / 4 == q + x / 4 && (4 * q + x) % 4 == x % 4
  {
  }

  lemma Div16(q: int, x: int)
    ensures (16 * q + x) / 16 == q + x / 16 && (16 * q + x) % 16 == x % 16
  {
  }

  lemma Div64(q: int, x: int)
    ensures (64 * q + x) / 64 == q + x / 64 && (64 * q + x) % 64 == x % 64
  {
  }

  /** A wrapped accumulator still ends with the last four bits of data and c. */
  lemma Residue(data: int, c: Byte) returns (q: int, k: int, r: nat)
    ensures data == 16 * k + r && r < 16
    ensures Wrap(data * 0x100 + c) == 0x1000 * q + 0x100 * r + c
  {
    var x := data * 0x100 + c;
    var t := (x + 0x4000000000000000) / 0x8000000000000000;
    k, r := data / 16, data % 16;
    q := k - 0x8000000000000 * t;
    assert Wrap(x) == x - 0x8000000000000000 * t;
  }

  /** The digits, and the rest, of a data' whose low twelve bits are the last four of data and c. */
  lemma Shifted(data: int, data': int, c: int, q: int, k: int, r: nat)
    requires 0 <= c < 0x100 && data == 16 * k + r && r < 16 && data' == 0x1000 * q + 0x100 * r + c
    ensures data' % 4 == c % 4 && data' / 4 % 64 == Digit1(c)
    ensures data' % 16 == c % 16 && data' / 16 % 64 == data % 4 * 16 + c / 16
    ensures data' % 64 == Digit4(c) && data' / 64 % 64 == data % 16 * 4 + c / 64
  {
    Div4(4 * k, r);
    Div16(k, r);
    Rest4(q, r, c);
    Rest16(q, r, c);
    Rest64(q, r, c);
  }

  lemma Rest4(q: int, r: nat, c: int)
    requires 0 <= c < 0x100
    ensures var n := 0x1000 * q + 0x100 * r + c; n % 4 == c % 4 && n / 4 % 64 == c / 4
  {
    Div4(0x400 * q + 0x40 * r, c);
    Div64(0x10 * q + r, c / 4);
  }

  lemma Rest16(q: int, r: nat, c: int)
    requires 0 <= c < 0x100
    ensures var n := 0x1000 * q + 0x100 * r + c; n % 16 == c % 16 && n / 16 % 64 == r % 4 * 16 + c / 16
  {
    Div16(0x100 * q + 0x10 * r, c);
    Div64(4 * q + r / 4, r % 4 * 16 + c / 16);
  }

  lemma Rest64(q: int, r: nat, c: int)
    requires 0 <= c < 0x100 && r < 16
    ensures var n := 0x1000 * q + 0x100 * r + c; n % 64 == c % 64 && n / 64 % 64 == r * 4 + c / 64
  {
    Div64(0x40 * q + 4 * r, c);
    Div64(q, 4 * r + c / 64);
  }

  /** The digits of s that are complete: whole groups, and the rest without its last bits. */
  function Complete(s: seq<Byte>): seq<Digit> {
    var m := |s| - |s| % 3;
    var whole := Digits(s[..m]);
    if |s| % 3 == 0 then whole
    else if |s| % 3 == 1 then whole + [Digit1(s[m])]
    else whole + [Digit1(s[m]), Digit2(s[m], s[m + 1])]
  }

  /** What a byte after s completes. */
  function Completes(s: seq<Byte>, c: Byte): seq<Digit> {
    if |s| % 3 == 0 then [Digit1(c)]
    else if |s| % 3 == 1 then [Digit2(s[|s| - 1], c)]
    else [Digit3(s[|s| - 1], c), Digit4(c)]
  }

  lemma CompleteSnoc(s: seq<Byte>, c: Byte)
    ensures Complete(s + [c]) == Complete(s) + Completes(s, c)
  {
    hide Digits, Digit1, Digit2, Digit3, Digit4;
    var m, t := |s| - |s| % 3, s + [c];
    if |s| % 3 == 2 {
      WholeGroup(s[..m], s[m], s[m + 1], c);
      assert |t| % 3 == 0;
      assert t == s[..m] + [s[m], s[m + 1], c];
      assert t[..|t|] == t;
    } else {
      assert |t| - |t| % 3 == m;
      assert t[..m] == s[..m];
    }
  }

  /** The digit that flush adds. */
  function LastDigit(s: seq<Byte>): seq<Digit> {
    if |s| % 3 == 0 then [] else if |s| % 3 == 1 then [Digit2(s[|s| - 1], 0)] else [Digit3(s[|s| - 1], 0)]
  }

  lemma Mod3(k: int, n: int)
    requires 0 <= n < 3
    ensures (3 * k + n) % 3 == n
  {
  }

  /** Complete and LastDigit of whole groups and the rest of a group. */
  lemma CompleteOf(a: seq<Byte>, rest: seq<Byte>)
    requires |a| % 3 == 0 && |rest| < 3
    ensures |rest| == 0 ==> Complete(a + rest) == Digits(a) && LastDigit(a + rest) == []
    ensures |rest| == 1 ==>
      Complete(a + rest) == Digits(a) + [Digit1(rest[0])] && LastDigit(a + rest) == [Digit2(rest[0], 0)]
    ensures |rest| == 2 ==>
      && Complete(a + rest) == Digits(a) + [Digit1(rest[0]), Digit2(rest[0], rest[1])]
      && LastDigit(a + rest) == [Digit3(rest[1], 0)]
  {
    hide Digit1, Digit2, Digit3, Digit4, Digits;
    var s := a + rest;
    assert |a| == 3 * (|a| / 3);
    Mod3(|a| / 3, |rest|);
    assert s[..|a|] == a;
  }

  lemma DigitsAreComplete(s: seq<Byte>)
    ensures Digits(s) == Complete(s) + LastDigit(s)
  {
    hide Digit1, Digit2, Digit3, Digit4, Digits, Complete, LastDigit;
    var m := |s| - |s| % 3;
    var a, rest := s[..m], s[m..];
    assert s == a + rest;
    DigitsConcat(a, rest);
    CompleteOf(a, rest);
    FewDigits(rest);
    if |rest| == 0 {
      assert Digits(a) + [] == Digits(a);
    } else if |rest| == 1 {
      assert [Digit1(rest[0]), Digit2(rest[0], 0)] == [Digit1(rest[0])] + [Digit2(rest[0], 0)];
      Assoc(Digits(a), [Digit1(rest[0])], [Digit2(rest[0], 0)]);
    } else {
      var front, last := [Digit1(rest[0]), Digit2(rest[0], rest[1])], [Digit3(rest[1], 0)];
      assert [Digit1(rest[0]), Digit2(rest[0], rest[1]), Digit3(rest[1], 0)] == front + last;
      Assoc(Digits(a), front, last);
    }
  }

  lemma FewDigits(s: seq<Byte>)
    ensures |s| == 0 ==> Digits(s) == []
    ensures |s| == 1 ==> Digits(s) == [Digit1(s[0]), Digit2(s[0], 0)]
    ensures |s| == 2 ==> Digits(s) == [Digit1(s[0]), Digit2(s[0], s[1]), Digit3(s[1], 0)]
  {
    hide Digit1, Digit2, Digit3, Digit4;
  }

  lemma Shifted64(data: int)
    ensures data * 16 % 64 == data % 4 * 16 && data * 4 % 64 == data % 16 * 4
  {
    Div64(data / 4, data % 4 * 16);
    Div64(data / 16, data % 16 * 4);
  }

  lemma WrapLow(x: int)
    ensures Wrap(x) % 64 == x % 64
  {
    var t := (x + 0x4000000000000000) / 0x8000000000000000;
    Div64(-0x200000000000000 * t, x);
  }

  lemma WholeGroup(a: seq<Byte>, x: Byte, y: Byte, z: Byte)
    requires |a| % 3 == 0
    ensures Digits(a + [x, y, z]) == Digits(a) + [Digit1(x), Digit2(x, y)] + [Digit3(y, z), Digit4(z)]
  {
    hide Digit1, Digit2, Digit3, Digit4, Digits;
    DigitsConcat(a, [x, y, z]);
    OneGroup(x, y, z);
  }

  lemma OneGroup(x: Byte, y: Byte, z: Byte)
    ensures Digits([x, y, z]) == [Digit1(x), Digit2(x, y)] + [Digit3(y, z), Digit4(z)]
  {
    hide Digit1, Digit2, Digit3, Digit4;
    var t := [x, y, z];
    assert t[3..] == [];
    assert Digits(t) == [Digit1(x), Digit2(x, y), Digit3(y, z), Digit4(z)] + Digits([]);
  }

  /** What the loop of write extracts are the digits that the byte completes. */
  lemma CompletesAre(s: seq<Byte>, c: Byte, data: int, data': int, q: int, k: int, r: nat)
    requires data == 16 * k + r && r < 16 && data' == 0x1000 * q + 0x100 * r + c
    requires |s| % 3 == 1 ==> data % 4 == s[|s| - 1] % 4
    requires |s| % 3 == 2 ==> data % 16 == s[|s| - 1] % 16
    ensures Completes(s, c) == [First(data', |s| % 3 * 2)] + (if |s| % 3 == 2 then [data' % 64] else [])
    ensures data' % 4 == c % 4 && data' % 16 == c % 16
  {
    Shifted(data, data', c, q, k, r);
  }

  lemma SpellFew(tbl: seq<Byte>, d: seq<Digit>)
    requires |tbl| == 64
    ensures |d| == 1 ==> Spell(tbl, d) == [tbl[d[0]]]
    ensures |d| == 2 ==> Spell(tbl, d) == [tbl[d[0]], tbl[d[1]]]
  {
  }

  lemma SpellConcat(tbl: seq<Byte>, a: seq<Digit>, b: seq<Digit>)
    requires |tbl| == 64
    ensures Spell(tbl, a + b) == Spell(tbl, a) + Spell(tbl, b)
  {
  }

  function Spell(tbl: seq<Byte>, d: seq<Digit>): (s: seq<Byte>)
    requires |tbl| == 64
    ensures |s| == |d|
  {
    seq(|d|, i requires 0 <= i < |d| => tbl[d[i]])
  }

  function Power2(n: nat): (p: nat)
    ensures p >= 1
  {
    if n == 0 then 1 else 2 * Power2(n - 1)
  }

  /** encode_string: every byte through the encoder, then a flush. */
  method EncodeString(s: seq<Byte>, tbl: seq<Byte>) returns (r: Result<seq<Byte>>)
    ensures r == if |tbl| == 64 then Ok(Spell(tbl, Digits(s))) else InvalidTable
  {
    hide Spell, Digits, Complete;
    if |tbl| != 64 {
      return InvalidTable;
    }
    var e := new Encoder(tbl);
    e.HoldsNothing();
    for i := 0 to |s|
      invariant e.tbl == tbl && e.Holds(s[..i])
    {
      assert s[..i + 1] == s[..i] + [s[i]];
      e.Write(s[i], s[..i]);
    }
    assert s[..|s|] == s;
    e.Flush(s);
    r := Ok(e.out);
  }

  // ------------------------------------------------------------------ decoding

  /** A decoding table: what every character stands for, or -1. */
  predicate Decodes(tbl: seq<int>) {
    |tbl| == 256 && forall c :: 0 <= c < 256 ==> -1 <= tbl[c] < 64
  }

  /** d undoes tbl; of equal characters the last one counts. */
  predicate Inverts(d: seq<int>, tbl: seq<Byte>) {
    && Decodes(d) && |tbl| == 64
    && (forall c :: 0 <= c < 256 && d[c] != -1 ==> tbl[d[c]] == c)
    && (forall i :: 0 <= i < 64 ==> d[tbl[i]] >= i)
  }

  method MakeDecodingTable(tbl: seq<Byte>) returns (r: Result<array<int>>)
    ensures |tbl| != 64 ==> r == InvalidTable
    ensures |tbl| == 64 ==> r.Ok? && fresh(r.value) && Inverts(r.value[..], tbl)
  {
    if |tbl| != 64 {
      return InvalidTable;
    }
    var d := new int[256](_ => -1);
    for i := 0 to 64
      invariant forall c :: 0 <= c < 256 ==> -1 <= d[c] < i && (d[c] != -1 ==> tbl[d[c]] == c)
      invariant forall k :: 0 <= k < i ==> d[tbl[k]] >= k
    {
      d[tbl[i]] := i;
    }
    r := Ok(d);
  }

  class Decoder {
    const tbl: seq<int>
    const input: seq<Byte>
    var pos: nat
    var data: int
    var count: nat

    constructor (tbl: seq<int>, input: seq<Byte>)
      requires Decodes(tbl)
      ensures this.tbl == tbl && this.input == input && pos == 0 && count == 0 && Low()
    {
      this.tbl, this.input := tbl, input;
      pos, data, count := 0, 0, 0;
    }

    /** What character i stands for. */
    ghost function D(i: int): (d: int)
      requires Decodes(tbl) && 0 <= i < |input|
      ensures -1 <= d < 64
    {
      tbl[input[i]]
    }

    ghost predicate Digit(i: int)
      requires Decodes(tbl)
    {
      0 <= i < |input| && D(i) != -1
    }

    /** The low count bits of data are the last bits of what has been read. */
    ghost predicate Low()
      reads this
    {
      && Decodes(tbl) && pos <= |input|
      && (count > 0 ==> Digit(pos - 1)) && (count >= 8 ==> Digit(pos - 2))
      && (count == 0 || (count == 2 && data % 4 == D(pos - 1) % 4) || (count == 4 && data % 16 == D(pos - 1) % 16)
          || (count == 6 && data % 64 == D(pos - 1)) || (count == 8 && data % 0x100 == D(pos - 2) % 4 * 64 + D(pos - 1))
          || (count == 10 && data % 0x400 == D(pos - 2) % 16 * 64 + D(pos - 1))
          || (count == 12 && data % 0x1000 == D(pos - 2) * 64 + D(pos - 1)))
    }

    /** Byte k is there: all its digits are. */
    ghost predicate At(k: nat)
      requires Decodes(tbl)
    {
      var q := k / 3 * 4;
      Digit(q + k % 3) && Digit(q + k % 3 + 1)
    }

    ghost function ByteAt(k: nat): Byte
      requires Decodes(tbl) && At(k)
    {
      var q := k / 3 * 4;
      if k % 3 == 0 then Byte1(D(q), D(q + 1))
      else if k % 3 == 1 then Byte2(D(q + 1), D(q + 2)) else Byte3(D(q + 2), D(q + 3))
    }

    /** Where byte j stands when it has just been fetched. */
    lemma IsByte(j: nat, b: Byte)
      requires Decodes(tbl) && Digit(pos - 1) && Digit(pos - 2)
      requires count < 6 && count % 2 == 0 && pos * 6 - count == 8 * j + 8
      requires b == if count == 4 then Byte1(D(pos - 2), D(pos - 1))
        else if count == 2 then Byte2(D(pos - 2), D(pos - 1)) else Byte3(D(pos - 2), D(pos - 1))
      ensures At(j) && b == ByteAt(j)
    {
      hide Byte1, Byte2, Byte3;
      assert j % 3 == if count == 4 then 0 else if count == 2 then 1 else 2;
      assert pos == j / 3 * 4 + j % 3 + 2;
    }

    /** What fetch has to do with the bits that are there: read one digit more. */
    method ReadDigit() returns (r: Result<()>)
      requires Low() && count < 8
      modifies `pos, `data, `count
      ensures r == NoMoreInput <==> old(pos) == |input|
      ensures r == InvalidChar <==> old(pos) < |input| && D(old(pos)) == -1
      ensures r != InvalidTable && pos == if r == NoMoreInput then old(pos) else old(pos) + 1
      ensures r.Ok? ==> count == old(count) + 6 && Low() && Digit(old(pos))
    {
      if pos == |input| {
        return NoMoreInput;
      }
      var c := tbl[input[pos]];
      if c == -1 {
        pos := pos + 1;
        return InvalidChar;
      }
      OneMore(data, c);
      pos, data, count := pos + 1, Wrap(data * 64 + c), count + 6;
      r := Ok(());
    }

    /** The byte that the top eight of the bits make, and what that leaves. */
    method TakeByte() returns (b: Byte)
      requires Low() && count >= 8
      modifies `count
      ensures count == old(count) - 8 && Low()
      ensures b == if count == 4 then Byte1(D(pos - 2), D(pos - 1))
        else if count == 2 then Byte2(D(pos - 2), D(pos - 1)) else Byte3(D(pos - 2), D(pos - 1))
    {
      Extract(data, D(pos - 2), D(pos - 1));
      PowersOf2();
      count := count - 8;
      b := data / Power2(count) % 0x100;
    }

    /** fetch: calls itself until there are eight bits. */
    method Fetch() returns (r: Result<Byte>)
      requires Low()
      modifies `pos, `data, `count
      ensures pos >= old(pos) && r != InvalidTable
      ensures r.Ok? ==> Low() && count % 2 == 0 && pos * 6 - count == old(pos * 6 - count) + 8
      ensures r.Ok? ==> count < 6 && (forall i :: old(pos) <= i < pos ==> Digit(i)) && Digit(pos - 1) && Digit(pos - 2)
      ensures r.Ok? ==> r.value == if count == 4 then Byte1(D(pos - 2), D(pos - 1))
        else if count == 2 then Byte2(D(pos - 2), D(pos - 1)) else Byte3(D(pos - 2), D(pos - 1))
      ensures r == InvalidChar ==> 0 <= pos - 1 < |input| && D(pos - 1) == -1
      ensures r == InvalidChar ==> (pos - 1) * 6 < old(pos * 6 - count) + 8
      ensures r == NoMoreInput ==> |input| * 6 < old(pos * 6 - count) + 8
      decreases |input| - pos
    {
      if count >= 8 {
        var b := TakeByte();
        return Ok(b);
      }
      var more := ReadDigit();
      if more == NoMoreInput {
        return NoMoreInput;
      }
      if more == InvalidChar {
        return InvalidChar;
      }
      r := Fetch();
    }
  }

  lemma Low8(q: int, x: int)
    requires 0 <= x < 0x100
    ensures (0x100 * q + x) % 0x100 == x
  {
  }

  lemma Low10(q: int, x: int)
    requires 0 <= x < 0x400
    ensures (0x400 * q + x) % 0x400 == x
  {
  }

  lemma Low12(q: int, x: int)
    requires 0 <= x < 0x1000
    ensures (0x1000 * q + x) % 0x1000 == x
  {
  }

  /** The accumulator after one digit more, by how many of its bits count. */
  lemma OneMore(data: int, c: Digit)
    ensures var d := Wrap(data * 64 + c);
      && d % 64 == c && d % 0x100 == data % 4 * 64 + c
      && d % 0x400 == data % 16 * 64 + c && d % 0x1000 == data % 64 * 64 + c
  {
    hide Wrap;
    var t := Wrapped(data * 64 + c);
    Div64(data - 0x200000000000000 * t, c);
    Low8(data / 4 - 0x80000000000000 * t, data % 4 * 64 + c);
    Low10(data / 16 - 0x20000000000000 * t, data % 16 * 64 + c);
    Low12(data / 64 - 0x8000000000000 * t, data % 64 * 64 + c);
  }

  lemma Wrapped(x: int) returns (t: int)
    ensures Wrap(x) == x - 0x8000000000000000 * t
  {
    t := (x + 0x4000000000000000) / 0x8000000000000000;
  }

  /** Taking the top eight of eight, ten or twelve bits that end with those of a and b. */
  lemma Extract(data: int, a: int, b: int)
    requires 0 <= a < 64 && 0 <= b < 64
    ensures data % 0x1000 == a * 64 + b ==> data / 16 % 0x100 == Byte1(a, b) && data % 16 == b % 16
    ensures data % 0x400 == a % 16 * 64 + b ==> data / 4 % 0x100 == Byte2(a, b) && data % 4 == b % 4
    ensures data % 0x100 == a % 4 * 64 + b ==> data % 0x100 == Byte3(a, b)
  {
    if data % 0x1000 == a * 64 + b {
      Top12(data / 0x1000, a, b);
    }
    if data % 0x400 == a % 16 * 64 + b {
      Top10(data / 0x400, a % 16, b);
    }
  }

  lemma Top12(q: int, a: int, b: int)
    requires 0 <= a < 64 && 0 <= b < 64
    ensures var d := 0x1000 * q + (a * 64 + b); d / 16 % 0x100 == a * 4 + b / 16 && d % 16 == b % 16
  {
    Div16(0x100 * q + 4 * a, b);
    Low8(q, 4 * a + b / 16);
  }

  lemma Top10(q: int, a: int, b: int)
    requires 0 <= a < 16 && 0 <= b < 64
    ensures var d := 0x400 * q + (a * 64 + b); d / 4 % 0x100 == a * 16 + b / 4 && d % 4 == b % 4
  {
    Div4(0x100 * q + 16 * a, b);
    Low8(q, 16 * a + b / 4);
  }

  /** How many characters decode_string reads of n: all but a lone last one. */
  function Needed(n: nat): (k: nat)
    ensures k <= n && k * 6 / 8 == n * 6 / 8
  {
    (8 * (n * 6 / 8) + 5) / 6
  }

  /** A lone last character is one that follows whole groups of four. */
  lemma NeededExactly(n: nat)
    ensures Needed(n) == if n % 4 == 1 then n - 1 else n
  {
    var q, r := n / 4, n % 4;
    assert n == 4 * q + r;
    assert n * 6 / 8 == 3 * q + (if r == 0 then 0 else r - 1);
  }

  predicate AllDigits(tbl: seq<int>, s: seq<Byte>)
    requires Decodes(tbl)
  {
    forall i :: 0 <= i < |s| ==> tbl[s[i]] != -1
  }

  function Values(tbl: seq<int>, s: seq<Byte>): (d: seq<Digit>)
    requires Decodes(tbl) && AllDigits(tbl, s)
    ensures |d| == |s|
  {
    seq(|s|, i requires 0 <= i < |s| && AllDigits(tbl, s) => tbl[s[i]])
  }

  /** What decode_string promises. */
  function Decoded(s: seq<Byte>, tbl: seq<int>): Result<seq<Byte>>
    requires Decodes(tbl)
  {
    var read := s[..Needed(|s|)];
    if AllDigits(tbl, read) then Ok(Bytes(Values(tbl, read))) else InvalidChar
  }

  /** Byte j of what d holds. */
  function ByteOf(d: seq<Digit>, j: nat): Byte
    requires j / 3 * 4 + j % 3 + 1 < |d|
  {
    var q := j / 3 * 4;
    if j % 3 == 0 then Byte1(d[q], d[q + 1])
    else if j % 3 == 1 then Byte2(d[q + 1], d[q + 2]) else Byte3(d[q + 2], d[q + 3])
  }

  lemma {:induction false} BytesAt(d: seq<Digit>, j: nat)
    requires j < |Bytes(d)|
    ensures j / 3 * 4 + j % 3 + 1 < |d| && Bytes(d)[j] == ByteOf(d, j)
    decreases |d|
  {
    hide Byte1, Byte2, Byte3;
    if |d| >= 4 && j >= 3 {
      BytesAt(d[4..], j - 3);
      assert (j - 3) % 3 == j % 3 && (j - 3) / 3 * 4 == j / 3 * 4 - 4;
      assert Bytes(d)[j] == Bytes(d[4..])[j - 3];
    } else {
      assert j / 3 == 0 && j % 3 == j;
    }
  }

  method DecodeString(s: seq<Byte>, tbl: seq<int>) returns (r: Result<seq<Byte>>)
    requires |tbl| == 256 ==> Decodes(tbl)
    ensures r == if |tbl| == 256 then Decoded(s, tbl) else InvalidTable
  {
    hide Byte1, Byte2, Byte3, Bytes;
    if |tbl| != 256 {
      return InvalidTable;
    }
    var n := |s| * 6 / 8;
    var ch := new Decoder(tbl, s);
    var out: seq<Byte> := [];
    ghost var need := Needed(|s|);
    for j := 0 to n
      invariant ch.tbl == tbl && ch.input == s && ch.Low() && ch.count < 6
      invariant ch.pos * 6 - ch.count == 8 * j && forall i :: 0 <= i < ch.pos ==> ch.Digit(i)
      invariant |out| == j && forall k :: 0 <= k < j ==> ch.At(k) && out[k] == ch.ByteAt(k)
    {
      var b := ch.Fetch();
      if b == InvalidChar {
        assert s[..need][ch.pos - 1] == s[ch.pos - 1];
        return InvalidChar;
      }
      assert b.Ok?;
      ch.IsByte(j, b.value);
      out := out + [b.value];
    }
    assert ch.pos == need;
    assert forall i :: 0 <= i < need ==> ch.Digit(i);
    DecodedIs(ch, out);
    r := Ok(out);
  }

  lemma DecodedIs(ch: Decoder, out: seq<Byte>)
    requires Decodes(ch.tbl) && |out| == |ch.input| * 6 / 8
    requires forall i :: 0 <= i < Needed(|ch.input|) ==> ch.Digit(i)
    requires forall k :: 0 <= k < |out| ==> ch.At(k) && out[k] == ch.ByteAt(k)
    ensures Decoded(ch.input, ch.tbl) == Ok(out)
  {
    hide Byte1, Byte2, Byte3, Bytes;
    var read := ch.input[..Needed(|ch.input|)];
    assert AllDigits(ch.tbl, read) by {
      forall i | 0 <= i < |read|
        ensures ch.tbl[read[i]] != -1
      {
        assert ch.Digit(i);
      }
    }
    var d := Values(ch.tbl, read);
    ByteCount(d);
    forall k | 0 <= k < |out|
      ensures out[k] == Bytes(d)[k]
    {
      BytesAt(d, k);
      assert ch.At(k) && out[k] == ch.ByteAt(k);
    }
    assert Bytes(d) == out;
  }

  /**
   The documentation promises the exception whenever a character stands for nothing.  It is raised
   then, and only then, except when the lone last character is the only such one.
   */
  lemma InvalidCharExactly(s: seq<Byte>, tbl: seq<int>)
    requires Decodes(tbl)
    ensures (Decoded(s, tbl) == InvalidChar <==> !AllDigits(tbl, s)) <==>
      |s| % 4 != 1 || tbl[s[|s| - 1]] != -1 || !AllDigits(tbl, s[..|s| - 1])
  {
    hide Bytes, Needed;
    NeededExactly(|s|);
    if |s| % 4 == 1 {
      var init := s[..|s| - 1];
      assert s == init + [s[|s| - 1]];
      assert AllDigits(tbl, s) <==> AllDigits(tbl, init) && tbl[s[|s| - 1]] != -1;
    } else {
      assert s[..|s|] == s;
    }
  }

  /** Such a string: "!" decodes to nothing with the standard table. */
  lemma InvalidCharMissed(d: seq<int>)
    requires Inverts(d, CHARS)
    ensures d[33] == -1 && Decoded([33], d) == Ok([])
  {
    assert forall i :: 0 <= i < 64 ==> CHARS[i] != 33;
    NeededExactly(1);
    assert [33][..0] == [];
  }

  predicate Distinct(tbl: seq<Byte>) {
    forall i, j :: 0 <= i < j < |tbl| ==> tbl[i] != tbl[j]
  }

  /** With a table that make_decoding_table made, decoding undoes encoding. */
  lemma DecodeUndoesEncode(s: seq<Byte>, tbl: seq<Byte>, d: seq<int>)
    requires |tbl| == 64 && Inverts(d, tbl) && Distinct(tbl)
    ensures Decoded(Spell(tbl, Digits(s)), d) == Ok(s)
    ensures |Spell(tbl, Digits(s))| == (8 * |s| + 5) / 6
  {
    hide Digits, Bytes, Needed, Spell, Inverts, Distinct, AllDigits, Values;
    var t := Spell(tbl, Digits(s));
    DigitCount(s);
    BytesOfDigits(s);
    NeededAll(|s|);
    assert t[..|t|] == t;
    SpelledBack(tbl, d, Digits(s));
  }

  /** Of what encoding writes, decoding reads everything. */
  lemma NeededAll(n: nat)
    ensures Needed((8 * n + 5) / 6) == (8 * n + 5) / 6
  {
    hide Needed;
    NeededExactly((8 * n + 5) / 6);
    NoSuchLength(n);
  }

  /** Encoding does not write one character more than a multiple of four. */
  lemma NoSuchLength(n: nat)
    ensures (8 * n + 5) / 6 % 4 != 1
  {
    var k := (8 * n + 5) / 6;
    var q, r := k / 4, k % 4;
    assert k == 4 * q + r && 6 * k <= 8 * n + 5 <= 6 * k + 5;
    NotBetween(n, q);
  }

  lemma NotBetween(n: int, q: int)
    ensures !(24 * q + 6 <= 8 * n + 5 <= 24 * q + 11)
  {
  }

  lemma SpelledBack(tbl: seq<Byte>, d: seq<int>, ds: seq<Digit>)
    requires |tbl| == 64 && Inverts(d, tbl) && Distinct(tbl)
    ensures Decodes(d) && AllDigits(d, Spell(tbl, ds)) && Values(d, Spell(tbl, ds)) == ds
  {
    forall i | 0 <= i < |ds|
      ensures d[Spell(tbl, ds)[i]] == ds[i]
    {
      assert Spell(tbl, ds)[i] == tbl[ds[i]];
    }
  }

  /** The round trip holds for every string exactly when the characters of the table are distinct. */
  lemma RoundTripIffDistinct(tbl: seq<Byte>, d: seq<int>)
    requires |tbl| == 64 && Inverts(d, tbl)
    ensures (forall s :: Decoded(Spell(tbl, Digits(s)), d) == Ok(s)) <==> Distinct(tbl)
  {
    if Distinct(tbl) {
      forall s: seq<Byte>
        ensures Decoded(Spell(tbl, Digits(s)), d) == Ok(s)
      {
        DecodeUndoesEncode(s, tbl, d);
      }
    } else {
      var i, j :| 0 <= i < j < 64 && tbl[i] == tbl[j];
      Confused(tbl, d, i, j);
    }
  }

  /** Two equal characters: the byte that begins with the first one's digit comes back different. */
  lemma Confused(tbl: seq<Byte>, d: seq<int>, i: nat, j: nat)
    requires |tbl| == 64 && Inverts(d, tbl) && i < j < 64 && tbl[i] == tbl[j]
    ensures Decoded(Spell(tbl, Digits([4 * i])), d) != Ok([4 * i])
  {
    var s: seq<Byte> := [4 * i];
    assert Digits(s) == [i, 0];
    var t := Spell(tbl, Digits(s));
    assert t == [tbl[i], tbl[0]];
    assert t[..Needed(2)] == t;
    assert d[tbl[j]] >= j;
    assert Values(d, t) == [d[tbl[i]], d[tbl[0]]];
  }

  /** The standard table: A-Z, a-z, 0-9, + and /. */
  const CHARS: seq<Byte> := seq(64, i =>
    if i < 26 then 65 + i else if i < 52 then 71 + i else if i < 62 then i - 4 else if i == 62 then 43 else 47)

  lemma LettersWritten(i: nat)
    requires i < 26
    ensures CHARS[i] == "ABCDEFGHIJKLMNOPQRSTUVWXYZ"[i] as int
    ensures CHARS[26 + i] == "abcdefghijklmnopqrstuvwxyz"[i] as int
  {
  }

  /** The standard table in its characters. */
  lemma CharsWritten()
    ensures |CHARS| == 64
    ensures forall i :: 0 <= i < 26 ==> CHARS[i] == "ABCDEFGHIJKLMNOPQRSTUVWXYZ"[i] as int
    ensures forall i :: 0 <= i < 26 ==> CHARS[26 + i] == "abcdefghijklmnopqrstuvwxyz"[i] as int
    ensures forall i :: 0 <= i < 12 ==> CHARS[52 + i] == "0123456789+/"[i] as int
  {
    forall i | 0 <= i < 26
      ensures CHARS[i] == "ABCDEFGHIJKLMNOPQRSTUVWXYZ"[i] as int
      ensures CHARS[26 + i] == "abcdefghijklmnopqrstuvwxyz"[i] as int
    {
      LettersWritten(i);
    }
  }

  lemma CharsDistinct()
    ensures |CHARS| == 64 && Distinct(CHARS)
  {
  }

  /** The round trip with the default tables. */
  lemma StandardRoundTrip(s: seq<Byte>, d: seq<int>)
    requires Inverts(d, CHARS)
    ensures Decoded(Spell(CHARS, Digits(s)), d) == Ok(s)
  {
    CharsDistinct();
    DecodeUndoesEncode(s, CHARS, d);
  }
}
