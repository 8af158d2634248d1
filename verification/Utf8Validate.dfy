/**
 UnicodeString.validate for UTF8 (std/UnicodeString.hx:44-113) against the grammar of section 4 of
 RFC 3629, and that grammar against the encodings of Unicode scalar values.
 */
module Utf8Validate {

  import opened Utf8

  datatype Encoding = UTF8 | RawNative

  // ------------------------------------------------------------------ the grammar

  predicate In(b: Byte, lo: int, hi: int) {
    lo <= b <= hi
  }

  predicate IsTail(b: Byte) {
    In(b, 0x80, 0xbf)
  }

  predicate Utf8_1(t: seq<Byte>) {
    |t| == 1 && In(t[0], 0x00, 0x7f)
  }

  predicate Utf8_2(t: seq<Byte>) {
    |t| == 2 && In(t[0], 0xc2, 0xdf) && IsTail(t[1])
  }

  predicate Utf8_3(t: seq<Byte>) {
    |t| == 3 && IsTail(t[2]) && (
      || (In(t[0], 0xe0, 0xe0) && In(t[1], 0xa0, 0xbf))
      || (In(t[0], 0xe1, 0xec) && IsTail(t[1]))
      || (In(t[0], 0xed, 0xed) && In(t[1], 0x80, 0x9f))
      || (In(t[0], 0xee, 0xef) && IsTail(t[1])))
  }

  predicate Utf8_4(t: seq<Byte>) {
    |t| == 4 && IsTail(t[2]) && IsTail(t[3]) && (
      || (In(t[0], 0xf0, 0xf0) && In(t[1], 0x90, 0xbf))
      || (In(t[0], 0xf1, 0xf3) && IsTail(t[1]))
      || (In(t[0], 0xf4, 0xf4) && In(t[1], 0x80, 0x8f)))
  }

  predicate Utf8Char(t: seq<Byte>) {
    Utf8_1(t) || Utf8_2(t) || Utf8_3(t) || Utf8_4(t)
  }

  /** UTF8-octets: any number of characters. */
  predicate Octets(s: seq<Byte>)
    decreases |s|
  {
    s == [] || exists n :: 1 <= n <= |s| && Utf8Char(s[..n]) && Octets(s[n..])
  }

  // ------------------------------------------------------------------ the loop

  /** How many bytes a character with this head byte has. */
  function Size(head: Byte): nat {
    if head < 0x80 then 1 else if head < 0xe0 then 2 else if head < 0xf0 then 3 else 4
  }

  lemma OctetsStep(s: seq<Byte>)
    requires s != []
    ensures Octets(s) <==> Size(s[0]) <= |s| && Utf8Char(s[..Size(s[0])]) && Octets(s[Size(s[0])..])
  {
    forall n | 1 <= n <= |s| && Utf8Char(s[..n])
      ensures n == Size(s[0])
    {
      assert s[..n][0] == s[0];
    }
  }

  /** One round of the loop: whether a character stands at pos. */
  predicate CharAt(s: seq<Byte>, pos: nat)
    requires pos < |s|
  {
    var n := Size(s[pos]);
    pos + n <= |s| && Utf8Char(s[pos..pos + n])
  }

  lemma FromPos(s: seq<Byte>, pos: nat)
    requires pos < |s|
    ensures Octets(s[pos..]) <==> CharAt(s, pos) && Octets(s[pos + Size(s[pos])..])
  {
    OctetsStep(s[pos..]);
    var n := Size(s[pos]);
    if pos + n <= |s| {
      assert s[pos..][..n] == s[pos..pos + n];
      assert s[pos..][n..] == s[pos + n..];
    }
  }

  /** The same byte by byte. */
  lemma CharBytes(s: seq<Byte>, p: nat)
    requires p < |s|
    ensures s[p] < 0x80 ==> CharAt(s, p)
    ensures 0x80 <= s[p] < 0xe0 ==> (CharAt(s, p) <==> s[p] >= 0xc2 && p + 2 <= |s| && IsTail(s[p + 1]))
    ensures 0xe0 <= s[p] < 0xf0 ==> (CharAt(s, p) <==>
      && p + 3 <= |s| && IsTail(s[p + 1]) && IsTail(s[p + 2])
      && (s[p] == 0xe0 ==> s[p + 1] >= 0xa0) && (s[p] == 0xed ==> s[p + 1] <= 0x9f))
    ensures s[p] >= 0xf0 ==> (CharAt(s, p) <==>
      && s[p] <= 0xf4 && p + 4 <= |s| && IsTail(s[p + 1]) && IsTail(s[p + 2]) && IsTail(s[p + 3])
      && (s[p] == 0xf0 ==> s[p + 1] >= 0x90) && (s[p] == 0xf4 ==> s[p + 1] <= 0x8f))
  {
  }

  /** The answer, or no answer when the source throws. */
  method Validate(b: array<Byte>, encoding: Encoding) returns (r: Result<bool>)
    ensures encoding == RawNative ==> r == InvalidArg
    ensures encoding == UTF8 ==> r == Ok(Octets(b[..]))
  {
    hide Octets, CharAt, Utf8Char;
    if encoding == RawNative {
      return InvalidArg;
    }
    var data := b[..];
    var pos, max := 0, b.Length;
    assert data[0..] == data;
    while pos < max
      invariant 0 <= pos <= max
      invariant Octets(data) <==> Octets(data[pos..])
    {
      FromPos(data, pos);
      CharBytes(data, pos);
      var c: int := data[pos];
      pos := pos + 1;
      if c < 0x80 {
      } else if c < 0xc2 {
        return Ok(false);
      } else if c < 0xe0 {
        if pos + 1 > max {
          return Ok(false);
        }
        var c2: int := data[pos];
        pos := pos + 1;
        if c2 < 0x80 || c2 > 0xbf {
          return Ok(false);
        }
      } else if c < 0xf0 {
        if pos + 2 > max {
          return Ok(false);
        }
        var c2: int := data[pos];
        pos := pos + 1;
        if c == 0xe0 {
          if c2 < 0xa0 || c2 > 0xbf {
            return Ok(false);
          }
        } else {
          if c2 < 0x80 || c2 > 0xbf {
            return Ok(false);
          }
        }
        var c3: int := data[pos];
        pos := pos + 1;
        if c3 < 0x80 || c3 > 0xbf {
          return Ok(false);
        }
        c := c * 0x10000 + c2 * 0x100 + c3;
        if 0xeda080 <= c <= 0xedbfbf {
          return Ok(false);
        }
      } else if c > 0xf4 {
        return Ok(false);
      } else {
        if pos + 3 > max {
          return Ok(false);
        }
        var c2: int := data[pos];
        pos := pos + 1;
        if c == 0xf0 {
          if c2 < 0x90 || c2 > 0xbf {
            return Ok(false);
          }
        } else if c == 0xf4 {
          if c2 < 0x80 || c2 > 0x8f {
            return Ok(false);
          }
        } else {
          if c2 < 0x80 || c2 > 0xbf {
            return Ok(false);
          }
        }
        var c3: int := data[pos];
        pos := pos + 1;
        if c3 < 0x80 || c3 > 0xbf {
          return Ok(false);
        }
        var c4: int := data[pos];
        pos := pos + 1;
        if c4 < 0x80 || c4 > 0xbf {
          return Ok(false);
        }
      }
    }
    NoOctets(data[pos..]);
    return Ok(true);
  }

  lemma NoOctets(s: seq<Byte>)
    requires |s| == 0
    ensures Octets(s)
  {
  }

  // ------------------------------------------------------------------ scalar values

  predicate Scalar(k: int) {
    0 <= k < 0x110000 && !(0xd800 <= k < 0xe000)
  }

  /** What up to three continuation bytes spell, written out. */
  lemma Spelled3(s: seq<Byte>, i: nat, a: nat)
    ensures i + 1 <= |s| && IsTail(s[i]) ==> Trail(s, 1, i, a) == Ok(a * 64 + (s[i] - 0x80))
    ensures i + 2 <= |s| && IsTail(s[i]) && IsTail(s[i + 1]) ==>
      Trail(s, 2, i, a) == Ok((a * 64 + (s[i] - 0x80)) * 64 + (s[i + 1] - 0x80))
    ensures i + 3 <= |s| && IsTail(s[i]) && IsTail(s[i + 1]) && IsTail(s[i + 2]) ==>
      Trail(s, 3, i, a) == Ok(((a * 64 + (s[i] - 0x80)) * 64 + (s[i + 1] - 0x80)) * 64 + (s[i + 2] - 0x80))
  {
    if i + 1 <= |s| && IsTail(s[i]) {
      var a1 := a * 64 + (s[i] - 0x80);
      assert Trail(s, 1, i, a) == Trail(s, 0, i + 1, a1);
      if i + 2 <= |s| && IsTail(s[i + 1]) {
        var a2 := a1 * 64 + (s[i + 1] - 0x80);
        assert Trail(s, 2, i, a) == Trail(s, 1, i + 1, a1) == Trail(s, 0, i + 2, a2);
        assert Trail(s, 3, i, a) == Trail(s, 2, i + 1, a1) == Trail(s, 1, i + 2, a2);
        assert i + 3 <= |s| && IsTail(s[i + 2]) ==>
          Trail(s, 1, i + 2, a2) == Trail(s, 0, i + 3, a2 * 64 + (s[i + 2] - 0x80));
      }
    }
  }

  lemma CharIsScalar(t: seq<Byte>) returns (k: nat)
    requires Utf8Char(t)
    ensures Scalar(k) && t == Enc(k)
  {
    hide Trail, Shifted, Tail, Value, Enc;
    var c := |t| - 1;
    var a := t[0] - Base(c);
    NoTrail(t, 1, a);
    Spelled3(t, 1, a);
    k := Trail(t, c, 1, a).value;
    AtSpelled(t, 0, c, k);
    assert t[0..c + 1] == t;
  }

  lemma ScalarIsChar(k: nat)
    requires Scalar(k)
    ensures Utf8Char(Enc(k))
  {
    hide Shifted, Tail, Group;
    var c := Extra(k);
    ShiftedBounds(k);
    TailGroups(k);
    NoTrail([], 0, k);
    GroupOf(k);
    assert c >= 2 ==> Tail(k, 2) == [Group(k, 0x40), Group(k, 1)];
    assert c == 3 ==> Tail(k, 3) == [Group(k, 0x1000), Group(k, 0x40), Group(k, 1)];
  }

  lemma GroupOf(k: nat)
    ensures Group(k, 1) == 0x80 + k % 0x40 && Group(k, 0x40) == 0x80 + k / 0x40 % 0x40
    ensures Group(k, 0x1000) == 0x80 + k / 0x1000 % 0x40
  {
  }

  predicate Scalars(ks: seq<nat>) {
    forall k :: k in ks ==> Scalar(k)
  }

  lemma {:induction false} OctetsAreScalars(s: seq<Byte>) returns (ks: seq<nat>)
    requires Octets(s)
    ensures Codes(ks) && Scalars(ks) && s == EncodeAll(ks)
    decreases |s|
  {
    hide Utf8Char, Enc, Size;
    if s == [] {
      ks := [];
    } else {
      OctetsStep(s);
      var n := Size(s[0]);
      var k := CharIsScalar(s[..n]);
      var rest := OctetsAreScalars(s[n..]);
      ks := [k] + rest;
      assert ks[1..] == rest && s == s[..n] + s[n..];
    }
  }

  lemma {:induction false} ScalarsAreOctets(ks: seq<nat>)
    requires Codes(ks) && Scalars(ks)
    ensures Octets(EncodeAll(ks))
    decreases |ks|
  {
    if ks != [] {
      ScalarsAreOctets(ks[1..]);
      ScalarIsChar(ks[0]);
      var e, rest := Enc(ks[0]), EncodeAll(ks[1..]);
      var s := e + rest;
      assert s[..|e|] == e && s[|e|..] == rest;
    }
  }

  /**
   What validate accepts is what encodes Unicode scalar values, and UTF8.validate of the other
   library accepts it too.
   */
  lemma ValidIffScalars(s: seq<Byte>)
    ensures Octets(s) <==> exists ks :: Codes(ks) && Scalars(ks) && EncodeAll(ks) == s
    ensures Octets(s) ==> Utf8.Validate(s).Ok?
  {
    if Octets(s) {
      var ks := OctetsAreScalars(s);
      assert Codes(ks) && Scalars(ks) && EncodeAll(ks) == s;
      CheckEncoded(ks, 0);
      assert Offset(ks, 0) == 0;
    }
    forall ks | Codes(ks) && Scalars(ks) && EncodeAll(ks) == s
      ensures Octets(s)
    {
      ScalarsAreOctets(ks);
    }
  }

  /** Of the encodings of single code points, it accepts those of the code points below 0x110000 but the surrogates. */
  lemma ValidOfOne(k: nat)
    requires k < 0x80000000
    ensures Octets(Enc(k)) <==> k < 0xd800 || 0xe000 <= k < 0x110000
  {
    hide Enc, Octets;
    var one := [k];
    assert one[1..] == [] && EncodeAll(one) == Enc(k) + EncodeAll([]);
    ValidIffScalars(Enc(k));
    if Octets(Enc(k)) {
      var ks :| Codes(ks) && Scalars(ks) && EncodeAll(ks) == Enc(k);
      UniquelyEncoded(ks, one);
      assert k in ks;
    }
    if Scalar(k) {
      assert Codes(one) && Scalars(one) && EncodeAll(one) == Enc(k);
    }
  }
}
