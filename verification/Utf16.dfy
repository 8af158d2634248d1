/**
 UnicodeString on targets whose strings are UTF-16 (std/UnicodeString.hx:137-427,
 std/StringTools.hx:632-638).  The methods walk the code units; their partner is the sequence of
 code points and the encoding of section 2 of RFC 2781.
 */
module Utf16 {

  type Unit = n: int | 0 <= n < 0x10000

  datatype Option<T> = None | Some(value: T)

  predicate High(u: int) {
    0xd800 <= u <= 0xdbff
  }

  // ------------------------------------------------------------------ the encoding

  predicate Scalar(c: int) {
    0 <= c < 0x110000 && !(0xd800 <= c < 0xe000)
  }

  /** One code point as one unit or two.  String.fromCharCode does this. */
  function Encode(c: int): (e: seq<Unit>)
    requires 0 <= c < 0x110000
    ensures |e| == if c < 0x10000 then 1 else 2
  {
    if c < 0x10000 then [c]
    else
      var u := c - 0x10000;
      [0xd800 + u / 0x400, 0xdc00 + u % 0x400]
  }

  predicate Points(cs: seq<int>) {
    forall i :: 0 <= i < |cs| ==> 0 <= cs[i] < 0x110000
  }

  function EncodeAll(cs: seq<int>): seq<Unit>
    requires Points(cs)
  {
    if cs == [] then [] else Encode(cs[0]) + EncodeAll(cs[1..])
  }

  predicate Scalars(cs: seq<int>) {
    forall i :: 0 <= i < |cs| ==> Scalar(cs[i])
  }

  // ------------------------------------------------------------------ walking

  /** A target on which a read past the end gives -1. */
  function FastCodeAt(s: seq<Unit>, i: nat): int {
    if i < |s| then s[i] else -1
  }

  function CodePointAt(s: seq<Unit>, i: nat): (c: int)
    ensures c >= 0x10000 <==> i < |s| && High(s[i])
    ensures i < |s| ==> 0 <= c < 0x110000
  {
    var c := FastCodeAt(s, i);
    if 0xd800 <= c <= 0xdbff then (c - 0xd7c0) * 0x400 + FastCodeAt(s, i + 1) % 0x400
    else c
  }

  function Min(a: int, b: int): int {
    if a <= b then a else b
  }

  /** Where the character after the one at i begins, in the string. */
  function After(s: seq<Unit>, i: nat): (j: nat)
    requires i < |s|
    ensures i < j <= |s|
  {
    Min(i + (if High(s[i]) then 2 else 1), |s|)
  }

  /** Where character n begins, or the end. */
  function Cut(s: seq<Unit>, n: nat): (i: nat)
    ensures i <= |s|
  {
    if n == 0 then 0
    else
      var i := Cut(s, n - 1);
      if i == |s| then i else After(s, i)
  }

  /** The code points that a walk from i sees. */
  function CharsFrom(s: seq<Unit>, i: nat): (cs: seq<int>)
    ensures Points(cs)
    decreases |s| - i
  {
    if i >= |s| then [] else [CodePointAt(s, i)] + CharsFrom(s, After(s, i))
  }

  function Chars(s: seq<Unit>): (cs: seq<int>)
    ensures Points(cs)
  {
    CharsFrom(s, 0)
  }

  lemma {:induction false} WalkAt(s: seq<Unit>, n: nat)
    ensures Cut(s, n) < |s| <==> n < |Chars(s)|
    ensures n <= |Chars(s)| ==> CharsFrom(s, Cut(s, n)) == Chars(s)[n..]
    ensures n < |Chars(s)| ==> Chars(s)[n] == CodePointAt(s, Cut(s, n))
  {
    if n > 0 {
      WalkAt(s, n - 1);
      if n <= |Chars(s)| {
        assert Chars(s)[n - 1..][1..] == Chars(s)[n..];
      }
    }
  }

  lemma {:induction false} CutOrder(s: seq<Unit>, a: nat, b: nat)
    requires a <= b
    ensures Cut(s, a) <= Cut(s, b)
    decreases b
  {
    if a < b {
      CutOrder(s, a, b - 1);
    }
  }

  lemma CutEnd(s: seq<Unit>, n: nat)
    requires n >= |Chars(s)|
    ensures Cut(s, n) == |s|
  {
    WalkAt(s, n);
  }

  // ------------------------------------------------------------------ which characters are asked for

  /** The characters that substr promises, of n: from the first up to but not including the second. */
  function SubstrBounds(n: nat, pos: int, len: Option<int>): (r: (nat, nat))
    ensures r.0 <= r.1 <= n
  {
    var from := if pos >= 0 then Min(pos, n) else if n + pos >= 0 then n + pos else 0;
    if len == None then (from, n)
    else
      var l := if len.value < 0 then n + len.value else len.value;
      (from, if l <= 0 then from else Min(from + l, n))
  }

  function SubstringBounds(n: nat, startIndex: int, endIndex: Option<int>): (r: (nat, nat))
    ensures r.0 <= r.1 <= n
  {
    var a := if startIndex < 0 then 0 else Min(startIndex, n);
    if endIndex == None then (a, n)
    else
      var b := if endIndex.value < 0 then 0 else Min(endIndex.value, n);
      if a <= b then (a, b) else (b, a)
  }

  /** The units of the characters in these bounds. */
  function Units(s: seq<Unit>, r: (nat, nat)): seq<Unit>
    requires r.0 <= r.1
  {
    CutOrder(s, r.0, r.1);
    s[Cut(s, r.0)..Cut(s, r.1)]
  }

  function SubstrOf(s: seq<Unit>, pos: int, len: Option<int>): seq<Unit> {
    Units(s, SubstrBounds(|Chars(s)|, pos, len))
  }

  function SubstringOf(s: seq<Unit>, startIndex: int, endIndex: Option<int>): seq<Unit> {
    Units(s, SubstringBounds(|Chars(s)|, startIndex, endIndex))
  }

  // ------------------------------------------------------------------ the methods

  /** The native substr, for a start that is not negative. */
  function NativeSubstr(s: seq<Unit>, pos: nat, len: nat): seq<Unit> {
    if pos >= |s| then [] else s[pos..Min(pos + len, |s|)]
  }

  method Length(s: seq<Unit>) returns (l: nat)
    ensures l == |Chars(s)|
  {
    l := 0;
    var offset := 0;
    while offset < |s|
      invariant offset <= |s| + 1 && Min(offset, |s|) == Cut(s, l) && l <= |Chars(s)|
      decreases |s| - offset
    {
      WalkAt(s, l);
      var c := CodePointAt(s, offset);
      offset := offset + 1;
      if c >= 0x10000 {
        offset := offset + 1;
      }
      l := l + 1;
    }
    WalkAt(s, l);
  }

  method CharCodeAt(s: seq<Unit>, index: int) returns (r: Option<int>)
    ensures r == if 0 <= index < |Chars(s)| then Some(Chars(s)[index]) else None
  {
    if index < 0 {
      return None;
    }
    var unicodeOffset, nativeOffset := 0, 0;
    while nativeOffset < |s|
      invariant 0 <= unicodeOffset <= index && unicodeOffset <= |Chars(s)|
      invariant nativeOffset <= |s| + 1 && Min(nativeOffset, |s|) == Cut(s, unicodeOffset)
      decreases |s| - nativeOffset
    {
      WalkAt(s, unicodeOffset);
      var c := CodePointAt(s, nativeOffset);
      nativeOffset := nativeOffset + 1;
      if unicodeOffset == index {
        return Some(c);
      }
      if c >= 0x10000 {
        nativeOffset := nativeOffset + 1;
      }
      unicodeOffset := unicodeOffset + 1;
    }
    WalkAt(s, unicodeOffset);
    return None;
  }

  method CharAt(s: seq<Unit>, index: int) returns (r: seq<Unit>)
    ensures r == if 0 <= index < |Chars(s)| then Encode(Chars(s)[index]) else []
  {
    if index < 0 {
      return [];
    }
    var unicodeOffset, nativeOffset := 0, 0;
    while nativeOffset < |s|
      invariant 0 <= unicodeOffset <= index && unicodeOffset <= |Chars(s)|
      invariant nativeOffset <= |s| + 1 && Min(nativeOffset, |s|) == Cut(s, unicodeOffset)
      decreases |s| - nativeOffset
    {
      WalkAt(s, unicodeOffset);
      var c := CodePointAt(s, nativeOffset);
      nativeOffset := nativeOffset + 1;
      if unicodeOffset == index {
        return Encode(c);
      }
      if c >= 0x10000 {
        nativeOffset := nativeOffset + 1;
      }
      unicodeOffset := unicodeOffset + 1;
    }
    WalkAt(s, unicodeOffset);
    return [];
  }

  method Substr(s: seq<Unit>, pos: int, len: Option<int>) returns (r: seq<Unit>)
    ensures r == SubstrOf(s, pos, len)
  {
    ghost var n := |Chars(s)|;
    var from, count := pos, len;
    if from < 0 {
      var l := Length(s);
      from := l + from;
      if from < 0 {
        from := 0;
      }
    }
    if count != None {
      if count.value < 0 {
        var l := Length(s);
        count := Some(l + count.value);
      }
      if count.value <= 0 {
        return [];
      }
    }
    r := Collect(s, from, count);
  }

  /** One step of a walk. */
  lemma WalkStep(s: seq<Unit>, n: nat)
    requires Cut(s, n) < |s|
    ensures n < |Chars(s)|
    ensures Cut(s, n + 1) == Min(Cut(s, n) + (if CodePointAt(s, Cut(s, n)) >= 0x10000 then 2 else 1), |s|)
  {
    WalkAt(s, n);
  }

  /** The loop that substr and substring share: count characters from number `from` on. */
  method Collect(s: seq<Unit>, from: nat, count: Option<int>) returns (r: seq<Unit>)
    requires count != None ==> count.value > 0
    ensures var n := |Chars(s)|;
      r == Units(s, (Min(from, n), if count == None then n else Min(from + count.value, n)))
  {
    hide Cut, Chars, CodePointAt;
    ghost var n := |Chars(s)|;
    CutEnd(s, n);
    var unicodeOffset, nativeOffset := 0, 0;
    var fromOffset, subLength := -1, 0;
    CutStart(s);
    while nativeOffset < |s|
      invariant 0 <= unicodeOffset <= n
      invariant 0 <= nativeOffset <= |s| + 1 && Min(nativeOffset, |s|) == Cut(s, unicodeOffset)
      invariant fromOffset < 0 ==> unicodeOffset <= from && subLength == 0
      invariant fromOffset >= 0 ==> from < n && count != None && fromOffset == Cut(s, from) < |s|
      invariant fromOffset >= 0 ==> 0 < subLength == unicodeOffset - from < count.value
      decreases |s| - nativeOffset
    {
      WalkStep(s, unicodeOffset);
      var c := CodePointAt(s, nativeOffset);
      if unicodeOffset >= from {
        if fromOffset < 0 {
          if count == None {
            return NativeSubstr(s, nativeOffset, |s|);
          }
          fromOffset := nativeOffset;
        }
        subLength := subLength + 1;
        if subLength >= count.value {
          CutOrder(s, from, unicodeOffset);
          var lastOffset := if c < 0x10000 then nativeOffset else nativeOffset + 1;
          return NativeSubstr(s, fromOffset, lastOffset - fromOffset + 1);
        }
      }
      nativeOffset := nativeOffset + (if c >= 0x10000 then 2 else 1);
      unicodeOffset := unicodeOffset + 1;
    }
    WalkAt(s, unicodeOffset);
    return if fromOffset < 0 then [] else NativeSubstr(s, fromOffset, |s|);
  }

  lemma CutStart(s: seq<Unit>)
    ensures Cut(s, 0) == 0
  {
  }

  method Substring(s: seq<Unit>, startIndex: int, endIndex: Option<int>) returns (r: seq<Unit>)
    ensures r == SubstringOf(s, startIndex, endIndex)
  {
    var start, end := startIndex, endIndex;
    if start < 0 {
      start := 0;
    }
    if end != None {
      if end.value < 0 {
        end := Some(0);
      }
      if start == end.value {
        return [];
      }
      if start > end.value {
        start, end := end.value, Some(start);
      }
    }
    r := Collect(s, start, if end == None then None else Some(end.value - start));
  }

  // ------------------------------------------------------------------ well-formed strings

  lemma {:induction false} EncodeAllConcat(a: seq<int>, b: seq<int>)
    requires Points(a) && Points(b)
    ensures Points(a + b) && EncodeAll(a + b) == EncodeAll(a) + EncodeAll(b)
    decreases |a|
  {
    hide Encode;
    if a == [] {
      assert a + b == b;
    } else {
      EncodeAllConcat(a[1..], b);
      assert (a + b)[1..] == a[1..] + b;
    }
  }

  /** The unit or units of cs[n] stand behind the encoding of what is before it. */
  lemma EncodedAt(cs: seq<int>, n: nat)
    requires Points(cs) && n < |cs|
    ensures var i := |EncodeAll(cs[..n])|; var e := Encode(cs[n]);
      i + |e| <= |EncodeAll(cs)| && EncodeAll(cs)[i..i + |e|] == e && |EncodeAll(cs[..n + 1])| == i + |e|
  {
    var a, b, c := cs[..n], [cs[n]], cs[n + 1..];
    EncodeAllConcat(a, b);
    EncodeAllConcat(a + b, c);
    assert cs == a + b + c && cs[..n + 1] == a + b;
    assert b[1..] == [];
    assert EncodeAll(b) == Encode(cs[n]) + EncodeAll([]);
  }

  /** Reading an encoded code point gives it back, and its width. */
  lemma DecodeOne(s: seq<Unit>, i: nat, c: int)
    requires Scalar(c) && i + |Encode(c)| <= |s| && s[i..i + |Encode(c)|] == Encode(c)
    ensures CodePointAt(s, i) == c && After(s, i) == i + |Encode(c)|
  {
    var e := s[i..i + |Encode(c)|];
    assert e[0] == s[i];
    if c >= 0x10000 {
      assert e[1] == s[i + 1];
      var h: int := s[i];
      assert (h - 0xd7c0) * 0x400 == 0x10000 + (c - 0x10000) / 0x400 * 0x400;
      assert s[i + 1] % 0x400 == (c - 0x10000) % 0x400;
    }
  }

  lemma {:induction false} CutEncoded(cs: seq<int>, n: nat)
    requires Scalars(cs) && n <= |cs|
    ensures Cut(EncodeAll(cs), n) == |EncodeAll(cs[..n])|
  {
    hide Encode, CodePointAt;
    if n > 0 {
      CutEncoded(cs, n - 1);
      EncodedAt(cs, n - 1);
      DecodeOne(EncodeAll(cs), Cut(EncodeAll(cs), n - 1), cs[n - 1]);
    }
  }

  lemma CutNext(s: seq<Unit>, n: nat)
    requires Cut(s, n) < |s|
    ensures Cut(s, n + 1) == After(s, Cut(s, n))
  {
  }

  lemma {:induction false} CharsEncoded(cs: seq<int>, n: nat)
    requires Scalars(cs) && n <= |cs|
    ensures CharsFrom(EncodeAll(cs), Cut(EncodeAll(cs), n)) == cs[n..]
    decreases |cs| - n
  {
    hide EncodeAll, Cut, Encode, CodePointAt, After;
    var s := EncodeAll(cs);
    CutEncoded(cs, n);
    if n == |cs| {
      assert cs[..n] == cs;
    } else {
      EncodedAt(cs, n);
      DecodeOne(s, Cut(s, n), cs[n]);
      CutNext(s, n);
      CharsEncoded(cs, n + 1);
      assert cs[n..] == [cs[n]] + cs[n + 1..];
    }
  }

  /** A well-formed string is walked as the code points that it encodes. */
  lemma CharsAreEncoded(cs: seq<int>)
    requires Scalars(cs)
    ensures Chars(EncodeAll(cs)) == cs
  {
    CharsEncoded(cs, 0);
    assert cs[0..] == cs;
  }

  function Slice(cs: seq<int>, r: (nat, nat)): (d: seq<int>)
    requires r.0 <= r.1 <= |cs|
    ensures Scalars(cs) ==> Points(cs) && Points(d)
  {
    cs[r.0..r.1]
  }

  /** The units between two cuts encode the code points between them. */
  lemma UnitsEncode(cs: seq<int>, r: (nat, nat))
    requires Scalars(cs) && r.0 <= r.1 <= |cs|
    ensures Units(EncodeAll(cs), r) == EncodeAll(Slice(cs, r))
  {
    hide EncodeAll, Cut, Encode, Points, Scalars;
    var a, b, c := Slice(cs, (0, r.0)), Slice(cs, r), Slice(cs, (r.1, |cs|));
    CutEncoded(cs, r.0);
    CutEncoded(cs, r.1);
    assert cs == (a + b) + c && cs[..r.0] == a && cs[..r.1] == a + b;
    EncodeAllConcat(a, b);
    EncodeAllConcat(a + b, c);
    Middle(EncodeAll(a), EncodeAll(b), EncodeAll(c));
  }

  lemma Middle(a: seq<Unit>, b: seq<Unit>, c: seq<Unit>)
    ensures ((a + b) + c)[|a|..|a + b|] == b
  {
  }

  /**
   With the contracts of the methods: substr and substring of an encoded sequence are the encodings
   of the slice of the sequence, and the length is its length, for every argument.
   */
  lemma SlicesOfEncoded(cs: seq<int>, pos: int, len: Option<int>)
    requires Scalars(cs)
    ensures |Chars(EncodeAll(cs))| == |cs|
    ensures SubstrOf(EncodeAll(cs), pos, len) == EncodeAll(Slice(cs, SubstrBounds(|cs|, pos, len)))
    ensures SubstringOf(EncodeAll(cs), pos, len) == EncodeAll(Slice(cs, SubstringBounds(|cs|, pos, len)))
  {
    hide EncodeAll, Cut, Encode, Units, SubstrBounds, SubstringBounds, Slice;
    CharsAreEncoded(cs);
    UnitsEncode(cs, SubstrBounds(|cs|, pos, len));
    UnitsEncode(cs, SubstringBounds(|cs|, pos, len));
  }

  lemma AllScalars(cs: seq<int>)
    requires forall i :: 0 <= i < |cs| ==> 0 <= cs[i] < 0xd800 || 0xe000 <= cs[i] < 0x110000
    ensures Scalars(cs) && Points(cs)
  {
  }

  lemma Part(cs: seq<int>, a: int, b: int)
    requires Scalars(cs) && 0 <= a <= b <= |cs|
    ensures Points(cs[a..b]) && Slice(cs, (a, b)) == cs[a..b]
  {
  }

  lemma SubstringBoundsAre(n: nat, a: int, b: int)
    ensures 0 <= a <= b <= n ==> SubstringBounds(n, a, Some(b)) == (a, b)
    ensures SubstringBounds(n, a, Some(b)) == SubstringBounds(n, b, Some(a))
    ensures a < 0 ==> SubstringBounds(n, a, Some(b)) == SubstringBounds(n, 0, Some(b))
    ensures a > n ==> SubstringBounds(n, a, Some(b)) == SubstringBounds(n, n, Some(b))
    ensures SubstringBounds(n, a, None) == SubstringBounds(n, a, Some(n))
  {
  }

  lemma SubstrBoundsOfLen(n: nat, pos: int, len: int)
    ensures 0 <= pos <= n && 0 <= len <= n - pos ==> SubstrBounds(n, pos, Some(len)) == (pos, pos + len)
    ensures 0 <= pos <= n && len > n - pos ==> SubstrBounds(n, pos, Some(len)) == SubstrBounds(n, pos, Some(n - pos))
    ensures pos > n ==> SubstrBounds(n, pos, Some(len)) == (n, n)
    ensures n + pos >= 0 && pos < 0 ==> SubstrBounds(n, pos, Some(len)) == SubstrBounds(n, n + pos, Some(len))
    ensures n + pos < 0 ==> SubstrBounds(n, pos, Some(len)) == SubstrBounds(n, 0, Some(len))
    ensures n + len >= 0 && len < 0 ==> SubstrBounds(n, pos, Some(len)) == SubstrBounds(n, pos, Some(n + len))
    ensures n + len < 0 ==> SubstrBounds(n, pos, Some(len)) == SubstrBounds(n, pos, Some(0))
  {
  }

  lemma SubstrBoundsOfAll(n: nat, pos: int)
    ensures 0 <= pos <= n ==> SubstrBounds(n, pos, None) == SubstrBounds(n, pos, Some(n - pos))
    ensures pos > n ==> SubstrBounds(n, pos, None) == (n, n)
    ensures n + pos >= 0 && pos < 0 ==> SubstrBounds(n, pos, None) == SubstrBounds(n, n + pos, None)
    ensures n + pos < 0 ==> SubstrBounds(n, pos, None) == SubstrBounds(n, 0, None)
  {
  }

  lemma NoUnits(s: seq<Unit>, i: nat)
    ensures Units(s, (i, i)) == []
  {
  }

  /** substring with two bounds in order. */
  lemma SubstringInside(cs: seq<int>, a: int, b: int)
    requires forall i :: 0 <= i < |cs| ==> 0 <= cs[i] < 0xd800 || 0xe000 <= cs[i] < 0x110000
    requires 0 <= a <= b <= |cs|
    ensures Points(cs) && Points(cs[a..b])
    ensures SubstringOf(EncodeAll(cs), a, Some(b)) == EncodeAll(cs[a..b])
  {
    hide EncodeAll, Chars, Units, Slice, Scalars, Points, SubstringBounds;
    AllScalars(cs);
    SubstringBoundsAre(|cs|, a, b);
    Part(cs, a, b);
    SlicesOfEncoded(cs, a, Some(b));
  }

  /**
   The other arguments of substring, on any string: the bounds in either order; 0 for a negative
   bound; the length for one beyond it, and for an end that is omitted.
   */
  lemma SubstringArguments(s: seq<Unit>, a: int, b: int)
    ensures var n := |Chars(s)|;
      && SubstringOf(s, a, Some(b)) == SubstringOf(s, b, Some(a))
      && (a < 0 ==> SubstringOf(s, a, Some(b)) == SubstringOf(s, 0, Some(b)))
      && (a > n ==> SubstringOf(s, a, Some(b)) == SubstringOf(s, n, Some(b)))
      && SubstringOf(s, a, None) == SubstringOf(s, a, Some(n))
  {
    hide Chars, Units, SubstringBounds;
    SubstringBoundsAre(|Chars(s)|, a, b);
  }

  lemma SameSubstr(s: seq<Unit>, pos: int, len: Option<int>, pos': int, len': Option<int>)
    requires var n := |Chars(s)|; SubstrBounds(n, pos, len) == SubstrBounds(n, pos', len')
    ensures SubstrOf(s, pos, len) == SubstrOf(s, pos', len')
  {
  }

  lemma NoSubstr(s: seq<Unit>, pos: int, len: Option<int>)
    requires var n := |Chars(s)|; SubstrBounds(n, pos, len) == (n, n)
    ensures SubstrOf(s, pos, len) == []
  {
    NoUnits(s, |Chars(s)|);
  }

  /** substr with a length that fits, or with the one that is left. */
  lemma SubstrInside(cs: seq<int>, pos: int, len: int)
    requires forall i :: 0 <= i < |cs| ==> 0 <= cs[i] < 0xd800 || 0xe000 <= cs[i] < 0x110000
    requires 0 <= pos <= pos + len <= |cs|
    ensures Points(cs) && Points(cs[pos..pos + len])
    ensures SubstrOf(EncodeAll(cs), pos, Some(len)) == EncodeAll(cs[pos..pos + len])
  {
    hide EncodeAll, Chars, Units, Slice, Scalars, Points, SubstrBounds;
    AllScalars(cs);
    SubstrBoundsOfLen(|cs|, pos, len);
    Part(cs, pos, pos + len);
    SlicesOfEncoded(cs, pos, Some(len));
  }

  /**
   The other arguments of substr, on any string: nothing from beyond the end; no more than there is;
   everything when len is omitted; pos counted from the end when it is negative, and 0 if it is negative
   still; a negative len counted from the length, and nothing if it is negative still.
   */
  lemma SubstrArguments(s: seq<Unit>, pos: int, len: int)
    ensures var n := |Chars(s)|;
      && (pos > n ==> SubstrOf(s, pos, Some(len)) == [] && SubstrOf(s, pos, None) == [])
      && (0 <= pos <= n && len > n - pos ==> SubstrOf(s, pos, Some(len)) == SubstrOf(s, pos, Some(n - pos)))
      && (0 <= pos <= n ==> SubstrOf(s, pos, None) == SubstrOf(s, pos, Some(n - pos)))
      && (pos < 0 ==> SubstrOf(s, pos, Some(len)) == SubstrOf(s, if n + pos >= 0 then n + pos else 0, Some(len)))
      && (pos < 0 ==> SubstrOf(s, pos, None) == SubstrOf(s, if n + pos >= 0 then n + pos else 0, None))
      && (len < 0 ==> SubstrOf(s, pos, Some(len)) == SubstrOf(s, pos, Some(if n + len >= 0 then n + len else 0)))
  {
    hide Chars, SubstrOf, SubstrBounds;
    var n := |Chars(s)|;
    SubstrBoundsOfLen(n, pos, len);
    SubstrBoundsOfAll(n, pos);
    if pos > n {
      NoSubstr(s, pos, Some(len));
      NoSubstr(s, pos, None);
    }
    if 0 <= pos <= n {
      SameSubstr(s, pos, None, pos, Some(n - pos));
      if len > n - pos {
        SameSubstr(s, pos, Some(len), pos, Some(n - pos));
      }
    }
    if pos < 0 {
      var pos' := if n + pos >= 0 then n + pos else 0;
      SameSubstr(s, pos, Some(len), pos', Some(len));
      SameSubstr(s, pos, None, pos', None);
    }
    if len < 0 {
      SameSubstr(s, pos, Some(len), pos, Some(if n + len >= 0 then n + len else 0));
    }
  }

  /** Code points of both lengths, with the units written out. */
  lemma Encodings()
    ensures Encode(0x61) == [0x61] && Encode(0x20ac) == [0x20ac]
    ensures Encode(0x12345) == [0xd808, 0xdf45] && Encode(0x10ffff) == [0xdbff, 0xdfff]
  {
  }
}
