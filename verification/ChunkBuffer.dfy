/**
 The chunked string buffer of the process library (libs/extc/process_stubs.c, "buffer api").  The
 chunks are linked from the newest back to the oldest; `chain` lists them from the oldest on,
 `parts` says what each holds.
 */
module ChunkBuffer {
  import opened Sequences

  datatype CString = NULL | Chars(s: seq<char>)

  class StringItem {
    const str: array<char>
    var len: nat
    const next: StringItem?

    constructor (str: array<char>, len: nat, next: StringItem?)
      ensures this.str == str && this.len == len && this.next == next
    {
      this.str := str;
      this.len := len;
      this.next := next;
    }
  }

  function Concat(parts: seq<seq<char>>): seq<char> {
    if parts == [] then [] else Concat(parts[..|parts| - 1]) + parts[|parts| - 1]
  }

  function Sum(ns: seq<nat>): nat {
    if ns == [] then 0 else Sum(ns[..|ns| - 1]) + ns[|ns| - 1]
  }

  /** Each chunk was more than a quarter of all that was there before it, and sixteen at least. */
  predicate Grown(sizes: seq<nat>) {
    forall i :: 0 <= i < |sizes| ==> sizes[i] >= 16 && 4 * sizes[i] > Sum(sizes[..i])
  }

  /** Every chunk but the newest is full. */
  predicate Packed(parts: seq<seq<char>>, sizes: seq<nat>) {
    && |parts| == |sizes|
    && (forall i :: 0 <= i < |parts| ==> |parts[i]| <= sizes[i])
    && (forall i :: 0 <= i < |parts| - 1 ==> |parts[i]| == sizes[i])
  }

  function Power(b: nat, n: nat): nat {
    if n == 0 then 1 else b * Power(b, n - 1)
  }

  /** n chunks hold at least 16 * (5/4)^(n-1) characters. */
  lemma {:induction false} CapacityGrows(sizes: seq<nat>)
    requires Grown(sizes) && sizes != []
    ensures 16 * Power(5, |sizes| - 1) <= Power(4, |sizes| - 1) * Sum(sizes)
    decreases |sizes|
  {
    var n := |sizes| - 1;
    var older := sizes[..n];
    if n == 0 {
      assert Sum(older) == 0;
    } else {
      assert forall i :: 0 <= i < n ==> older[..i] == sizes[..i];
      CapacityGrows(older);
      assert 4 * Sum(sizes) >= 5 * Sum(older);
      Growth(Power(5, n - 1), Power(4, n - 1), Sum(older), Sum(sizes));
    }
  }

  lemma Growth(f: nat, p: nat, s: nat, t: nat)
    requires 16 * f <= p * s && 4 * t >= 5 * s
    ensures 16 * (5 * f) <= (4 * p) * t
  {
    var d := 4 * t - 5 * s;
    calc {
      (4 * p) * t;
    ==
      p * (4 * t);
    ==
      p * (5 * s + d);
    ==
      p * (5 * s) + p * d;
    >=
      p * (5 * s);
    ==
      5 * (p * s);
    }
  }

  lemma Scale(p: nat, a: nat, b: nat)
    requires a >= b
    ensures p * a >= p * b
  {
  }

  lemma {:induction false} FullSum(parts: seq<seq<char>>, sizes: seq<nat>)
    requires |parts| == |sizes| && forall i :: 0 <= i < |parts| ==> |parts[i]| == sizes[i]
    ensures |Concat(parts)| == Sum(sizes)
    decreases |parts|
  {
    if parts != [] {
      FullSum(parts[..|parts| - 1], sizes[..|sizes| - 1]);
    }
  }

  /** The number of chunks is logarithmic in the length of the text. */
  lemma FewChunks(parts: seq<seq<char>>, sizes: seq<nat>)
    requires Packed(parts, sizes) && Grown(sizes) && |sizes| >= 2
    ensures 16 * Power(5, |sizes| - 2) <= Power(4, |sizes| - 2) * |Concat(parts)|
  {
    var n := |sizes| - 1;
    var older := sizes[..n];
    assert forall i :: 0 <= i < n ==> older[..i] == sizes[..i];
    CapacityGrows(older);
    FullSum(parts[..n], older);
    Scale(Power(4, n - 1), |Concat(parts)|, Sum(older));
  }

  lemma ConcatSnoc(parts: seq<seq<char>>, p: seq<char>)
    ensures Concat(parts + [p]) == Concat(parts) + p
  {
    assert (parts + [p])[..|parts|] == parts;
  }

  /** memcpy */
  method Memcpy(dst: array<char>, at: nat, src: seq<char>, len: nat)
    requires len <= |src| && at + len <= dst.Length
    modifies dst
    ensures dst[..at] == old(dst[..at]) && dst[at..at + len] == src[..len]
    ensures dst[at + len..] == old(dst[at + len..])
  {
    for k := 0 to len
      invariant dst[..at] == old(dst[..at])
      invariant dst[at..at + k] == src[..k]
      invariant dst[at + k..] == old(dst[at + k..])
    {
      dst[at + k] := src[k];
    }
  }

  /** What the item at i points to: the one before it. */
  function Before(chain: seq<StringItem>, i: nat): StringItem?
    requires i <= |chain|
  {
    if i == 0 then null else chain[i - 1]
  }

  /** Each item points to the one before it, and no two share their bytes. */
  ghost predicate InLine(chain: seq<StringItem>) {
    && (forall i :: 0 <= i < |chain| ==> chain[i].next == Before(chain, i))
    && (forall i, j :: 0 <= i < j < |chain| ==> chain[i] != chain[j] && chain[i].str != chain[j].str)
  }

  ghost predicate Holds(it: StringItem, part: seq<char>, size: nat)
    reads it, it.str
  {
    it.str.Length == size && it.len == |part| <= size && it.str[..|part|] == part
  }

  lemma SameBefore(chain: seq<StringItem>, it: StringItem, i: nat)
    requires i <= |chain|
    ensures Before(chain + [it], i) == Before(chain, i)
  {
  }

  lemma InLineSnoc(chain: seq<StringItem>, it: StringItem)
    requires InLine(chain) && it.next == Before(chain, |chain|)
    requires forall i :: 0 <= i < |chain| ==> chain[i] != it && chain[i].str != it.str
    ensures InLine(chain + [it])
  {
    hide Before;
    var c := chain + [it];
    forall i | 0 <= i < |c|
      ensures c[i].next == Before(c, i)
    {
      SameBefore(chain, it, i);
    }
  }

  lemma OthersApart(chain: seq<StringItem>)
    requires InLine(chain) && chain != []
    ensures var last := chain[|chain| - 1];
      forall i :: 0 <= i < |chain| - 1 ==> chain[i] != last && chain[i].str != last.str
  {
  }

  /** strlen, for a string that ends at its first NUL or at its end. */
  function Strlen(s: seq<char>): (n: nat)
    ensures n <= |s| && '\0' !in s[..n] && (n < |s| ==> s[n] == '\0')
  {
    if s == [] || s[0] == '\0' then 0
    else
      var n := Strlen(s[1..]);
      assert s[..n + 1] == [s[0]] + s[1..][..n];
      n + 1
  }

  class Buffer {
    var totlen: nat
    var blen: nat
    var data: StringItem?
    ghost var chain: seq<StringItem>
    ghost var parts: seq<seq<char>>
    ghost var sizes: seq<nat>
    ghost var Repr: set<object>

    ghost predicate Owned()
      reads this
    {
      this in Repr && forall i :: 0 <= i < |chain| ==> chain[i] in Repr && chain[i].str in Repr
    }

    ghost predicate Linked()
      reads this
    {
      && |chain| == |parts| == |sizes|
      && data == Before(chain, |chain|) && InLine(chain)
    }

    ghost predicate Filled()
      requires Owned() && |chain| == |parts| == |sizes|
      reads this, Repr
    {
      forall i :: 0 <= i < |chain| ==> Holds(chain[i], parts[i], sizes[i])
    }

    ghost predicate Valid()
      reads this, Repr
    {
      && Owned() && Linked() && Filled() && Packed(parts, sizes) && Grown(sizes)
      && totlen == |Concat(parts)| && blen >= 16
    }

    ghost function Contents(): seq<char>
      reads this
    {
      Concat(parts)
    }

    /** alloc_buffer(NULL); a buffer with a first string then appends it. */
    constructor ()
      ensures Valid() && fresh(Repr) && Contents() == []
    {
      totlen, blen, data := 0, 16, null;
      chain, parts, sizes, Repr := [], [], [], {this};
    }

    function Length(): (n: int)
      requires Valid()
      reads this, Repr
      ensures n == |Contents()|
    {
      totlen
    }

    /** Puts a new item before the head. */
    method Link(str: array<char>, len: nat)
      requires Owned() && Linked() && Filled() && len <= str.Length
      requires forall i :: 0 <= i < |chain| ==> chain[i].str != str
      modifies `data, `chain, `parts, `sizes, `Repr
      ensures Owned() && Linked() && Filled() && fresh(Repr - old(Repr) - {str})
      ensures parts == old(parts) + [str[..len]] && sizes == old(sizes) + [str.Length]
      ensures |chain| == |old(chain)| + 1 && chain[..|old(chain)|] == old(chain)
      ensures fresh(chain[|old(chain)|]) && chain[|old(chain)|].str == str
    {
      hide InLine;
      assert forall i :: 0 <= i < |chain| ==> allocated(chain[i].str);
      var it := new StringItem(str, len, data);
      data := it;
      Repr := Repr + {it, str};
      InLineSnoc(chain, it);
      chain, parts, sizes := chain + [it], parts + [str[..len]], sizes + [str.Length];
    }

    /** Doubles blen until four times it exceeds the length, and says how big the new chunk is. */
    method ChunkSize(len: nat) returns (size: nat)
      requires blen >= 16 && len >= 1
      modifies `blen
      ensures blen >= 16 && size >= 16 && size >= len && 4 * size > totlen
    {
      while totlen >= blen * 4
        invariant blen >= 16
        decreases totlen - blen
      {
        blen := blen * 2;
      }
      size := if len < blen then blen else len;
    }

    /** All chunks are full: the rest of an appended string goes to a new one. */
    method AppendNew(s: seq<char>, len: nat)
      requires Owned() && Linked() && Filled() && Grown(sizes) && blen >= 16
      requires forall i :: 0 <= i < |parts| ==> |parts[i]| == sizes[i]
      requires 1 <= len <= |s| && totlen == |Contents()| + len
      modifies this
      ensures Valid() && totlen == old(totlen) && Contents() == old(Contents()) + s[..len]
      ensures fresh(Repr - old(Repr))
      ensures 4 * Sum(sizes) > 5 * Sum(old(sizes))
    {
      hide Concat, Sum, Grown, Packed, InLine, Before, Holds;
      FullSum(parts, sizes);
      var size := ChunkSize(len);
      var str := new char[size];
      Memcpy(str, 0, s, len);
      assert str[..len] == s[..len];
      Link(str, len);
      ConcatSnoc(old(parts), s[..len]);
      AddSize(old(parts), old(sizes), s[..len], size);
    }

    /** Fills the head with what fits; the rest, if any, is for a new chunk. */
    method FillHead(s: seq<char>, len: nat) returns (fit: nat)
      requires Owned() && Linked() && Filled() && data != null && len <= |s|
      modifies `parts, data`len, data.str
      ensures Owned() && Linked() && Filled()
      ensures fit == (var free := sizes[|sizes| - 1] - |old(parts[|parts| - 1])|; if len <= free then len else free)
      ensures parts == old(parts)[..|chain| - 1] + [old(parts[|chain| - 1]) + s[..fit]]
    {
      hide InLine;
      OthersApart(chain);
      var it := data;
      var n := it.len;
      fit := if it.str.Length - n >= len then len else it.str.Length - n;
      Memcpy(it.str, n, s, fit);
      it.len := n + fit;
      assert it.str[..n + fit] == it.str[..n] + it.str[n..n + fit];
      parts := parts[..|chain| - 1] + [parts[|chain| - 1] + s[..fit]];
    }

    method AppendSub(s: CString, len: int)
      requires Valid() && (s.Chars? ==> len <= |s.s|)
      modifies Repr
      ensures Valid() && fresh(Repr - old(Repr))
      ensures Contents() == old(Contents()) + (if s == NULL || len <= 0 then [] else s.s[..len])
    {
      hide Concat, Sum, Grown, Packed, InLine, Holds;
      if s == NULL || len <= 0 {
        return;
      }
      assert chain == [] ==> Concat(parts) == [] && parts == [] by { NoParts(); }
      totlen := totlen + len;
      var rest := s.s[..len];
      if data != null {
        HeadFilled(parts, sizes, rest);
        var fit := FillHead(rest, len);
        if fit == len {
          return;
        }
        Rest(Concat(old(parts)), rest, fit);
        rest := rest[fit..];
      }
      AppendNew(rest, |rest|);
    }

    /** buffer_append_str */
    method AppendStr(s: CString)
      requires Valid()
      modifies Repr
      ensures Valid() && fresh(Repr - old(Repr))
      ensures Contents() == old(Contents()) + (if s == NULL then [] else s.s[..Strlen(s.s)])
    {
      if s == NULL {
        return;
      }
      AppendSub(s, Strlen(s.s));
    }

    method AppendChar(c: char)
      requires Valid()
      modifies Repr
      ensures Valid() && fresh(Repr - old(Repr))
      ensures Contents() == old(Contents()) + [c]
    {
      hide Concat, Sum, Grown, Packed, InLine;
      assert chain == [] ==> Concat(parts) == [] && parts == [] by { NoParts(); }
      totlen := totlen + 1;
      assert [c][..1] == [c];
      if data != null {
        HeadFilled(parts, sizes, [c]);
        if data.len != data.str.Length {
          var fit := FillHead([c], 1);
          return;
        }
      }
      AppendNew([c], 1);
    }

    lemma Whole()
      requires Valid()
      ensures |chain| == |parts| && data == Before(chain, |chain|) && totlen == |Concat(parts)|
      ensures parts[..|chain|] == parts
    {
      hide Sum, Grown, Packed, InLine, Concat, Filled, Owned;
    }

    /** The item that holds part number k - 1. */
    lemma ItemAt(k: nat)
      requires Valid() && 1 <= k <= |chain|
      ensures var it := chain[k - 1];
        && k <= |parts| && it.next == Before(chain, k - 1)
        && it.len <= it.str.Length && it.str[..][..it.len] == parts[k - 1]
      ensures Concat(parts[..k]) == Concat(parts[..k - 1]) + parts[k - 1]
    {
      hide Sum, Grown, Packed, InLine, Concat;
      InLineAt(chain, k - 1);
      Newest(parts, k);
    }

    /** The text and a NUL in an array of its own, copied chunk by chunk from the newest back. */
    method ToString() returns (v: array<char>)
      requires Valid()
      ensures fresh(v) && v.Length == |Contents()| + 1
      ensures v[..|Contents()|] == Contents() && v[|Contents()|] == '\0'
    {
      hide Valid, Concat;
      Whole();
      v := new char[totlen + 1];
      var it := data;
      var s := totlen;
      v[s] := '\0';
      ghost var k := |chain|;
      ghost var tail: seq<char> := [];
      while it != null
        invariant Valid() && 0 <= k <= |chain| == |parts| && it == Before(chain, k)
        invariant s == |Concat(parts[..k])|
        invariant Concat(parts[..k]) + tail == Concat(parts)
        invariant s <= |v[..]| && v[s..] == tail + ['\0']
        decreases k
      {
        ItemAt(k);
        s := s - it.len;
        Memcpy(v, s, it.str[..], it.len);
        Prepended(v[..], s, s + it.len, parts[k - 1], tail);
        Assoc(Concat(parts[..k - 1]), parts[k - 1], tail);
        tail := parts[k - 1] + tail;
        it := it.next;
        k := k - 1;
      }
      NoParts();
      assert parts[..0] == [];
    }
  }

  lemma Prepended(v: seq<char>, i: nat, j: nat, part: seq<char>, tail: seq<char>)
    requires i <= j <= |v| && v[i..j] == part && v[j..] == tail + ['\0']
    ensures v[i..] == part + tail + ['\0']
  {
    assert v[i..] == v[i..j] + v[j..];
  }

  lemma InLineAt(chain: seq<StringItem>, i: nat)
    requires InLine(chain) && i < |chain|
    ensures chain[i].next == Before(chain, i)
  {
  }

  lemma Newest(parts: seq<seq<char>>, k: nat)
    requires 1 <= k <= |parts|
    ensures Concat(parts[..k]) == Concat(parts[..k - 1]) + parts[k - 1]
  {
    assert parts[..k][..k - 1] == parts[..k - 1];
  }

  lemma NoParts()
    ensures Concat([]) == []
  {
  }

  lemma Rest(a: seq<char>, s: seq<char>, fit: nat)
    requires fit <= |s|
    ensures (a + s[..fit]) + s[fit..] == a + s
  {
    assert s[..fit] + s[fit..] == s;
  }

  /** What appending to the head alone does: the text fits, or all chunks are full. */
  lemma HeadFilled(parts: seq<seq<char>>, sizes: seq<nat>, s: seq<char>)
    requires Packed(parts, sizes) && parts != []
    ensures var n := |parts| - 1; var free := sizes[n] - |parts[n]|; var fit := if |s| <= free then |s| else free;
      var now := parts[..n] + [parts[n] + s[..fit]];
      && Concat(now) == Concat(parts) + s[..fit]
      && (fit == |s| ==> Packed(now, sizes))
      && (fit < |s| ==> forall i :: 0 <= i <= n ==> |now[i]| == sizes[i])
  {
    var n := |parts| - 1;
    var free := sizes[n] - |parts[n]|;
    var fit := if |s| <= free then |s| else free;
    ConcatSnoc(parts[..n], parts[n] + s[..fit]);
    assert Concat(parts[..n]) + (parts[n] + s[..fit]) == Concat(parts) + s[..fit];
  }

  lemma AddSize(parts: seq<seq<char>>, sizes: seq<nat>, text: seq<char>, size: nat)
    requires Grown(sizes) && |parts| == |sizes| && forall i :: 0 <= i < |parts| ==> |parts[i]| == sizes[i]
    requires size >= 16 && 4 * size > Sum(sizes) && |text| <= size
    ensures Grown(sizes + [size]) && Packed(parts + [text], sizes + [size])
    ensures 4 * Sum(sizes + [size]) > 5 * Sum(sizes)
  {
    assert (sizes + [size])[..|sizes|] == sizes;
    assert forall i :: 0 <= i < |sizes| ==> (sizes + [size])[..i] == sizes[..i];
  }
}
