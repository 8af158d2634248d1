/**
 The offset vector of a match (libs/pcre/pcre_stubs.c:92-111, 503-514).  PCRE writes 32-bit offsets
 to the beginning of the block, and the stub widens them to 64-bit OCaml integers in the same
 memory, from the last one back.  The memory is an array of 32-bit words; a 64-bit cell is two of
 them, in the order of the machine.
 */
module Ovector {

  const WORD := 0x1_0000_0000
  type Word = w: int | 0 <= w < 0x1_0000_0000

  /** The C int in a word. */
  function Signed32(w: Word): int {
    if w >= 0x8000_0000 then w - WORD else w
  }

  /** The 64-bit integer in two words. */
  function Signed64(lo: Word, hi: Word): int {
    Signed32(hi) * WORD + lo
  }

  /** The two words of a 64-bit integer. */
  function Low(v: int): Word {
    v % WORD
  }

  function High(v: int): Word {
    v / WORD % WORD
  }

  lemma SplitJoin(v: int)
    requires -0x8000_0000_0000_0000 <= v < 0x8000_0000_0000_0000
    ensures Signed64(Low(v), High(v)) == v
  {
    var q := v / WORD;
    assert v == WORD * q + v % WORD;
    assert -0x8000_0000 <= q < 0x8000_0000;
    assert q % WORD == if q < 0 then q + WORD else q;
  }

  /** Val_int and Val_long: the OCaml integer n as a word of memory. */
  function Tagged(n: int): int {
    2 * n + 1
  }

  /** Which of the two words of cell j holds the low half. */
  function LowIndex(j: nat, bigEndian: bool): nat {
    if bigEndian then 2 * j + 1 else 2 * j
  }

  function HighIndex(j: nat, bigEndian: bool): nat {
    if bigEndian then 2 * j else 2 * j + 1
  }

  function Cell(mem: seq<Word>, j: nat, bigEndian: bool): int
    requires 2 * j + 1 < |mem|
  {
    Signed64(mem[LowIndex(j, bigEndian)], mem[HighIndex(j, bigEndian)])
  }

  /** A store through ovec_dst. */
  method Store(mem: array<Word>, j: nat, v: int, bigEndian: bool)
    requires 2 * j + 1 < mem.Length
    requires -0x8000_0000_0000_0000 <= v < 0x8000_0000_0000_0000
    modifies mem
    ensures Cell(mem[..], j, bigEndian) == v
    ensures forall k :: 0 <= k < mem.Length && k != 2 * j && k != 2 * j + 1 ==> mem[k] == old(mem[k])
    ensures forall i :: 0 <= i && 2 * i + 1 < mem.Length && i != j ==>
              Cell(mem[..], i, bigEndian) == old(Cell(mem[..], i, bigEndian))
  {
    mem[LowIndex(j, bigEndian)] := Low(v);
    mem[HighIndex(j, bigEndian)] := High(v);
    SplitJoin(v);
  }

  /** What OCaml finds in cell j: the offset of the whole string, or -1 behind the offsets. */
  function Expected(ovec: seq<Word>, subjStart: int, subgroups2: nat, j: nat): int
    requires subgroups2 <= |ovec|
  {
    Tagged(if j < subgroups2 then Signed32(ovec[j]) + subjStart else -1)
  }

  /**
   Backward through subgroups2 offsets.  The source and the destination may be the same memory:
   the words that are still to be read lie below those that have been written.
   */
  method CopyOvector(subjStart: int, ovec: array<Word>, ocamlOvec: array<Word>, subgroups2: nat, bigEndian: bool)
    requires 0 <= subjStart < 0x1000_0000_0000_0000
    requires subgroups2 <= ovec.Length && 2 * subgroups2 <= ocamlOvec.Length
    modifies ocamlOvec
    ensures forall j :: 0 <= j < subgroups2 ==>
      Cell(ocamlOvec[..], j, bigEndian) == Expected(old(ovec[..]), subjStart, subgroups2, j)
    ensures forall k :: 2 * subgroups2 <= k < ocamlOvec.Length ==> ocamlOvec[k] == old(ocamlOvec[k])
  {
    hide Signed64, LowIndex, HighIndex;
    var n, src, dst := subgroups2, subgroups2 - 1, subgroups2 - 1;
    if subjStart == 0 {
      while n > 0
        invariant 0 <= n <= subgroups2 && src == dst == n - 1
        invariant forall k :: 0 <= k < n ==> ovec[k] == old(ovec[k])
        invariant forall j :: n <= j < subgroups2 ==>
          Cell(ocamlOvec[..], j, bigEndian) == Expected(old(ovec[..]), subjStart, subgroups2, j)
        invariant forall k :: 2 * subgroups2 <= k < ocamlOvec.Length ==> ocamlOvec[k] == old(ocamlOvec[k])
      {
        n := n - 1;
        Store(ocamlOvec, dst, Tagged(Signed32(ovec[src])), bigEndian);
        src, dst := src - 1, dst - 1;
      }
    } else {
      while n > 0
        invariant 0 <= n <= subgroups2 && src == dst == n - 1
        invariant forall k :: 0 <= k < n ==> ovec[k] == old(ovec[k])
        invariant forall j :: n <= j < subgroups2 ==>
          Cell(ocamlOvec[..], j, bigEndian) == Expected(old(ovec[..]), subjStart, subgroups2, j)
        invariant forall k :: 2 * subgroups2 <= k < ocamlOvec.Length ==> ocamlOvec[k] == old(ocamlOvec[k])
      {
        n := n - 1;
        Store(ocamlOvec, dst, Tagged(Signed32(ovec[src]) + subjStart), bigEndian);
        src, dst := src - 1, dst - 1;
      }
    }
  }

  /** The first two thirds of the vector: the offsets of ret groups, then -1. */
  predicate Handled(mem: seq<Word>, ovec: seq<Word>, subjStart: int, ret: nat, bigEndian: bool) {
    && 2 * ret <= |ovec| && 2 * ret <= |mem| / 2 * 2 / 3
    && forall j :: 0 <= j < |mem| / 2 * 2 / 3 ==> Cell(mem, j, bigEndian) == Expected(ovec, subjStart, 2 * ret, j)
  }

  /**
   handle_pcre_exec_result, with the offsets in the same block or in one of their own: the first
   2 * ret cells are the offsets, counted from the start of the whole string, and the other cells
   of the first two thirds are the OCaml integer -1.
   */
  method HandleExecResult(ovec: array<Word>, vOvec: array<Word>, subjStart: int, ret: nat, bigEndian: bool)
    requires 0 <= subjStart < 0x1000_0000_0000_0000
    requires vOvec.Length % 2 == 0 && 2 * ret <= ovec.Length
    requires 2 * ret <= vOvec.Length / 2 * 2 / 3  // as pcre_exec promises
    modifies vOvec
    ensures Handled(vOvec[..], old(ovec[..]), subjStart, ret, bigEndian)
    ensures forall k :: 2 * (vOvec.Length / 2 * 2 / 3) <= k < vOvec.Length ==> vOvec[k] == old(vOvec[k])
  {
    hide Signed64, LowIndex, HighIndex;
    var ovecLen := vOvec.Length / 2;
    var subgroups2 := ret * 2;
    var clearStop := ovecLen * 2 / 3;
    CopyOvector(subjStart, ovec, vOvec, subgroups2, bigEndian);
    var dst := subgroups2 - 1;
    dst := dst + 1;
    while dst < clearStop
      invariant subgroups2 <= dst <= clearStop
      invariant forall j :: 0 <= j < dst ==>
        Cell(vOvec[..], j, bigEndian) == Expected(old(ovec[..]), subjStart, subgroups2, j)
      invariant forall k :: 2 * clearStop <= k < vOvec.Length ==> vOvec[k] == old(vOvec[k])
    {
      Store(vOvec, dst, -1, bigEndian);
      dst := dst + 1;
    }
  }

  /**
   The same word by word: two words are the 64-bit integer 2 * n + 1, where n is the 32-bit offset and
   the subject start, or -1.
   */
  lemma WordsWritten(mem: seq<Word>, ovec: seq<Word>, subjStart: int, ret: nat, bigEndian: bool, j: nat)
    requires Handled(mem, ovec, subjStart, ret, bigEndian) && j < |mem| / 2 * 2 / 3
    ensures 2 * j + 1 < |mem| && (j < 2 * ret ==> j < |ovec|)
    ensures var lo: int := mem[if bigEndian then 2 * j + 1 else 2 * j];
      var hi: int := mem[if bigEndian then 2 * j else 2 * j + 1];
      (if hi < 0x8000_0000 then hi else hi - 0x1_0000_0000) * 0x1_0000_0000 + lo
      == if j >= 2 * ret then -1
         else
           var w: int := ovec[j];
           2 * ((if w < 0x8000_0000 then w else w - 0x1_0000_0000) + subjStart) + 1
  {
    assert Cell(mem, j, bigEndian) == Expected(ovec, subjStart, 2 * ret, j);
  }

  // ------------------------------------------------------------------ what OCaml makes of it

  datatype Substring = Found(start: int, end: int) | NotFound | InvalidArg

  /** The OCaml integer in a cell. */
  function Untagged(cell: int): int {
    (cell - 1) / 2
  }

  /** The vector as OCaml sees it. */
  function OcamlVector(mem: seq<Word>, bigEndian: bool): (v: seq<int>)
    ensures |v| == |mem| / 2
  {
    seq(|mem| / 2, j requires 0 <= j < |mem| / 2 => Untagged(Cell(mem, j, bigEndian)))
  }

  /** get_substring_ofs: a group whose start is negative has not been matched. */
  function GetSubstringOfs(ovector: seq<int>, strNum: int): Substring {
    if strNum < 0 || strNum >= |ovector| / 3 then InvalidArg
    else
      var start := ovector[2 * strNum];
      if start < 0 then NotFound else Found(start, ovector[2 * strNum + 1])
  }

  /**
   A group that PCRE has matched is found where it is, and one behind the last matched is not found.
   A group before that which did not take part has the start -1, to which the subject start has
   been added: it is not found if and only if the subject starts at 0.
   */
  lemma GroupsFound(mem: seq<Word>, ovec: seq<Word>, subjStart: int, ret: nat, g: nat, bigEndian: bool)
    requires Handled(mem, ovec, subjStart, ret, bigEndian)
    requires 0 <= subjStart && g < |mem| / 2 / 3
    ensures var r := GetSubstringOfs(OcamlVector(mem, bigEndian), g);
      && (g >= ret ==> r == NotFound)
      && (g < ret && Signed32(ovec[2 * g]) >= 0 ==>
            r == Found(Signed32(ovec[2 * g]) + subjStart, Signed32(ovec[2 * g + 1]) + subjStart))
      && (g < ret && Signed32(ovec[2 * g]) == -1 ==> (r == NotFound <==> subjStart == 0))
  {
    hide Signed32;
    var m := |mem| / 2 * 2 / 3;
    assert 2 * g + 1 < m;
    assert Cell(mem, 2 * g, bigEndian) == Expected(ovec, subjStart, 2 * ret, 2 * g);
    assert Cell(mem, 2 * g + 1, bigEndian) == Expected(ovec, subjStart, 2 * ret, 2 * g + 1);
  }

  /**
   Such a match: (a)|(b) against the part of a string that begins at its second character, where
   it is "b".  Group 1 did not take part, and OCaml finds the empty string at 0.
   */
  method UnsetGroupIsFound(bigEndian: bool) returns (r: Substring)
    ensures r == Found(0, 0)
  {
    var v := new Word[18](_ => 0);
    v[0], v[1], v[2], v[3], v[4], v[5] := 0, 1, WORD - 1, WORD - 1, 0, 1;
    ghost var before := v[..];
    HandleExecResult(v, v, 1, 3, bigEndian);
    assert Cell(v[..], 2, bigEndian) == Expected(before, 1, 6, 2);
    assert Cell(v[..], 3, bigEndian) == Expected(before, 1, 6, 3);
    r := GetSubstringOfs(OcamlVector(v[..], bigEndian), 1);
  }
}
