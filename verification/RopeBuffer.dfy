/**
 The rope-based string buffer (libs/extlib-leftovers/rbuffer.ml).  The source turns its byte
 buffers into string leaves without copying and fills string leaves in place, so leaves are
 arrays here and may be shared between buffers.
 */
module RopeBuffer {
  import opened Sequences

  datatype Rope = Str(s: array<char>) | App(l: Rope, r: Rope, n: nat)

  datatype Result<T> = Ok(value: T) | InvalidArg

  function Leaves(r: Rope): set<array<char>> {
    match r
    case Str(s) => {s}
    case App(l, r, _) => Leaves(l) + Leaves(r)
  }

  function Text(r: Rope): (t: seq<char>)
    reads Leaves(r)
    ensures |t| == Size(r)
  {
    match r
    case Str(s) => s[..]
    case App(l, r, _) => Text(l) + Text(r)
  }

  function Size(r: Rope): nat {
    match r
    case Str(s) => s.Length
    case App(l, r, _) => Size(l) + Size(r)
  }

  /** Every inner node carries its length. */
  predicate Sized(r: Rope) {
    match r
    case Str(_) => true
    case App(l, r', n) => n == Size(l) + Size(r') && Sized(l) && Sized(r')
  }

  function RopeLength(r: Rope): (n: nat)
    ensures Sized(r) ==> n == Size(r)
  {
    match r
    case Str(s) => s.Length
    case App(_, _, n) => n
  }

  function RopeNth(i: nat, r: Rope): (c: char)
    requires Sized(r) && i < Size(r)
    reads Leaves(r)
    ensures c == Text(r)[i]
  {
    match r
    case Str(s) => s[i]
    case App(l, r', _) =>
      var ll := RopeLength(l);
      if i < ll then RopeNth(i, l) else RopeNth(i - ll, r')
  }

  /** t with s written over it at i. */
  function Patch(t: seq<char>, i: nat, s: seq<char>): (r: seq<char>)
    requires i + |s| <= |t|
    ensures |r| == |t|
  {
    t[..i] + s + t[i + |s|..]
  }

  lemma PatchTwice(t: seq<char>, i: nat, a: seq<char>, b: seq<char>)
    requires i + |a| + |b| <= |t|
    ensures Patch(Patch(t, i, a), i + |a|, b) == Patch(t, i, a + b)
  {
  }

  lemma PatchFront(t: seq<char>, i: nat, s: seq<char>)
    requires i + |s| <= |t|
    ensures Patch(t, i, s)[..i] == t[..i] && Patch(t, i, s)[..i + |s|] == t[..i] + s
  {
  }

  lemma PatchAll(t: seq<char>, s: seq<char>)
    requires |s| == |t|
    ensures Patch(t, 0, s) == s
  {
  }

  method Blit(src: seq<char>, ofs: nat, dst: array<char>, i: nat, len: nat)
    requires ofs + len <= |src| && i + len <= dst.Length
    modifies dst
    ensures dst[..] == Patch(old(dst[..]), i, src[ofs..ofs + len])
  {
    for k := 0 to len
      invariant dst[..i] == old(dst[..i])
      invariant dst[i..i + k] == src[ofs..ofs + k]
      invariant dst[i + k..] == old(dst[i + k..])
    {
      dst[i + k] := src[ofs + k];
    }
    assert dst[..] == dst[..i] + dst[i..i + len] + dst[i + len..];
  }

  /** Copies a whole rope into dst at i. */
  method BlitRope(dst: array<char>, i: nat, r: Rope)
    requires Sized(r) && dst !in Leaves(r) && i + Size(r) <= dst.Length
    modifies dst
    ensures dst[..] == Patch(old(dst[..]), i, Text(r))
    decreases r
  {
    hide Patch;
    match r
    case Str(s) =>
      Whole(s[..]);
      Blit(s[..], 0, dst, i, s.Length);
    case App(l, r', _) =>
      var ll := RopeLength(l);
      ghost var tl, tr := Text(l), Text(r');
      assert allocated(Leaves(l)) && allocated(Leaves(r'));
      PatchTwice(dst[..], i, tl, tr);
      BlitRope(dst, i, l);
      assert Text(l) == tl && Text(r') == tr;
      BlitRope(dst, i + ll, r');
      assert Text(l) == tl && Text(r') == tr;
  }

  lemma Whole<T>(t: seq<T>)
    ensures t[0..|t|] == t
  {
  }

  lemma SliceConcat<T>(a: seq<T>, b: seq<T>, ofs: nat, len: nat)
    requires ofs + len <= |a| + |b|
    ensures ofs + len <= |a| ==> (a + b)[ofs..ofs + len] == a[ofs..ofs + len]
    ensures ofs >= |a| ==> (a + b)[ofs..ofs + len] == b[ofs - |a|..ofs - |a| + len]
    ensures ofs <= |a| <= ofs + len ==> (a + b)[ofs..ofs + len] == a[ofs..|a|] + b[0..ofs + len - |a|]
  {
  }

  /** Copies part of a rope into dst at i. */
  method BlitSubrope(dst: array<char>, i: nat, ofs: nat, len: nat, r: Rope)
    requires Sized(r) && dst !in Leaves(r)
    requires ofs + len <= Size(r) && i + len <= dst.Length
    modifies dst
    ensures dst[..] == Patch(old(dst[..]), i, Text(r)[ofs..ofs + len])
    decreases r
  {
    hide Patch, Leaves, Text, Size, Sized;
    Parts(r);
    match r
    case Str(s) =>
      Blit(s[..], ofs, dst, i, len);
    case App(l, r', _) =>
      var ll := RopeLength(l);
      ghost var tl, tr := Text(l), Text(r');
      assert allocated(Leaves(l)) && allocated(Leaves(r'));
      SliceConcat(tl, tr, ofs, len);
      if ofs + len <= ll {
        BlitSubrope(dst, i, ofs, len, l);
      } else if ofs >= ll {
        BlitSubrope(dst, i, ofs - ll, len, r');
      } else {
        var lenl := ll - ofs;
        PatchTwice(dst[..], i, tl[ofs..ll], tr[0..len - lenl]);
        BlitSubrope(dst, i, ofs, lenl, l);
        BlitSubrope(dst, i + lenl, 0, len - lenl, r');
      }
      Parts(r);
      assert Text(l) == tl && Text(r') == tr;
  }

  /** One unfolding of the functions on ropes. */
  lemma Parts(r: Rope)
    requires Sized(r)
    ensures match r
            case Str(s) => Leaves(r) == {s} && Text(r) == s[..] && Size(r) == s.Length
            case App(l, r', n) =>
              && Sized(l) && Sized(r') && n == Size(r) == Size(l) + Size(r')
              && Leaves(r) == Leaves(l) + Leaves(r') && Text(r) == Text(l) + Text(r')
  {
  }

  /** A string buffer: the rope, then the bytes in use of a plain buffer. */
  class RBuffer {
    const maxLength: nat  // Sys.max_string_length
    var rope: Rope
    var buffer: array<char>
    var position: nat

    ghost predicate Valid()
      reads this
    {
      && maxLength >= 1
      && Sized(rope)
      && 1 <= buffer.Length <= maxLength
      && position <= buffer.Length
      && buffer !in Leaves(rope)
    }

    ghost function Contents(): seq<char>
      requires Valid()
      reads this, buffer, Leaves(rope)
    {
      Text(rope) + buffer[..position]
    }

    /**
     What an operation may do to the arrays it uses: keep its buffer or take a new one, and add
     to its leaves new arrays, leaves of `shared`, and its old buffer if it has given that up.
     */
    twostate predicate Grew(shared: set<array<char>>)
      reads this
    {
      && (buffer == old(buffer) || fresh(buffer))
      && forall a :: a in Leaves(rope) ==>
           a in old(Leaves(rope)) || a in shared || fresh(a) || (a == old(buffer) && fresh(buffer))
    }

    constructor Create(n: int, maxLength: nat)
      requires maxLength >= 1
      ensures this.maxLength == maxLength
      ensures Valid() && Contents() == []
      ensures fresh(buffer) && forall a :: a in Leaves(rope) ==> fresh(a)
    {
      var n1 := if n < 1 then 1 else n;
      var n2 := if n1 > maxLength then maxLength else n1;
      this.maxLength := maxLength;
      buffer := new char[n2];
      var empty := new char[0];
      rope := Str(empty);
      position := 0;
      new;
      assert buffer[..0] == [];
    }

    method Reset()
      requires Valid()
      modifies this
      ensures Valid() && Grew({}) && Contents() == []
    {
      var empty := new char[0];
      rope := Str(empty);
      position := 0;
    }

    function Length(): (n: nat)
      requires Valid()
      reads this, buffer, Leaves(rope)
      ensures n == |Contents()|
    {
      RopeLength(rope) + position
    }

    function Nth(i: int): (r: Result<char>)
      requires Valid()
      reads this, buffer, Leaves(rope)
      ensures r == if 0 <= i < |Contents()| then Ok(Contents()[i]) else InvalidArg
    {
      var r := RopeLength(rope);
      if i < 0 || i >= r + position then InvalidArg
      else if i < r then Ok(RopeNth(i, rope))
      else Ok(buffer[i - r])
    }

    method UnsafeContents() returns (r: Result<array<char>>)
      requires Valid()
      ensures |Contents()| > maxLength ==> r == InvalidArg
      ensures |Contents()| <= maxLength ==> r.Ok? && fresh(r.value) && r.value[..] == Contents()
    {
      assert allocated(Leaves(rope));
      var n := RopeLength(rope);
      var len := n + position;
      if len > maxLength {
        return InvalidArg;
      }
      var s := new char[len];
      BlitRope(s, 0, rope);
      assert s[..n] == Text(rope);
      Blit(buffer[..], 0, s, n, position);
      assert s[..] == Text(rope) + buffer[..position];
      r := Ok(s);
    }

    method Sub(ofs: int, len: int) returns (r: Result<array<char>>)
      requires Valid()
      ensures r.Ok? <==> 0 <= ofs && 0 <= len <= maxLength && ofs + len <= |Contents()|
      ensures r.Ok? ==> fresh(r.value) && r.value[..] == Contents()[ofs..ofs + len]
    {
      assert allocated(Leaves(rope));
      var n := RopeLength(rope);
      if len > maxLength || ofs < 0 || len < 0 || ofs > n + position - len {
        return InvalidArg;
      }
      var s := new char[len];
      SubInto(s, ofs);
      r := Ok(s);
    }

    /** The three cases of `sub`: in the rope, in the buffer, or the end of one and the start of the other. */
    method SubInto(s: array<char>, ofs: nat)
      requires Valid() && s != buffer && s !in Leaves(rope)
      requires ofs + s.Length <= Size(rope) + position
      modifies s
      ensures s[..] == Contents()[ofs..ofs + s.Length]
    {
      hide Leaves, Text, Size, Patch;
      assert allocated(Leaves(rope));
      var n, len := RopeLength(rope), s.Length;
      ghost var text, tail, was := Text(rope), buffer[..position], s[..];
      SliceConcat(text, tail, ofs, len);
      PatchAll(was, Contents()[ofs..ofs + len]);
      if ofs + len <= n {
        BlitSubrope(s, 0, ofs, len, rope);
      } else if ofs >= n {
        assert buffer[..][ofs - n..ofs - n + len] == tail[ofs - n..ofs - n + len];
        Blit(buffer[..], ofs - n, s, 0, len);
      } else {
        assert buffer[..][0..ofs + len - n] == tail[0..ofs + len - n];
        PatchTwice(was, 0, text[ofs..n], tail[0..ofs + len - n]);
        BlitSubrope(s, 0, ofs, n - ofs, rope);
        Blit(buffer[..], 0, s, n - ofs, ofs + len - n);
      }
    }

    /** Moves what is in the buffer to the rope; a full buffer becomes a leaf itself. */
    method MoveBufferToRope()
      requires Valid()
      modifies this
      ensures Valid() && Grew({}) && Contents() == old(Contents())
      ensures position == 0 && buffer.Length == old(buffer.Length)
    {
      assert allocated(Leaves(rope));
      var pos := position;
      if pos > 0 {
        var n := buffer.Length;
        if pos == n {
          assert buffer[..] == buffer[..pos];
          rope := App(rope, Str(buffer), RopeLength(rope) + pos);
          buffer := new char[n];
        } else {
          var part := SubBytes(buffer, pos);
          rope := App(rope, Str(part), RopeLength(rope) + pos);
        }
        position := 0;
        assert Text(rope) + [] == Text(rope);
      }
      assert buffer[..0] == [];
    }

    method AddChar(c: char)
      requires Valid()
      modifies this, buffer
      ensures Valid() && Grew({}) && Contents() == old(Contents()) + [c]
    {
      hide Leaves, Text, Size, Sized;
      assert allocated(Leaves(rope));
      if position == buffer.Length {
        MoveBufferToRope();
      }
      var pos := position;
      buffer[pos] := c;
      position := pos + 1;
      assert buffer[..pos + 1] == buffer[..pos] + [c];
    }

    /**
     Makes room for len bytes at the end and returns where they are.  Three cases: in the buffer;
     in a new leaf together with what the buffer held; in a leaf of its own after one for that.
     The new bytes are whatever they are until the caller writes them.
     */
    method Alloc(len: nat) returns (str: array<char>, pos: nat, ghost part: array<char>)
      requires Valid() && len <= maxLength
      modifies this
      ensures Valid() && Grew({}) && buffer == old(buffer)
      ensures pos + len <= str.Length
      ensures Room(str, pos, len, part)
    {
      assert allocated(Leaves(rope));
      var n := buffer.Length;
      pos := position;
      part := buffer;
      var len' := pos + len;
      if len' <= n {
        position := len';
        str := buffer;
      } else if len' <= maxLength {
        str := new char[len'];
        Blit(buffer[..], 0, str, 0, pos);
        assert str[..pos] == buffer[..pos];
        rope := App(rope, Str(str), RopeLength(rope) + len');
        position := 0;
      } else {
        str := new char[len];
        var held := SubBytes(buffer, pos);
        part := held;
        var tail := App(Str(held), Str(str), len');
        assert Leaves(tail) == {held, str};
        rope := App(rope, tail, RopeLength(rope) + len');
        position := 0;
        pos := 0;
      }
    }

    /** Where Alloc has put the new bytes, and that everything before them is as it was. */
    twostate predicate Room(new str: array<char>, pos: nat, len: nat, new part: array<char>)
      reads this, buffer, str, part
    {
      pos + len <= str.Length && old(position <= buffer.Length) &&
      if str == buffer then
        rope == old(rope) && pos == old(position) && position == pos + len
      else
        && fresh(str) && position == 0 && str.Length == pos + len
        && ((rope == App(old(rope), Str(str), Size(old(rope)) + str.Length)
             && pos == old(position) && str[..pos] == old(buffer[..position]))
            || (rope == App(old(rope), App(Str(part), Str(str), part.Length + len), Size(old(rope)) + part.Length + len)
                && pos == 0 && part != str && part[..] == old(buffer[..position])))
    }

    method SafeAddSubstring(s: seq<char>, offset: nat, len: nat)
      requires Valid() && offset + len <= |s| <= maxLength
      modifies this, buffer
      ensures Valid() && Grew({}) && Contents() == old(Contents()) + s[offset..offset + len]
    {
      hide Patch;
      assert allocated(Leaves(rope));
      var str, pos;
      ghost var part;
      str, pos, part := Alloc(len);
      ghost var text, held, added := old(Text(rope)), old(buffer[..position]), s[offset..offset + len];
      PatchFront(str[..], pos, added);
      Blit(s, offset, str, pos, len);
      assert str[..pos + len] == str[..pos] + added;
      if str == buffer {
        assert buffer[..position] == held + added;
      } else {
        assert buffer[..0] == [] && str[..] == str[..pos + len];
        assert Text(rope.l) == text && Text(rope.r) == held + added;
        Assoc(text, held, added);
      }
    }

    method AddSubstring(s: seq<char>, offset: int, len: int) returns (r: Result<()>)
      requires Valid() && |s| <= maxLength
      modifies this, buffer
      ensures Valid() && Grew({})
      ensures r.Ok? <==> 0 <= offset && 0 <= len && offset + len <= |s|
      ensures Contents() == if r.Ok? then old(Contents()) + s[offset..offset + len] else old(Contents())
    {
      if offset < 0 || len < 0 || offset > |s| - len {
        return InvalidArg;
      }
      SafeAddSubstring(s, offset, len);
      r := Ok(());
    }

    /** Adds the contents of another buffer, or of this one, sharing the other's rope. */
    method AddBuffer(b2: RBuffer)
      requires Valid() && b2.Valid() && b2.maxLength == maxLength
      requires b2 == this || Apart(this, b2)
      modifies this, buffer
      ensures Valid() && Grew(old(Leaves(b2.rope)))
      ensures Contents() == old(Contents()) + old(b2.Contents())
    {
      hide Leaves, Text, Size, Sized;
      assert allocated(Leaves(rope)) && allocated(Leaves(b2.rope));
      if position > 0 {
        MoveBufferToRope();
      }
      assert allocated(Leaves(b2.rope));
      ghost var text := Text(b2.rope);
      ghost var first := Contents();
      assert first == old(Contents());
      ShareRope(b2.rope);
      assert Contents() == first + text;
      ghost var added := b2.buffer[..][0..b2.position];
      assert text + added == old(b2.Contents());
      var r := AddSubstring(b2.buffer[..], 0, b2.position);
      assert Contents() == (first + text) + added;
      Assoc(first, text, added);
    }

    /** b.rope <- App (b.rope, r, ...) */
    method ShareRope(r: Rope)
      requires Valid() && position == 0 && Sized(r) && buffer !in Leaves(r)
      modifies `rope
      ensures Valid() && Leaves(rope) == old(Leaves(rope)) + Leaves(r)
      ensures Contents() == old(Contents()) + Text(r)
    {
      rope := App(rope, r, RopeLength(rope) + RopeLength(r));
      assert buffer[..0] == [];
    }

    /** Hands the leaves to the channel, left to right, from a worklist of ropes. */
    method OutputBuffer() returns (out: seq<char>)
      requires Valid()
      ensures out == Contents()
    {
      var wl := [rope];
      out := [];
      Worklist(rope, []);
      while wl != []
        invariant LeavesAll(wl) <= Leaves(rope)
        invariant out + TextAll(wl) == Text(rope)
        decreases Nodes(wl)
      {
        var r, rest := wl[0], wl[1..];
        assert wl == [r] + rest;
        Worklist(r, rest);
        match r
        case Str(s) =>
          Assoc(out, s[..], TextAll(rest));
          out := out + s[..];
          wl := rest;
        case App(l, r', _) =>
          assert [l, r'] + rest == [l] + ([r'] + rest);
          Worklist(l, [r'] + rest);
          Worklist(r', rest);
          Assoc(Text(l), Text(r'), TextAll(rest));
          wl := [l, r'] + rest;
      }
      assert out + [] == out;
      out := out + buffer[..position];
    }
  }

  lemma Worklist(r: Rope, rest: seq<Rope>)
    ensures Nodes([r] + rest) == RopeNodes(r) + Nodes(rest)
    ensures LeavesAll([r] + rest) == Leaves(r) + LeavesAll(rest)
    ensures TextAll([r] + rest) == Text(r) + TextAll(rest)
  {
    assert ([r] + rest)[1..] == rest;
  }

  function LeavesAll(wl: seq<Rope>): set<array<char>> {
    if wl == [] then {} else Leaves(wl[0]) + LeavesAll(wl[1..])
  }

  ghost function TextAll(wl: seq<Rope>): seq<char>
    reads LeavesAll(wl)
  {
    if wl == [] then [] else Text(wl[0]) + TextAll(wl[1..])
  }

  function RopeNodes(r: Rope): nat {
    match r
    case Str(_) => 1
    case App(l, r', _) => 1 + RopeNodes(l) + RopeNodes(r')
  }

  function Nodes(wl: seq<Rope>): nat {
    if wl == [] then 0 else RopeNodes(wl[0]) + Nodes(wl[1..])
  }

  /** Bytes.sub_string b 0 len */
  method SubBytes(b: array<char>, len: nat) returns (r: array<char>)
    requires len <= b.Length
    ensures fresh(r) && r[..] == b[..len]
  {
    r := new char[len];
    Blit(b[..], 0, r, 0, len);
  }

  /** Writing to the buffer of one never touches anything of the other. */
  ghost predicate Apart(a: RBuffer, b: RBuffer)
    reads a, b
  {
    && a.buffer != b.buffer
    && a.buffer !in Leaves(b.rope)
    && b.buffer !in Leaves(a.rope)
  }

  datatype Op =
    | AddingChar(c: char)
    | AddingSubstring(s: seq<char>, offset: int, len: int)
    | AddingBuffer(from: nat)
    | Resetting

  predicate Fits(op: Op, count: nat, maxLength: nat) {
    && (op.AddingSubstring? ==> |op.s| <= maxLength)
    && (op.AddingBuffer? ==> op.from < count)
  }

  /** What the operation makes of the text of buffer k, when ts are the texts of all buffers. */
  function TextAfter(ts: seq<seq<char>>, k: nat, op: Op): seq<char>
    requires k < |ts| && (op.AddingBuffer? ==> op.from < |ts|)
  {
    match op
    case AddingChar(c) => ts[k] + [c]
    case AddingSubstring(s, offset, len) =>
      if 0 <= offset && 0 <= len && offset + len <= |s| then ts[k] + s[offset..offset + len] else ts[k]
    case AddingBuffer(from) => ts[k] + ts[from]
    case Resetting => []
  }

  /** A step of a history: a new buffer, or an operation on buffer k. */
  datatype Step = Creating(n: int) | On(k: nat, op: Op)

  /** How many buffers there are after a history. */
  function CountAfter(count: nat, steps: seq<Step>): nat {
    if steps == [] then count
    else CountAfter(count, steps[..|steps| - 1]) + (if steps[|steps| - 1].Creating? then 1 else 0)
  }

  /** The step uses buffers that are there. */
  predicate StepFits(s: Step, count: nat, maxLength: nat) {
    s.On? ==> s.k < count && Fits(s.op, count, maxLength)
  }

  predicate AllFit(count: nat, steps: seq<Step>, maxLength: nat) {
    steps == [] ||
    var before := steps[..|steps| - 1];
    AllFit(count, before, maxLength) && StepFits(steps[|steps| - 1], CountAfter(count, before), maxLength)
  }

  function TextsStep(ts: seq<seq<char>>, s: Step, maxLength: nat): (r: seq<seq<char>>)
    requires StepFits(s, |ts|, maxLength)
    ensures |r| == |ts| + (if s.Creating? then 1 else 0)
  {
    if s.Creating? then ts + [[]] else ts[s.k := TextAfter(ts, s.k, s.op)]
  }

  /** The texts after a history. */
  function TextsAfter(ts: seq<seq<char>>, steps: seq<Step>, maxLength: nat): (r: seq<seq<char>>)
    requires AllFit(|ts|, steps, maxLength)
    ensures |r| == CountAfter(|ts|, steps)
  {
    if steps == [] then ts
    else TextsStep(TextsAfter(ts, steps[..|steps| - 1], maxLength), steps[|steps| - 1], maxLength)
  }

  lemma {:induction false} PrefixFits(count: nat, steps: seq<Step>, n: nat, maxLength: nat)
    requires AllFit(count, steps, maxLength) && n <= |steps|
    ensures AllFit(count, steps[..n], maxLength)
    decreases |steps|
  {
    if n == |steps| {
      assert steps[..n] == steps;
    } else {
      PrefixFits(count, steps[..|steps| - 1], n, maxLength);
      assert steps[..|steps| - 1][..n] == steps[..n];
    }
  }

  /** The next step of a history. */
  lemma NextStep(ts: seq<seq<char>>, steps: seq<Step>, n: nat, maxLength: nat)
    requires AllFit(|ts|, steps, maxLength) && n < |steps|
    ensures AllFit(|ts|, steps[..n], maxLength) && AllFit(|ts|, steps[..n + 1], maxLength)
    ensures StepFits(steps[n], |TextsAfter(ts, steps[..n], maxLength)|, maxLength)
    ensures TextsAfter(ts, steps[..n + 1], maxLength)
         == TextsStep(TextsAfter(ts, steps[..n], maxLength), steps[n], maxLength)
  {
    PrefixFits(|ts|, steps, n + 1, maxLength);
    assert steps[..n + 1][..n] == steps[..n];
  }

  lemma NoStep(ts: seq<seq<char>>, maxLength: nat)
    ensures AllFit(|ts|, [], maxLength) && TextsAfter(ts, [], maxLength) == ts
  {
  }

  /**
   Any number of live buffers.  Whatever operations are run on them in whatever order, each buffer
   holds exactly the text that was added to it since its last reset, although leaves are shared.
   */
  class World {
    const maxLength: nat
    var bufs: seq<RBuffer>

    ghost predicate Valid()
      reads this, bufs
    {
      && (forall i :: 0 <= i < |bufs| ==> bufs[i].Valid() && bufs[i].maxLength == maxLength)
      && (forall i, j :: 0 <= i < |bufs| && 0 <= j < |bufs| && i != j ==>
            bufs[i] != bufs[j] && Apart(bufs[i], bufs[j]))
    }

    /** Buffer i holds ts[i]. */
    ghost predicate Holds(ts: seq<seq<char>>)
      requires Valid()
      reads this, bufs, set i | 0 <= i < |bufs| :: bufs[i].buffer
      reads set i, a | 0 <= i < |bufs| && a in Leaves(bufs[i].rope) :: a
    {
      |ts| == |bufs| && forall i :: 0 <= i < |bufs| ==> bufs[i].Contents() == ts[i]
    }

    constructor (maxLength: nat)
      requires maxLength >= 1
      ensures Valid() && bufs == [] && Holds([]) && this.maxLength == maxLength
    {
      this.maxLength := maxLength;
      bufs := [];
    }

    /** A new buffer, which shares nothing with the others. */
    method NewBuffer(n: int, ghost ts: seq<seq<char>>) returns (b: RBuffer)
      requires Valid() && Holds(ts) && maxLength >= 1
      ensures b.Valid() && b.maxLength == maxLength && b.Contents() == [] && fresh(b) && fresh(b.buffer)
      ensures forall j :: 0 <= j < |bufs| ==> bufs[j] != b && Apart(b, bufs[j]) && Apart(bufs[j], b)
    {
      assert forall j :: 0 <= j < |bufs| ==> allocated(bufs[j]) && allocated(Leaves(bufs[j].rope));
      b := new RBuffer.Create(n, maxLength);
    }

    method Create(n: int, ghost ts: seq<seq<char>>)
      requires Valid() && Holds(ts) && maxLength >= 1
      modifies this
      ensures Valid() && Holds(ts + [[]])
      ensures |bufs| == |old(bufs)| + 1 && bufs[..|old(bufs)|] == old(bufs)
      ensures fresh(bufs[|old(bufs)|]) && fresh(bufs[|old(bufs)|].buffer)
    {
      hide Apart, Leaves, Text;
      assert forall j :: 0 <= j < |bufs| ==> allocated(Leaves(bufs[j].rope));
      var b := NewBuffer(n, ts);
      bufs := bufs + [b];
      assert bufs[|old(bufs)|] == b;
      assert forall j :: 0 <= j < |old(bufs)| ==> bufs[j] == old(bufs)[j];
    }

    /** Which leaves of other buffers an operation may take over. */
    ghost function Shared(op: Op): set<array<char>>
      requires Fits(op, |bufs|, maxLength)
      reads this, bufs
    {
      if op.AddingBuffer? then Leaves(bufs[op.from].rope) else {}
    }

    /** The operation on buffer k, as buffer k sees it. */
    method DoOn(k: nat, op: Op, ghost ts: seq<seq<char>>)
      requires Valid() && Holds(ts) && k < |bufs| && Fits(op, |bufs|, maxLength)
      modifies bufs[k], bufs[k].buffer
      ensures bufs[k].Valid() && bufs[k].Grew(old(Shared(op)))
      ensures bufs[k].Contents() == TextAfter(ts, k, op)
    {
      match op
      case AddingChar(c) => bufs[k].AddChar(c);
      case AddingSubstring(s, offset, len) => var _ := bufs[k].AddSubstring(s, offset, len);
      case AddingBuffer(from) => bufs[k].AddBuffer(bufs[from]);
      case Resetting => bufs[k].Reset();
    }

    /** The operation on buffer k changes the text of buffer k and of no other. */
    method Do(k: nat, op: Op, ghost ts: seq<seq<char>>)
      requires Valid() && Holds(ts) && k < |bufs| && Fits(op, |bufs|, maxLength)
      modifies bufs[k], bufs[k].buffer
      ensures Valid() && Holds(ts[k := TextAfter(ts, k, op)])
      ensures bufs[k].buffer == old(bufs[k].buffer) || fresh(bufs[k].buffer)
    {
      hide Leaves, Text, Size, Sized, TextAfter;
      assert forall j :: 0 <= j < |bufs| ==> allocated(Leaves(bufs[j].rope));
      assert forall j :: 0 <= j < |bufs| && j != k ==> Apart(bufs[k], bufs[j]);
      DoOn(k, op, ts);
      forall i, j | 0 <= i < |bufs| && 0 <= j < |bufs| && i != j
        ensures bufs[i] != bufs[j] && Apart(bufs[i], bufs[j])
      {
        assert old(Apart(bufs[i], bufs[j]));
      }
    }

    /** Only buffers and arrays that the world had or that are new. */
    twostate predicate Reached()
      reads this, bufs
    {
      && |old(bufs)| <= |bufs|
      && (forall i :: 0 <= i < |old(bufs)| ==>
            bufs[i] == old(bufs[i]) && (bufs[i].buffer == old(bufs[i].buffer) || fresh(bufs[i].buffer)))
      && (forall i :: |old(bufs)| <= i < |bufs| ==> fresh(bufs[i]) && fresh(bufs[i].buffer))
    }

    /** One step, which keeps to the buffers and arrays it may use. */
    method DoStep(s: Step, ghost ts: seq<seq<char>>)
      requires Valid() && Holds(ts) && maxLength >= 1 && StepFits(s, |bufs|, maxLength)
      modifies this, bufs, set i | 0 <= i < |bufs| :: bufs[i].buffer
      ensures Valid() && Holds(TextsStep(ts, s, maxLength)) && Reached()
      ensures |bufs| == |TextsStep(ts, s, maxLength)|
    {
      hide Apart, TextAfter, Leaves, RBuffer.Valid, RBuffer.Contents;
      match s
      case Creating(size) => Create(size, ts);
      case On(k, op) => Do(k, op, ts);
    }

    lemma HoldsCount(ts: seq<seq<char>>)
      requires Valid() && Holds(ts)
      ensures |ts| == |bufs|
    {
    }

    /** Whole histories: buffers are made at any time, and any operation is run on any of them. */
    method Run(steps: seq<Step>, ghost ts: seq<seq<char>>)
      requires Valid() && Holds(ts) && maxLength >= 1 && AllFit(|bufs|, steps, maxLength)
      modifies this, bufs, set i | 0 <= i < |bufs| :: bufs[i].buffer
      ensures Valid() && Holds(TextsAfter(ts, steps, maxLength))
    {
      hide Valid, Holds, StepFits, AllFit, TextsStep, TextsAfter;
      HoldsCount(ts);
      ghost var now := ts;
      NoStep(ts, maxLength);
      assert steps[..0] == [];
      for n := 0 to |steps|
        invariant Valid() && Holds(now) && |bufs| == |now| && Reached()
        invariant AllFit(|ts|, steps[..n], maxLength) && now == TextsAfter(ts, steps[..n], maxLength)
      {
        NextStep(ts, steps, n, maxLength);
        DoStep(steps[n], now);
        now := TextsStep(now, steps[n], maxLength);
      }
      assert steps[..|steps|] == steps;
    }
  }
}
