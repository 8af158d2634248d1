/** Bit access into a byte array (libs/objsize/bitarray.c). */
module BitArray {

  const BITS_OF_CHAR := 8
  const SIZEOF_INT := 4

  /** The source rounds with `al % n`, the operands the other way round from an alignment. */
  function WordAlign(n: nat): (r: nat)
    requires n > 0
  {
    var m := SIZEOF_INT % n;
    if m == 0 then n else n + SIZEOF_INT - m
  }

  function SizeBytes(count: nat): (r: nat)
    requires count >= BITS_OF_CHAR
  {
    WordAlign(count / BITS_OF_CHAR)
  }

  /** It never returns less than asked, adds bytes only to a request of 3, and so does not align. */
  lemma WordAlignExactly(n: nat)
    requires n > 0
    ensures WordAlign(n) == if n == 3 then 6 else n
  {
    if n > SIZEOF_INT {
      assert SIZEOF_INT % n == SIZEOF_INT;
    }
  }

  /** So it aligns a number exactly when that is aligned already. */
  lemma WordAlignAligns(n: nat)
    requires n > 0
    ensures (WordAlign(n) % SIZEOF_INT == 0 && n <= WordAlign(n) < n + SIZEOF_INT) <==> n % SIZEOF_INT == 0
  {
    WordAlignExactly(n);
  }

  function Mask(i: nat): bv8 {
    match i % BITS_OF_CHAR
    case 0 => 0x01 case 1 => 0x02 case 2 => 0x04 case 3 => 0x08
    case 4 => 0x10 case 5 => 0x20 case 6 => 0x40 case _ => 0x80
  }

  predicate Get(arr: seq<bv8>, i: nat)
    requires i / BITS_OF_CHAR < |arr|
  {
    arr[i / BITS_OF_CHAR] & Mask(i) != 0
  }

  function PutBit(b: bv8, i: nat, val: bool): bv8 {
    if val then b | Mask(i) else b & !Mask(i)
  }

  lemma PutBitExactly(b: bv8, i: nat, val: bool, j: nat)
    ensures (PutBit(b, i, val) & Mask(j) != 0)
         == if i % BITS_OF_CHAR == j % BITS_OF_CHAR then val else b & Mask(j) != 0
  {
  }

  function Put(arr: seq<bv8>, i: nat, val: bool): (r: seq<bv8>)
    requires i / BITS_OF_CHAR < |arr|
    ensures |r| == |arr|
  {
    arr[i / BITS_OF_CHAR := PutBit(arr[i / BITS_OF_CHAR], i, val)]
  }

  /** Writing one bit leaves every other bit of the array as it was. */
  lemma PutExactly(arr: seq<bv8>, i: nat, val: bool, j: nat)
    requires i / BITS_OF_CHAR < |arr| && j / BITS_OF_CHAR < |arr|
    ensures Get(Put(arr, i, val), j) == if i == j then val else Get(arr, j)
  {
    if j / BITS_OF_CHAR == i / BITS_OF_CHAR {
      PutBitExactly(arr[i / BITS_OF_CHAR], i, val, j);
    }
  }

  /** The first bits of the array are `bits`. */
  ghost predicate Holds(arr: seq<bv8>, bits: seq<bool>) {
    && |bits| <= |arr| * BITS_OF_CHAR
    && forall i {:trigger Get(arr, i)} :: 0 <= i < |bits| ==> Get(arr, i) == bits[i]
  }

  lemma PutAppends(arr: seq<bv8>, bits: seq<bool>, val: bool)
    requires Holds(arr, bits) && |bits| < |arr| * BITS_OF_CHAR
    ensures Holds(Put(arr, |bits|, val), bits + [val])
  {
    forall i | 0 <= i <= |bits|
      ensures Get(Put(arr, |bits|, val), i) == (bits + [val])[i]
    {
      PutExactly(arr, |bits|, val, i);
    }
  }

  lemma HoldsInCopy(arr: seq<bv8>, copy: seq<bv8>, bits: seq<bool>)
    requires Holds(arr, bits) && arr <= copy
    ensures Holds(copy, bits)
  {
    forall i | 0 <= i < |bits|
      ensures Get(copy, i) == bits[i]
    {
      assert Get(arr, i) == bits[i];
    }
  }

  method Set(arr: array<bv8>, i: nat, val: int)
    requires i / BITS_OF_CHAR < arr.Length
    modifies arr
    ensures arr[..] == Put(old(arr[..]), i, val != 0)
  {
    hide PutBit, Mask;
    var k := i / BITS_OF_CHAR;
    arr[k] := PutBit(arr[k], i, val != 0);
  }

  /** A new array that begins with the bytes both have room for; the rest is whatever the allocator left there. */
  method Realloc(arr: array<bv8>, newCount: nat) returns (r: array<bv8>)
    requires newCount >= BITS_OF_CHAR
    ensures fresh(r) && r.Length == SizeBytes(newCount)
    ensures var kept := if arr.Length <= r.Length then arr.Length else r.Length; r[..kept] == arr[..kept]
  {
    r := new bv8[SizeBytes(newCount)];
    var kept := if arr.Length <= r.Length then arr.Length else r.Length;
    for i := 0 to kept
      invariant r[..i] == arr[..i]
    {
      r[i] := arr[i];
    }
  }
}
