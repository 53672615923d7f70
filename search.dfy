/** Searching a byte buffer for a contiguous byte sequence, forwards for the
    first occurrence or backwards for the last one, as FindByteSequence in
    Program.cs does through the span searches IndexOf and LastIndexOf. */
module ByteSearch {

  newtype Byte = b: int | 0 <= b < 0x100

  /** The bytes of `input` at indices i .. i + |pattern| - 1 are exactly `pattern`. */
  predicate OccursAt(input: seq<Byte>, pattern: seq<Byte>, i: int)
  {
    0 <= i && i + |pattern| <= |input| && input[i..i + |pattern|] == pattern
  }

  /** The first occurrence of `pattern` at or after index `from`, or -1. */
  function FirstFrom(input: seq<Byte>, pattern: seq<Byte>, from: nat): (r: int)
    requires |pattern| > 0
    ensures r == -1 || (from <= r && OccursAt(input, pattern, r))
    ensures r == -1 ==> forall j :: from <= j ==> !OccursAt(input, pattern, j)
    ensures r != -1 ==> forall j :: from <= j < r ==> !OccursAt(input, pattern, j)
    decreases |input| - from
  {
    if from + |pattern| > |input| then -1
    else if OccursAt(input, pattern, from) then from
    else FirstFrom(input, pattern, from + 1)
  }

  /** The last occurrence of `pattern` at an index below `bound`, or -1. */
  function LastBefore(input: seq<Byte>, pattern: seq<Byte>, bound: nat): (r: int)
    ensures r == -1 || (r < bound && OccursAt(input, pattern, r))
    ensures r == -1 ==> forall j :: j < bound ==> !OccursAt(input, pattern, j)
    ensures r != -1 ==> forall j :: r < j < bound ==> !OccursAt(input, pattern, j)
  {
    if bound == 0 then -1
    else if OccursAt(input, pattern, bound - 1) then bound - 1
    else LastBefore(input, pattern, bound - 1)
  }

  /** The model of `input.IndexOf(pattern)`: the smallest index where
      `pattern` occurs, or -1 when it occurs nowhere. */
  function IndexOf(input: seq<Byte>, pattern: seq<Byte>): (r: int)
    requires |pattern| > 0
    ensures r == -1 || 0 <= r <= |input| - |pattern|
    ensures r == -1 <==> forall j :: !OccursAt(input, pattern, j)
    ensures r != -1 ==> OccursAt(input, pattern, r)
    ensures r != -1 ==> forall j :: j < r ==> !OccursAt(input, pattern, j)
  {
    FirstFrom(input, pattern, 0)
  }

  /** The model of `input.LastIndexOf(pattern)`: the largest index where
      `pattern` occurs, or -1 when it occurs nowhere. */
  function LastIndexOf(input: seq<Byte>, pattern: seq<Byte>): (r: int)
    requires |pattern| > 0
    ensures r == -1 || 0 <= r <= |input| - |pattern|
    ensures r == -1 <==> forall j :: !OccursAt(input, pattern, j)
    ensures r != -1 ==> OccursAt(input, pattern, r)
    ensures r != -1 ==> forall j :: r < j ==> !OccursAt(input, pattern, j)
  {
    LastBefore(input, pattern, |input|)
  }

  /** FindByteSequence: a positive direction searches forwards for the first
      occurrence, a negative one backwards for the last, and direction 0 is
      rejected with -1 whatever the input. */
  function FindByteSequence(input: seq<Byte>, sequence: seq<Byte>, direction: int): (r: int)
    requires |sequence| > 0
    ensures r == -1 || 0 <= r <= |input| - |sequence|
    ensures direction == 0 ==> r == -1
    ensures direction != 0 ==> (r == -1 <==> forall j :: !OccursAt(input, sequence, j))
    ensures r != -1 ==> OccursAt(input, sequence, r)
    ensures direction > 0 && r != -1 ==> forall j :: j < r ==> !OccursAt(input, sequence, j)
    ensures direction < 0 && r != -1 ==> forall j :: r < j ==> !OccursAt(input, sequence, j)
  {
    if direction > 0 then IndexOf(input, sequence)
    else if direction < 0 then LastIndexOf(input, sequence)
    else -1
  }

  /** A buffer shorter than the pattern contains no occurrence of it, so a
      0- or 1-byte buffer never yields a marker index. */
  lemma ShortInputNotFound(input: seq<Byte>, sequence: seq<Byte>, direction: int)
    requires |sequence| > 0 && |input| < |sequence|
    ensures FindByteSequence(input, sequence, direction) == -1
  {
  }

  /** The forward scan behind IndexOf: tries each start index in turn. */
  method ScanForward(input: seq<Byte>, pattern: seq<Byte>) returns (r: int)
    requires |pattern| > 0
    ensures r == IndexOf(input, pattern)
  {
    var i := 0;
    while i + |pattern| <= |input|
      invariant 0 <= i
      invariant forall j :: j < i ==> !OccursAt(input, pattern, j)
      decreases |input| - i
    {
      if input[i..i + |pattern|] == pattern {
        assert OccursAt(input, pattern, i);
        return i;
      }
      i := i + 1;
    }
    return -1;
  }

  /** The backward scan behind LastIndexOf: tries each start index from the
      last one that leaves room for the pattern down to 0. */
  method ScanBackward(input: seq<Byte>, pattern: seq<Byte>) returns (r: int)
    requires |pattern| > 0
    ensures r == LastIndexOf(input, pattern)
  {
    var i := |input| - |pattern|;
    while i >= 0
      invariant i <= |input| - |pattern|
      invariant forall j :: i < j ==> !OccursAt(input, pattern, j)
      decreases i
    {
      if input[i..i + |pattern|] == pattern {
        assert OccursAt(input, pattern, i);
        return i;
      }
      i := i - 1;
    }
    return -1;
  }
}
