/**
 `count_U8_bytes` (sandbox/utf8text_search.c): how many bytes the UTF-8 form of a
 UTF-16 buffer takes, found by walking the buffer one code point at a time with
 `U16_NEXT` and adding `U8_LENGTH` of each code point.
 */
module ByteCount {
  import opened Utf16
  import Utf8

  /**
   The UTF-8 width of a well-formed UTF-16 sequence, read front to back one code
   point at a time. Every unit turns into at least one and at most three bytes: a
   BMP code point takes 1 to 3 bytes for its one unit, a surrogate pair 4 bytes
   for its two.
   */
  function CountU8Bytes(s: seq<Unit>): (n: nat)
    requires WellFormed(s)
    ensures |s| <= n <= 3 * |s|
    decreases |s|
  {
    if |s| == 0 then 0
    else
      NextRest(s);
      var (c, k) := Next(s, 0);
      Utf8.Width(c) + CountU8Bytes(s[k..])
  }

  /** What the count needs from `U16_NEXT` at the front: a scalar value, and a well-formed rest. */
  lemma NextRest(s: seq<Unit>)
    requires WellFormed(s) && 0 < |s|
    ensures IsScalar(Next(s, 0).0) && WellFormed(s[Next(s, 0).1..])
  {
    assert PairedAt(s, 0);
    NextInWellFormed(s, 0);
    SliceWellFormed(s, Next(s, 0).1, |s|);
  }

  /**
   The loop of `count_U8_bytes(text, length)`: `pos` advances by `U16_NEXT` over the
   first `length` units and `size` collects `U8_LENGTH` of each code point read.
   */
  method CountU8BytesLoop(text: seq<Unit>, length: int) returns (size: int)
    requires 0 <= length <= |text| && WellFormed(text[..length])
    ensures size == CountU8Bytes(text[..length])
  {
    var s := text[..length];
    size := 0;
    var pos := 0;
    while pos < length
      invariant IsBoundary(s, pos)
      invariant WellFormed(s[..pos])
      invariant size == CountU8Bytes(s[..pos])
      decreases length - pos
    {
      assert PairedAt(s, pos);
      CountStep(s, pos);
      var (out, next) := Next(s, pos);
      NextInWellFormed(s, pos);
      SliceWellFormed(s, 0, next);
      size := size + Utf8.Width(out);
      pos := next;
    }
    assert s[..pos] == s;
  }

  /** One step of the loop above: the prefix up to the next boundary adds one width. */
  lemma CountStep(s: seq<Unit>, i: nat)
    requires WellFormed(s) && IsBoundary(s, i) && i < |s|
    ensures IsScalar(Next(s, i).0)
    ensures WellFormed(s[..i]) && WellFormed(s[..Next(s, i).1])
    ensures CountU8Bytes(s[..Next(s, i).1]) == CountU8Bytes(s[..i]) + Utf8.Width(Next(s, i).0)
  {
    NextInWellFormed(s, i);
    var (c, k) := Next(s, i);
    SliceWellFormed(s, 0, i);
    SliceWellFormed(s, 0, k);
    SliceWellFormed(s, i, k);
    CountSlices(s, 0, i, k);
    var piece := s[i..k];
    assert PairedAt(piece, 0);
    assert Next(piece, 0) == (c, k - i);
    assert piece[k - i..] == [];
  }

  /** One scalar value in front of a sequence adds exactly its `U8_LENGTH`. */
  lemma CountScalar(c: Scalar, t: seq<Unit>)
    requires WellFormed(t)
    ensures WellFormed(Utf16.EncodeScalar(c) + t)
    ensures CountU8Bytes(Utf16.EncodeScalar(c) + t) == Utf8.Width(c) + CountU8Bytes(t)
  {
    var e := Utf16.EncodeScalar(c);
    ConcatWellFormed(e, t);
    assert Next(e + t, 0) == Next(e, 0);
  }

  /** Counting the two halves of a concatenation separately gives the same total. */
  lemma {:induction false} CountAdditive(a: seq<Unit>, b: seq<Unit>)
    requires WellFormed(a) && WellFormed(b)
    ensures WellFormed(a + b)
    ensures CountU8Bytes(a + b) == CountU8Bytes(a) + CountU8Bytes(b)
    decreases |a|
  {
    ConcatWellFormed(a, b);
    if |a| == 0 {
      assert a + b == b;
    } else {
      assert PairedAt(a, 0);
      NextInWellFormed(a, 0);
      var (c, k) := Next(a, 0);
      assert Next(a + b, 0) == (c, k);
      SliceWellFormed(a, k, |a|);
      assert (a + b)[k..] == a[k..] + b;
      CountAdditive(a[k..], b);
    }
  }

  /** Splitting at a code-point boundary splits the count. */
  lemma CountSplit(s: seq<Unit>, k: int)
    requires WellFormed(s) && IsBoundary(s, k)
    ensures WellFormed(s[..k]) && WellFormed(s[k..])
    ensures CountU8Bytes(s) == CountU8Bytes(s[..k]) + CountU8Bytes(s[k..])
  {
    SliceWellFormed(s, 0, k);
    SliceWellFormed(s, k, |s|);
    CountAdditive(s[..k], s[k..]);
    assert s[..k] + s[k..] == s;
  }

  /**
   Three boundaries i <= j <= k: the slice [i, k) counts as [i, j) plus [j, k). With
   i = 0 this is how a running total over successive slices stays equal to the
   count of the whole prefix.
   */
  lemma CountSlices(s: seq<Unit>, i: int, j: int, k: int)
    requires WellFormed(s)
    requires IsBoundary(s, i) && IsBoundary(s, j) && IsBoundary(s, k) && i <= j <= k
    ensures WellFormed(s[i..j]) && WellFormed(s[j..k]) && WellFormed(s[i..k])
    ensures CountU8Bytes(s[i..k]) == CountU8Bytes(s[i..j]) + CountU8Bytes(s[j..k])
  {
    SliceWellFormed(s, i, j);
    SliceWellFormed(s, j, k);
    SliceWellFormed(s, i, k);
    CountAdditive(s[i..j], s[j..k]);
    assert s[i..j] + s[j..k] == s[i..k];
  }

  /** The UTF-8 width of the units in [i, j) of a well-formed sequence, both ends boundaries. */
  function SliceWidth(s: seq<Unit>, i: int, j: int): (w: nat)
    requires WellFormed(s) && IsBoundary(s, i) && IsBoundary(s, j) && i <= j
    ensures j - i <= w <= 3 * (j - i)
  {
    SliceWellFormed(s, i, j);
    CountU8Bytes(s[i..j])
  }

  /** The slice from the start to the end is the whole sequence. */
  lemma WholeSliceWidth(s: seq<Unit>)
    requires WellFormed(s)
    ensures SliceWidth(s, 0, |s|) == CountU8Bytes(s)
  {
    assert s[0..|s|] == s;
  }

  /**
   Slice widths add up: [i, k) is [i, j) plus [j, k). A running total over successive
   slices from 0 therefore equals the width of the whole prefix, and widths of
   prefixes grow with the prefix.
   */
  lemma SliceWidthAdditive(s: seq<Unit>, i: int, j: int, k: int)
    requires WellFormed(s)
    requires IsBoundary(s, i) && IsBoundary(s, j) && IsBoundary(s, k) && i <= j <= k
    ensures SliceWidth(s, i, k) == SliceWidth(s, i, j) + SliceWidth(s, j, k)
    ensures SliceWidth(s, i, j) <= SliceWidth(s, i, k)
  {
    CountSlices(s, i, j, k);
  }

  /**
   The count is the length of the UTF-8 encoding of the scalar values the UTF-16
   sequence spells: re-encoding as UTF-8 takes exactly that many bytes.
   */
  lemma {:induction false} CountIsUtf8Length(s: seq<Unit>)
    requires WellFormed(s)
    ensures CountU8Bytes(s) == |Utf8.Encode(Decode(s))|
    decreases |s|
  {
    if |s| > 0 {
      assert PairedAt(s, 0);
      NextInWellFormed(s, 0);
      var (c, k) := Next(s, 0);
      SliceWellFormed(s, k, |s|);
      CountIsUtf8Length(s[k..]);
      var cs := Decode(s);
      assert cs[0] == c && cs[1..] == Decode(s[k..]);
    }
  }
}
