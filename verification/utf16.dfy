/**
 UTF-16 code units as ICU's `UChar` holds them, and the surrogate-pair rules of
 section 2 of RFC 2781: which sequences are well formed, where code points begin,
 how `U16_NEXT` reads one code point, and the encoding of a scalar value.
 */
module Utf16 {

  /** One UTF-16 code unit. */
  type Unit = u: int | 0 <= u < 0x1_0000

  /** A Unicode scalar value: a code point that is not a surrogate. */
  type Scalar = c: int | 0 <= c < 0x11_0000 && !(0xD800 <= c <= 0xDFFF)

  predicate IsLead(u: int) { 0xD800 <= u <= 0xDBFF }

  predicate IsTrail(u: int) { 0xDC00 <= u <= 0xDFFF }

  predicate IsScalar(c: int) { 0 <= c < 0x11_0000 && !(0xD800 <= c <= 0xDFFF) }

  /** The unit at `i` is not half of a broken pair. */
  predicate PairedAt(s: seq<Unit>, i: int)
    requires 0 <= i < |s|
  {
    && (IsLead(s[i]) ==> i + 1 < |s| && IsTrail(s[i + 1]))
    && (IsTrail(s[i]) ==> 0 < i && IsLead(s[i - 1]))
  }

  /** Every lead surrogate is followed by a trail, and every trail follows a lead. */
  predicate WellFormed(s: seq<Unit>) {
    forall i :: 0 <= i < |s| ==> PairedAt(s, i)
  }

  /** Index `k` of `s` is its start, its end, or the start of a code point: it does not split a pair. */
  predicate IsBoundary(s: seq<Unit>, k: int) {
    0 <= k <= |s| && (0 < k < |s| ==> !IsTrail(s[k]))
  }

  /** The supplementary code point a surrogate pair stands for (RFC 2781 section 2.2). */
  function Combine(lead: Unit, trail: Unit): (c: Scalar)
    requires IsLead(lead) && IsTrail(trail)
    ensures 0x1_0000 <= c
  {
    0x1_0000 + (lead - 0xD800) * 0x400 + (trail - 0xDC00)
  }

  /**
   ICU's `U16_NEXT`: the code point that starts at unit `i` of `s`, and the index just
   after it. A lead followed by a trail is read as one code point over two units;
   any other unit is read on its own.
   */
  function Next(s: seq<Unit>, i: nat): (r: (int, nat))
    requires i < |s|
    ensures i < r.1 <= |s|
  {
    if IsLead(s[i]) && i + 1 < |s| && IsTrail(s[i + 1]) then (Combine(s[i], s[i + 1]), i + 2)
    else (s[i], i + 1)
  }

  /**
   In well-formed text, `Next` from a boundary reads a scalar value and stops at the
   next boundary, having taken two units exactly when the value is supplementary.
   */
  lemma NextInWellFormed(s: seq<Unit>, i: nat)
    requires WellFormed(s) && IsBoundary(s, i) && i < |s|
    ensures IsScalar(Next(s, i).0)
    ensures IsBoundary(s, Next(s, i).1)
    ensures Next(s, i).1 == i + 2 <==> 0x1_0000 <= Next(s, i).0
    ensures Next(s, i).1 == i + 1 ==> Next(s, i).0 == s[i]
  {
    assert PairedAt(s, i);
    if i + 1 < |s| {
      assert PairedAt(s, i + 1);
    }
    if i + 2 < |s| {
      assert PairedAt(s, i + 2);
    }
  }

  /** The units of one scalar value: itself below U+10000, else a surrogate pair (RFC 2781 section 2.1). */
  function EncodeScalar(c: Scalar): (us: seq<Unit>)
    ensures |us| == (if c < 0x1_0000 then 1 else 2)
    ensures WellFormed(us)
    ensures Next(us, 0) == (c, |us|)
  {
    if c < 0x1_0000 then
      assert PairedAt([c], 0);
      [c]
    else
      var v := c - 0x1_0000;
      [0xD800 + v / 0x400, 0xDC00 + v % 0x400]
  }

  function Encode(cs: seq<Scalar>): (s: seq<Unit>)
    ensures WellFormed(s)
    ensures |cs| <= |s| <= 2 * |cs|
  {
    if |cs| == 0 then []
    else
      ConcatWellFormed(EncodeScalar(cs[0]), Encode(cs[1..]));
      EncodeScalar(cs[0]) + Encode(cs[1..])
  }

  /** The scalar values a well-formed sequence spells, read with `Next` from the front. */
  function Decode(s: seq<Unit>): (cs: seq<Scalar>)
    requires WellFormed(s)
    ensures |cs| <= |s| <= 2 * |cs|
    decreases |s|
  {
    if |s| == 0 then []
    else
      assert PairedAt(s, 0);
      NextInWellFormed(s, 0);
      var (c, k) := Next(s, 0);
      SliceWellFormed(s, k, |s|);
      var scalar: Scalar := c;
      [scalar] + Decode(s[k..])
  }

  lemma SliceWellFormed(s: seq<Unit>, i: int, j: int)
    requires WellFormed(s) && IsBoundary(s, i) && IsBoundary(s, j) && i <= j
    ensures WellFormed(s[i..j])
    ensures i == 0 ==> WellFormed(s[..j])
    ensures j == |s| ==> WellFormed(s[i..])
  {
    forall k | 0 <= k < j - i
      ensures PairedAt(s[i..j], k)
    {
      assert PairedAt(s, i + k);
    }
    assert s[..j] == s[0..j];
    assert s[i..] == s[i..|s|];
  }

  lemma ConcatWellFormed(a: seq<Unit>, b: seq<Unit>)
    requires WellFormed(a) && WellFormed(b)
    ensures WellFormed(a + b)
    ensures IsBoundary(a + b, |a|)
    ensures (a + b)[..|a|] == a && (a + b)[|a|..] == b
  {
    var s := a + b;
    if |b| > 0 {
      assert s[|a|] == b[0];
      assert PairedAt(b, 0);
    }
    forall i | 0 <= i < |s|
      ensures PairedAt(s, i)
    {
      if i < |a| {
        assert PairedAt(a, i);
        assert s[i] == a[i];
        if i + 1 < |a| {
          assert s[i + 1] == a[i + 1];
        }
        if 0 < i {
          assert s[i - 1] == a[i - 1];
        }
      } else {
        assert PairedAt(b, i - |a|);
        assert s[i] == b[i - |a|];
        if i + 1 < |s| {
          assert s[i + 1] == b[i + 1 - |a|];
        }
        if |a| < i {
          assert s[i - 1] == b[i - 1 - |a|];
        }
      }
    }
  }

  /** Reading back what `Encode` wrote gives the same scalar values. */
  lemma {:induction false} DecodeEncode(cs: seq<Scalar>)
    ensures Decode(Encode(cs)) == cs
  {
    if |cs| > 0 {
      var head := EncodeScalar(cs[0]);
      var tail := Encode(cs[1..]);
      ConcatWellFormed(head, tail);
      assert Next(head + tail, 0) == Next(head, 0);
      assert (head + tail)[|head|..] == tail;
      DecodeEncode(cs[1..]);
    }
  }

  /** A value below 2^20 split into its high and low ten bits is put back by the split. */
  lemma TenBits(a: int, b: int)
    requires 0 <= a < 0x400 && 0 <= b < 0x400
    ensures (a * 0x400 + b) / 0x400 == a && (a * 0x400 + b) % 0x400 == b
  {
  }

  /** A surrogate pair combined and re-encoded gives the same pair. */
  lemma PairRoundTrip(lead: Unit, trail: Unit)
    requires IsLead(lead) && IsTrail(trail)
    ensures EncodeScalar(Combine(lead, trail)) == [lead, trail]
  {
    var a, b := lead - 0xD800, trail - 0xDC00;
    assert Combine(lead, trail) - 0x1_0000 == a * 0x400 + b;
    TenBits(a, b);
  }

  /** The scalar value `Next` reads at the front is re-encoded as the units it was read from. */
  lemma EncodeNext(s: seq<Unit>)
    requires WellFormed(s) && 0 < |s|
    ensures IsScalar(Next(s, 0).0)
    ensures EncodeScalar(Next(s, 0).0) == s[..Next(s, 0).1]
  {
    assert PairedAt(s, 0);
    NextInWellFormed(s, 0);
    if Next(s, 0).1 == 2 {
      PairRoundTrip(s[0], s[1]);
      assert s[..2] == [s[0], s[1]];
    } else {
      assert s[..1] == [s[0]];
    }
  }

  /** Encoding what `Decode` read gives back the same units: decoding loses nothing. */
  lemma {:induction false} EncodeDecode(s: seq<Unit>)
    requires WellFormed(s)
    ensures Encode(Decode(s)) == s
    decreases |s|
  {
    if |s| > 0 {
      var (c, k) := Next(s, 0);
      assert IsScalar(c) && EncodeScalar(c) == s[..k] by {
        EncodeNext(s);
      }
      assert WellFormed(s[k..]) by {
        assert PairedAt(s, 0);
        NextInWellFormed(s, 0);
        SliceWellFormed(s, k, |s|);
      }
      var cs, rest := Decode(s), Decode(s[k..]);
      assert cs == [c] + rest;
      assert Encode(rest) == s[k..] by {
        EncodeDecode(s[k..]);
      }
      assert Encode(cs) == EncodeScalar(c) + Encode(rest) by {
        assert cs[0] == c && cs[1..] == rest;
      }
      assert s[..k] + s[k..] == s;
    }
  }
}
