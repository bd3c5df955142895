/**
 Worked examples of `text_search`, with the collation search's matches written out:
 the carry-over of both prefixes between chunks, byte indices behind three-byte
 characters, and indices counted in UTF-16 units across a surrogate pair. Each
 example is stated for every chunk of the shape it describes ("foo" is one
 three-unit ASCII chunk, "あいうえお" one run of five three-byte units).
 */
module Scenarios {
  import opened Utf16
  import opened ByteCount
  import opened Accumulator

  /** Every unit is below U+0080, so one UTF-8 byte. */
  predicate Ascii(s: seq<Unit>) {
    forall i :: 0 <= i < |s| ==> s[i] < 0x80
  }

  /** Every unit is in U+0800..U+D7FF, so three UTF-8 bytes and never a surrogate. */
  predicate ThreeByte(s: seq<Unit>) {
    forall i :: 0 <= i < |s| ==> 0x800 <= s[i] < 0xD800
  }

  /** ASCII text is well formed and its UTF-8 form is exactly as long. */
  lemma {:induction false} CountAscii(s: seq<Unit>)
    requires Ascii(s)
    ensures WellFormed(s) && CountU8Bytes(s) == |s|
    decreases |s|
  {
    assert WellFormed(s) by {
      forall i | 0 <= i < |s| ensures PairedAt(s, i) { }
    }
    if |s| > 0 {
      assert PairedAt(s, 0);
      CountAscii(s[1..]);
    }
  }

  /** Text of units in U+0800..U+D7FF is well formed and takes three bytes a unit. */
  lemma {:induction false} CountThreeByte(s: seq<Unit>)
    requires ThreeByte(s)
    ensures WellFormed(s) && CountU8Bytes(s) == 3 * |s|
    decreases |s|
  {
    assert WellFormed(s) by {
      forall i | 0 <= i < |s| ensures PairedAt(s, i) { }
    }
    if |s| > 0 {
      assert PairedAt(s, 0);
      CountThreeByte(s[1..]);
    }
  }

  /** The one-chunk search of `e` from session `s` returns 0 and leaves exactly `r`. */
  predicate Searches(s: Session, e: Engine, r: Session) {
    EngineOk(e) && TextSearch(s, e).code == 0 && TextSearch(s, e).session == r
  }

  /** A three-unit ASCII chunk such as "foo", matched whole, from any initialised session. */
  lemma FooOnce(s: Session, foo: seq<Unit>)
    requires s.live && |foo| == 3 && Ascii(foo)
    ensures Searches(s, Opened(foo, [Match(0, 3)], false),
                     Session(true, s.prefix + 3, s.bPrefix + 3,
                             s.chars + [Record(s.prefix + 1, 3)], s.bytes + [Record(s.bPrefix + 1, 3)]))
  {
    var ms := [Match(0, 3)];
    CountAscii(foo);
    assert ValidMatch(foo, ms[0]);
    assert foo[0..0] == [] && foo[0..3] == foo;
    assert CharRecords(s.prefix, ms) == [Record(s.prefix + 1, 3)];
    assert ByteRecords(s.bPrefix, foo, ms) == [Record(s.bPrefix + 1, 3)];
  }

  /**
   The same chunk "foo" searched twice for "foo": the second match is reported at
   index 4 in both coordinates, after the three units and bytes of the first chunk.
   */
  lemma FooTwice(foo: seq<Unit>)
    requires |foo| == 3 && Ascii(foo)
    ensures Searches(Init(), Opened(foo, [Match(0, 3)], false),
                     Session(true, 3, 3, [Record(1, 3)], [Record(1, 3)]))
    ensures Searches(Session(true, 3, 3, [Record(1, 3)], [Record(1, 3)]), Opened(foo, [Match(0, 3)], false),
                     Session(true, 6, 6, [Record(1, 3), Record(4, 3)], [Record(1, 3), Record(4, 3)]))
  {
    var e := Opened(foo, [Match(0, 3)], false);
    var s1 := Session(true, 3, 3, [Record(1, 3)], [Record(1, 3)]);
    assert Searches(Init(), e, s1) by {
      FooOnce(Init(), foo);
      assert [] + [Record(1, 3)] == [Record(1, 3)];
    }
    assert Searches(s1, e, Session(true, 6, 6, [Record(1, 3), Record(4, 3)], [Record(1, 3), Record(4, 3)])) by {
      FooOnce(s1, foo);
      assert [Record(1, 3)] + [Record(4, 3)] == [Record(1, 3), Record(4, 3)];
    }
  }

  /**
   A match that covers exactly `mid` in a chunk `pre + mid + post` gets the byte
   record of width(pre) bytes before it and width(mid) bytes long.
   */
  lemma ByteRecordOfSplit(bPrefix: int, pre: seq<Unit>, mid: seq<Unit>, post: seq<Unit>)
    requires WellFormed(pre) && WellFormed(mid) && WellFormed(post) && 1 <= |mid|
    ensures WellFormed(pre + mid + post)
    ensures ValidMatch(pre + mid + post, Match(|pre|, |mid|))
    ensures ByteRecord(bPrefix, pre + mid + post, Match(|pre|, |mid|))
              == Record(bPrefix + CountU8Bytes(pre) + 1, CountU8Bytes(mid))
  {
    var u := pre + mid + post;
    ConcatWellFormed(pre, mid);
    ConcatWellFormed(pre + mid, post);
    var a := |pre|;
    var b := |pre| + |mid|;
    assert u[0..a] == pre;
    assert u[a..b] == mid;
    assert IsBoundary(u, a) by {
      if 0 < a < |u| {
        assert u[a] == (pre + mid)[a];
      }
    }
  }

  /** The records appended for two matches, one of each kind per match, in order. */
  lemma TwoMatchRecords(prefix: int, bPrefix: int, u: seq<Unit>, m1: Match, m2: Match)
    requires WellFormed(u) && ValidMatch(u, m1) && ValidMatch(u, m2) && m1.position <= m2.position
    ensures CharRecords(prefix, [m1, m2]) == [CharRecord(prefix, m1), CharRecord(prefix, m2)]
    ensures ByteRecords(bPrefix, u, [m1, m2]) == [ByteRecord(bPrefix, u, m1), ByteRecord(bPrefix, u, m2)]
  {
  }

  lemma OneMatchRecords(prefix: int, bPrefix: int, u: seq<Unit>, m: Match)
    requires WellFormed(u) && ValidMatch(u, m)
    ensures CharRecords(prefix, [m]) == [CharRecord(prefix, m)]
    ensures ByteRecords(bPrefix, u, [m]) == [ByteRecord(bPrefix, u, m)]
  {
  }

  /** Five three-byte units, such as "あいうえお". */
  predicate Kana5(h: seq<Unit>) {
    |h| == 5 && ThreeByte(h)
  }

  /** Three ASCII units, such as "XXX". */
  predicate Ascii3(x: seq<Unit>) {
    |x| == 3 && Ascii(x)
  }

  /** The widths of the pieces of `h1 + x + h2 + x + h3`. */
  lemma KanaPieces(h1: seq<Unit>, h2: seq<Unit>, h3: seq<Unit>, x: seq<Unit>)
    requires Kana5(h1) && Kana5(h2) && Kana5(h3) && Ascii3(x)
    ensures WellFormed(h1) && CountU8Bytes(h1) == 15
    ensures WellFormed(h2) && CountU8Bytes(h2) == 15
    ensures WellFormed(h3) && CountU8Bytes(h3) == 15
    ensures WellFormed(x) && CountU8Bytes(x) == 3
  {
    KanaWidth(h1);
    KanaWidth(h2);
    KanaWidth(h3);
    CountAscii(x);
  }

  lemma KanaWidth(h: seq<Unit>)
    requires Kana5(h)
    ensures WellFormed(h) && CountU8Bytes(h) == 15
  {
    CountThreeByte(h);
  }

  /** Byte record of the first `x` in `h1 + x + h2 + x + h3`: 15 bytes before it. */
  lemma KanaFirst(h1: seq<Unit>, h2: seq<Unit>, h3: seq<Unit>, x: seq<Unit>)
    requires Kana5(h1) && Kana5(h2) && Kana5(h3) && Ascii3(x)
    ensures WellFormed(h1 + x + h2 + x + h3) && ValidMatch(h1 + x + h2 + x + h3, Match(5, 3))
    ensures ByteRecord(0, h1 + x + h2 + x + h3, Match(5, 3)) == Record(16, 3)
  {
    KanaPieces(h1, h2, h3, x);
    var rest := h2 + x + h3;
    ConcatWellFormed(h2, x);
    ConcatWellFormed(h2 + x, h3);
    assert h1 + x + h2 + x + h3 == h1 + x + rest;
    ByteRecordOfSplit(0, h1, x, rest);
  }

  /** Byte record of the second `x` in `h1 + x + h2 + x + h3`: 33 bytes before it. */
  lemma KanaSecond(h1: seq<Unit>, h2: seq<Unit>, h3: seq<Unit>, x: seq<Unit>)
    requires Kana5(h1) && Kana5(h2) && Kana5(h3) && Ascii3(x)
    ensures WellFormed(h1 + x + h2 + x + h3) && ValidMatch(h1 + x + h2 + x + h3, Match(13, 3))
    ensures ByteRecord(0, h1 + x + h2 + x + h3, Match(13, 3)) == Record(34, 3)
  {
    KanaPieces(h1, h2, h3, x);
    var before := h1 + x + h2;
    CountAdditive(h1, x);
    CountAdditive(h1 + x, h2);
    ByteRecordOfSplit(0, before, x, h3);
  }

  lemma KanaTotal(h1: seq<Unit>, h2: seq<Unit>, h3: seq<Unit>, x: seq<Unit>)
    requires Kana5(h1) && Kana5(h2) && Kana5(h3) && Ascii3(x)
    ensures WellFormed(h1 + x + h2 + x + h3)
    ensures CountU8Bytes(h1 + x + h2 + x + h3) == 51 && |h1 + x + h2 + x + h3| == 21
  {
    KanaPieces(h1, h2, h3, x);
    CountAdditive(h1, x);
    CountAdditive(h1 + x, h2);
    CountAdditive(h1 + x + h2, x);
    CountAdditive(h1 + x + h2 + x, h3);
  }

  /**
   "XXX" found twice in "あいうえおXXXさしすせそXXXたちつてと": at units 5 and 13
   (0-based), so indices 6 and 14; at bytes 15 and 33 (0-based), so indices 16 and
   34, each hiragana before a match counting three bytes; the chunk is 21 units and
   51 bytes.
   */
  lemma KanaMatches(h1: seq<Unit>, h2: seq<Unit>, h3: seq<Unit>, x: seq<Unit>)
    requires Kana5(h1) && Kana5(h2) && Kana5(h3) && Ascii3(x)
    ensures Searches(Init(), Opened(h1 + x + h2 + x + h3, [Match(5, 3), Match(13, 3)], false),
                     Session(true, 21, 51, [Record(6, 3), Record(14, 3)], [Record(16, 3), Record(34, 3)]))
  {
    var u := h1 + x + h2 + x + h3;
    KanaFirst(h1, h2, h3, x);
    KanaSecond(h1, h2, h3, x);
    KanaTotal(h1, h2, h3, x);
    var ms := [Match(5, 3), Match(13, 3)];
    assert ValidMatches(u, ms);
    TwoMatchRecords(0, 0, u, ms[0], ms[1]);
  }

  /** Widths around a supplementary character: its two units are four bytes, the chunk seven. */
  lemma EmojiWidths(c: Scalar, x: seq<Unit>)
    requires 0x1_0000 <= c && Ascii3(x)
    ensures WellFormed(EncodeScalar(c) + x) && CountU8Bytes(EncodeScalar(c) + x) == 7
    ensures |EncodeScalar(c) + x| == 5
    ensures ValidMatch(EncodeScalar(c) + x, Match(2, 3)) && ValidMatch(EncodeScalar(c) + x, Match(0, 2))
    ensures ByteRecord(0, EncodeScalar(c) + x, Match(2, 3)) == Record(5, 3)
    ensures ByteRecord(0, EncodeScalar(c) + x, Match(0, 2)) == Record(1, 4)
  {
    var pair := EncodeScalar(c);
    CountAscii(x);
    CountAscii([]);
    CountScalar(c, []);
    assert pair + [] == pair;
    CountAdditive(pair, x);
    ByteRecordOfSplit(0, pair, x, []);
    assert pair + x + [] == pair + x;
    ByteRecordOfSplit(0, [], pair, x);
    assert [] + pair + x == pair + x;
  }

  /**
   Indices count UTF-16 units, not code points: after a supplementary character
   such as U+1F600, a surrogate pair, "XXX" is at index 3 among units but 5 among
   bytes. The character itself is a match 2 units and 4 bytes long.
   */
  lemma EmojiMatches(c: Scalar, x: seq<Unit>)
    requires 0x1_0000 <= c && Ascii3(x)
    ensures Searches(Init(), Opened(EncodeScalar(c) + x, [Match(2, 3)], false),
                     Session(true, 5, 7, [Record(3, 3)], [Record(5, 3)]))
    ensures Searches(Init(), Opened(EncodeScalar(c) + x, [Match(0, 2)], false),
                     Session(true, 5, 7, [Record(1, 2)], [Record(1, 4)]))
  {
    var u := EncodeScalar(c) + x;
    EmojiWidths(c, x);
    OneMatchRecords(0, 0, u, Match(2, 3));
    OneMatchRecords(0, 0, u, Match(0, 2));
  }
}
