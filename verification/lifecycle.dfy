/**
 The session as `text_search` sees it from outside: the invariant every call keeps,
 runs of calls over successive chunks, and `clear_result`.
 */
module Lifecycle {
  import opened Utf16
  import opened ByteCount
  import opened Accumulator

  /**
   Records of one chunk: as many byte records as character records, character
   indices in (lo, hi], byte indices in (bLo, bHi], every record ending by the
   chunk's end in its coordinate, indices never decreasing, each byte
   record at least as long as its character record and, counted from the chunk's
   start, no earlier.
   */
  predicate ChunkRecords(cr: seq<Record>, br: seq<Record>, lo: int, hi: int, bLo: int, bHi: int) {
    && |cr| == |br|
    && (forall k :: 0 <= k < |cr| ==>
          && lo < cr[k].index <= hi && bLo < br[k].index <= bHi
          && cr[k].index + cr[k].length <= hi + 1 && br[k].index + br[k].length <= bHi + 1
          && 1 <= cr[k].length <= br[k].length
          && cr[k].index - lo <= br[k].index - bLo)
    && Sorted(cr) && Sorted(br)
  }

  /**
   The two records of one match lie inside the chunk in both coordinates, and the
   match is never shorter, nor placed earlier from the chunk's start, in bytes than
   in units.
   */
  lemma MatchRecordsInChunk(prefix: int, bPrefix: int, u: seq<Unit>, m: Match)
    requires WellFormed(u) && ValidMatch(u, m)
    ensures prefix < CharRecord(prefix, m).index <= prefix + |u|
    ensures bPrefix < ByteRecord(bPrefix, u, m).index <= bPrefix + CountU8Bytes(u)
    ensures CharRecord(prefix, m).index + CharRecord(prefix, m).length <= prefix + |u| + 1
    ensures ByteRecord(bPrefix, u, m).index + ByteRecord(bPrefix, u, m).length <= bPrefix + CountU8Bytes(u) + 1
    ensures 1 <= CharRecord(prefix, m).length <= ByteRecord(bPrefix, u, m).length
    ensures CharRecord(prefix, m).index - prefix <= ByteRecord(bPrefix, u, m).index - bPrefix
  {
    ByteRecordWithinChunk(bPrefix, u, m);
  }

  /** Records of matches further right are no earlier, in both coordinates. */
  lemma MatchRecordsOrdered(prefix: int, bPrefix: int, u: seq<Unit>, m1: Match, m2: Match)
    requires WellFormed(u) && ValidMatch(u, m1) && ValidMatch(u, m2) && m1.position <= m2.position
    ensures CharRecord(prefix, m1).index <= CharRecord(prefix, m2).index
    ensures ByteRecord(bPrefix, u, m1).index <= ByteRecord(bPrefix, u, m2).index
  {
    SliceWidthAdditive(u, 0, m1.position, m2.position);
  }

  /** Every record pair appended for a chunk satisfies `MatchRecordsInChunk`. */
  lemma AppendedRecordsBounded(prefix: int, bPrefix: int, u: seq<Unit>, ms: seq<Match>)
    requires WellFormed(u) && ValidMatches(u, ms)
    ensures forall k :: 0 <= k < |ms| ==>
      var c := CharRecords(prefix, ms)[k];
      var b := ByteRecords(bPrefix, u, ms)[k];
      && prefix < c.index <= prefix + |u| && bPrefix < b.index <= bPrefix + CountU8Bytes(u)
      && c.index + c.length <= prefix + |u| + 1 && b.index + b.length <= bPrefix + CountU8Bytes(u) + 1
      && 1 <= c.length <= b.length
      && c.index - prefix <= b.index - bPrefix
  {
    forall k | 0 <= k < |ms|
      ensures var c := CharRecords(prefix, ms)[k];
        var b := ByteRecords(bPrefix, u, ms)[k];
        && prefix < c.index <= prefix + |u| && bPrefix < b.index <= bPrefix + CountU8Bytes(u)
        && c.index + c.length <= prefix + |u| + 1 && b.index + b.length <= bPrefix + CountU8Bytes(u) + 1
        && 1 <= c.length <= b.length
        && c.index - prefix <= b.index - bPrefix
    {
      assert ValidMatch(u, ms[k]);
      MatchRecordsInChunk(prefix, bPrefix, u, ms[k]);
    }
  }

  /** The records appended for a chunk are in order in both coordinates. */
  lemma AppendedRecordsSorted(prefix: int, bPrefix: int, u: seq<Unit>, ms: seq<Match>)
    requires WellFormed(u) && ValidMatches(u, ms)
    ensures Sorted(CharRecords(prefix, ms)) && Sorted(ByteRecords(bPrefix, u, ms))
  {
    var cr := CharRecords(prefix, ms);
    var br := ByteRecords(bPrefix, u, ms);
    forall i, j | 0 <= i < j < |ms|
      ensures cr[i].index <= cr[j].index && br[i].index <= br[j].index
    {
      assert ValidMatch(u, ms[i]) && ValidMatch(u, ms[j]);
      MatchRecordsOrdered(prefix, bPrefix, u, ms[i], ms[j]);
    }
  }

  /**
   The records `text_search` appends for one chunk lie inside that chunk in both
   coordinates, in order, and a match is never shorter in bytes than in units.
   */
  lemma AppendedRecordsInChunk(prefix: int, bPrefix: int, u: seq<Unit>, ms: seq<Match>)
    requires WellFormed(u) && ValidMatches(u, ms)
    ensures ChunkRecords(CharRecords(prefix, ms), ByteRecords(bPrefix, u, ms),
                         prefix, prefix + |u|, bPrefix, bPrefix + CountU8Bytes(u))
  {
    AppendedRecordsBounded(prefix, bPrefix, u, ms);
    AppendedRecordsSorted(prefix, bPrefix, u, ms);
  }

  /**
   Appending one chunk's records to a live session that keeps the invariant, and
   moving the prefixes to the chunk's end, keeps the invariant.
   */
  lemma AppendChunkKeepsValid(s: Session, cr: seq<Record>, br: seq<Record>, hi: int, bHi: int)
    requires Valid(s) && s.live
    requires ChunkRecords(cr, br, s.prefix, hi, s.bPrefix, bHi)
    requires s.prefix <= hi && hi - s.prefix <= bHi - s.bPrefix
    ensures Valid(Session(true, hi, bHi, s.chars + cr, s.bytes + br))
  {
    var t := Session(true, hi, bHi, s.chars + cr, s.bytes + br);
    assert Sorted(t.chars) && Sorted(t.bytes) by {
      AppendKeepsOrder(s, cr, br, hi, bHi);
    }
    assert forall i :: 0 <= i < |t.chars| ==>
      && 1 <= t.chars[i].index <= hi && 1 <= t.chars[i].length && 1 <= t.bytes[i].index <= bHi
      && t.chars[i].index + t.chars[i].length <= hi + 1 && t.bytes[i].index + t.bytes[i].length <= bHi + 1
      && t.chars[i].index <= t.bytes[i].index && t.chars[i].length <= t.bytes[i].length
    by {
      AppendKeepsBounds(s, cr, br, hi, bHi);
    }
  }

  /** Every record of the appended lists lies in the part of the stream searched so far. */
  lemma AppendKeepsBounds(s: Session, cr: seq<Record>, br: seq<Record>, hi: int, bHi: int)
    requires Valid(s) && s.live
    requires ChunkRecords(cr, br, s.prefix, hi, s.bPrefix, bHi)
    requires s.prefix <= hi && hi - s.prefix <= bHi - s.bPrefix
    ensures forall i :: 0 <= i < |s.chars + cr| ==>
      var c, b := (s.chars + cr)[i], (s.bytes + br)[i];
      && 1 <= c.index <= hi && 1 <= c.length && 1 <= b.index <= bHi
      && c.index + c.length <= hi + 1 && b.index + b.length <= bHi + 1
      && c.index <= b.index && c.length <= b.length
  {
    var chars, bytes := s.chars + cr, s.bytes + br;
    var n := |s.chars|;
    forall i | 0 <= i < |chars|
      ensures 1 <= chars[i].index <= hi && 1 <= chars[i].length
      ensures 1 <= bytes[i].index <= bHi
      ensures chars[i].index + chars[i].length <= hi + 1 && bytes[i].index + bytes[i].length <= bHi + 1
      ensures chars[i].index <= bytes[i].index && chars[i].length <= bytes[i].length
    {
      if i >= n {
        assert chars[i] == cr[i - n] && bytes[i] == br[i - n];
      } else {
        assert chars[i] == s.chars[i] && bytes[i] == s.bytes[i];
      }
    }
  }

  /** The appended lists are sorted, and every new record comes strictly after every old one. */
  lemma AppendKeepsOrder(s: Session, cr: seq<Record>, br: seq<Record>, hi: int, bHi: int)
    requires Valid(s) && s.live
    requires ChunkRecords(cr, br, s.prefix, hi, s.bPrefix, bHi)
    ensures Sorted(s.chars + cr) && Sorted(s.bytes + br)
    ensures forall i, j :: 0 <= i < |s.chars| <= j < |s.chars + cr| ==> (s.chars + cr)[i].index < (s.chars + cr)[j].index
    ensures forall i, j :: 0 <= i < |s.bytes| <= j < |s.bytes + br| ==> (s.bytes + br)[i].index < (s.bytes + br)[j].index
  {
    var chars, bytes := s.chars + cr, s.bytes + br;
    var n := |s.chars|;
    forall i, j | 0 <= i < j < |chars|
      ensures chars[i].index <= chars[j].index && bytes[i].index <= bytes[j].index
      ensures i < n <= j ==> chars[i].index < chars[j].index && bytes[i].index < bytes[j].index
    {
      if j < n {
        assert chars[i] == s.chars[i] && bytes[i] == s.bytes[i];
        assert chars[j] == s.chars[j] && bytes[j] == s.bytes[j];
      } else if i < n {
        assert chars[i] == s.chars[i] && bytes[i] == s.bytes[i];
        assert chars[j] == cr[j - n] && bytes[j] == br[j - n];
      } else {
        assert chars[i] == cr[i - n] && bytes[i] == br[i - n];
        assert chars[j] == cr[j - n] && bytes[j] == br[j - n];
      }
    }
  }

  /**
   `text_search` keeps the session invariant: equal list lengths, indices inside
   the stream searched so far, sorted lists, and byte records never earlier or
   shorter than the character records beside them.
   */
  lemma TextSearchKeepsValid(s: Session, e: Engine)
    requires Valid(s) && EngineOk(e)
    ensures Valid(TextSearch(s, e).session)
  {
    var base := Ready(s);
    if e.Opened? {
      var u, ms := e.utext, e.matches;
      var cr, br := CharRecords(base.prefix, ms), ByteRecords(base.bPrefix, u, ms);
      var hi, bHi := base.prefix + |u|, base.bPrefix + CountU8Bytes(u);
      assert ChunkRecords(cr, br, base.prefix, hi, base.bPrefix, bHi) by {
        AppendedRecordsInChunk(base.prefix, base.bPrefix, u, ms);
      }
      AppendChunkKeepsValid(base, cr, br, hi, bHi);
      assert TextSearch(s, e).session == Session(true, hi, bHi, base.chars + cr, base.bytes + br);
    }
  }

  /**
   The records a search appends come strictly after every record of earlier
   chunks, in both coordinates, because both prefixes had already moved past each
   earlier chunk in full.
   */
  lemma TextSearchAppendsLater(s: Session, e: Engine)
    requires Valid(s) && EngineOk(e) && e.Opened?
    ensures forall i, j :: 0 <= i < |s.chars| <= j < |TextSearch(s, e).session.chars| ==>
      TextSearch(s, e).session.chars[i].index < TextSearch(s, e).session.chars[j].index
    ensures forall i, j :: 0 <= i < |s.bytes| <= j < |TextSearch(s, e).session.bytes| ==>
      TextSearch(s, e).session.bytes[i].index < TextSearch(s, e).session.bytes[j].index
  {
    var base := Ready(s);
    assert Valid(base) && base.live && base.chars == s.chars && base.bytes == s.bytes;
    var u, ms := e.utext, e.matches;
    var cr, br := CharRecords(base.prefix, ms), ByteRecords(base.bPrefix, u, ms);
    var hi, bHi := base.prefix + |u|, base.bPrefix + CountU8Bytes(u);
    assert TextSearch(s, e).session.chars == s.chars + cr;
    assert TextSearch(s, e).session.bytes == s.bytes + br;
    assert ChunkRecords(cr, br, base.prefix, hi, base.bPrefix, bHi) by {
      AppendedRecordsInChunk(base.prefix, base.bPrefix, u, ms);
    }
    AppendKeepsOrder(base, cr, br, hi, bHi);
  }

  /** `text_search` on an uninitialised session behaves as on a freshly initialised one. */
  lemma SearchInitialisesFirst(s: Session, e: Engine)
    requires !s.live && EngineOk(e)
    ensures TextSearch(s, e) == TextSearch(Init(), e)
  {
  }

  /**
   A search that stopped on an engine error keeps the records of the matches found
   before the error and still moves both prefixes past the chunk.
   */
  lemma EngineErrorKeepsRecords(s: Session, utext: seq<Unit>, ms: seq<Match>)
    requires EngineOk(Opened(utext, ms, true))
    ensures TextSearch(s, Opened(utext, ms, true)) == TextSearch(s, Opened(utext, ms, false))
  {
  }

  /** Feeding chunks one after another to `text_search`, as the reading loop does. */
  function SearchChunks(s: Session, es: seq<Engine>): Session
    requires forall i :: 0 <= i < |es| ==> EngineOk(es[i])
    decreases |es|
  {
    if |es| == 0 then s else SearchChunks(TextSearch(s, es[0]).session, es[1..])
  }

  /** UTF-16 units, UTF-8 bytes and matches one call contributes: none unless the search was opened. */
  function ChunkUnits(e: Engine): nat {
    if e.Opened? then |e.utext| else 0
  }

  function ChunkBytes(e: Engine): nat
    requires EngineOk(e)
  {
    if e.Opened? then CountU8Bytes(e.utext) else 0
  }

  function ChunkMatches(e: Engine): nat {
    if e.Opened? then |e.matches| else 0
  }

  function UnitsSearched(es: seq<Engine>): nat {
    if |es| == 0 then 0 else ChunkUnits(es[0]) + UnitsSearched(es[1..])
  }

  function BytesSearched(es: seq<Engine>): nat
    requires forall i :: 0 <= i < |es| ==> EngineOk(es[i])
  {
    if |es| == 0 then 0
    else
      assert EngineOk(es[0]);
      ChunkBytes(es[0]) + BytesSearched(es[1..])
  }

  function MatchesReported(es: seq<Engine>): nat {
    if |es| == 0 then 0 else ChunkMatches(es[0]) + MatchesReported(es[1..])
  }

  /**
   One call moves the prefixes by the chunk's units and bytes whether or not there
   were matches, appends one record per match to each list and leaves the earlier
   records as they were.
   */
  lemma TextSearchTotals(s: Session, e: Engine)
    requires Valid(s) && EngineOk(e)
    ensures TextSearch(s, e).session.prefix == s.prefix + ChunkUnits(e)
    ensures TextSearch(s, e).session.bPrefix == s.bPrefix + ChunkBytes(e)
    ensures |TextSearch(s, e).session.chars| == |s.chars| + ChunkMatches(e)
    ensures |TextSearch(s, e).session.bytes| == |s.bytes| + ChunkMatches(e)
    ensures TextSearch(s, e).session.chars[..|s.chars|] == s.chars
    ensures TextSearch(s, e).session.bytes[..|s.bytes|] == s.bytes
  {
    assert Ready(s).chars == s.chars && Ready(s).bytes == s.bytes;
    assert Ready(s).prefix == s.prefix && Ready(s).bPrefix == s.bPrefix;
    var t := TextSearch(s, e).session;
    if e.Opened? {
      assert t.chars[..|s.chars|] == s.chars;
      assert t.bytes[..|s.bytes|] == s.bytes;
    }
  }

  /** Any run of chunks keeps the session invariant. */
  lemma {:induction false} SearchChunksKeepsValid(s: Session, es: seq<Engine>)
    requires Valid(s) && forall i :: 0 <= i < |es| ==> EngineOk(es[i])
    ensures Valid(SearchChunks(s, es))
    decreases |es|
  {
    if |es| > 0 {
      TextSearchKeepsValid(s, es[0]);
      SearchChunksKeepsValid(TextSearch(s, es[0]).session, es[1..]);
    }
  }

  /**
   After any run of chunks the prefixes have moved by exactly the units and bytes of
   the chunks searched, however many matches each had, and one record per match
   has been added to each list.
   */
  lemma {:induction false} SearchChunksTotals(s: Session, es: seq<Engine>)
    requires Valid(s) && forall i :: 0 <= i < |es| ==> EngineOk(es[i])
    ensures SearchChunks(s, es).prefix == s.prefix + UnitsSearched(es)
    ensures SearchChunks(s, es).bPrefix == s.bPrefix + BytesSearched(es)
    ensures |SearchChunks(s, es).chars| == |SearchChunks(s, es).bytes| == |s.chars| + MatchesReported(es)
    decreases |es|
  {
    if |es| > 0 {
      TextSearchKeepsValid(s, es[0]);
      TextSearchTotals(s, es[0]);
      SearchChunksTotals(TextSearch(s, es[0]).session, es[1..]);
    }
  }

  /** Searching further chunks never changes the records already reported. */
  lemma {:induction false} SearchChunksKeepsEarlier(s: Session, es: seq<Engine>)
    requires Valid(s) && forall i :: 0 <= i < |es| ==> EngineOk(es[i])
    ensures s.chars <= SearchChunks(s, es).chars && s.bytes <= SearchChunks(s, es).bytes
    decreases |es|
  {
    if |es| > 0 {
      var t := TextSearch(s, es[0]).session;
      assert Valid(t) && s.chars <= t.chars && s.bytes <= t.bytes by {
        TextSearchKeepsValid(s, es[0]);
        TextSearchTotals(s, es[0]);
      }
      var r := SearchChunks(t, es[1..]);
      assert t.chars <= r.chars && t.bytes <= r.bytes by {
        SearchChunksKeepsEarlier(t, es[1..]);
      }
      PrefixTransitive(s.chars, t.chars, r.chars);
      PrefixTransitive(s.bytes, t.bytes, r.bytes);
    }
  }

  lemma PrefixTransitive<T>(a: seq<T>, b: seq<T>, c: seq<T>)
    requires a <= b && b <= c
    ensures a <= c
  {
    assert a == b[..|a|] && b == c[..|b|];
    assert c[..|b|][..|a|] == c[..|a|];
  }

  /**
   `clear_result` as written. It starts by reading `matchResult->next`, so it needs
   an initialised session: on any other it dereferences a null pointer.
   */
  predicate ClearResultDefined(s: Session) {
    s.live
  }

  function ClearResult(s: Session): (r: Session)
    requires ClearResultDefined(s)
    ensures Valid(r) && !r.live && r.prefix == 0 && r.bPrefix == 0
    ensures forall e :: EngineOk(e) ==> TextSearch(r, e) == TextSearch(Init(), e)
  {
    Uninitialised
  }

  /** The state `clear_result` leaves is one that a second `clear_result` faults on. */
  lemma ClearResultTwiceFaults(s: Session)
    requires ClearResultDefined(s)
    ensures !ClearResultDefined(ClearResult(s))
  {
  }

  /**
   Clearing with the null check `clear_result` lacks: defined on every session, it
   agrees with `clear_result` where that one is defined, and a search after it
   behaves like the first search of a fresh session.
   */
  function Clear(s: Session): (r: Session)
    ensures Valid(r) && !r.live && r.prefix == 0 && r.bPrefix == 0
    ensures forall e :: EngineOk(e) ==> TextSearch(r, e) == TextSearch(Init(), e)
    ensures ClearResultDefined(s) ==> r == ClearResult(s)
  {
    Uninitialised
  }

  /** Clearing twice is the same as clearing once. */
  lemma ClearIdempotent(s: Session)
    ensures Clear(Clear(s)) == Clear(s)
  {
  }
}
