/**
 The match accumulator of `text_search` (sandbox/utf8text_search.c) and the session
 it updates: `init`, `text_search` and `clear_result` over the globals `prefix`,
 `b_prefix`, `matchResult` and `matchResultAsByte`, made into one immutable value.

 The ICU calls are not modelled; their results come in as an `Engine` value: the
 UTF-16 text `u_strFromUTF8` produced and the matches the collation search
 reported, or the failure that stopped the call before the search loop.
 */
module Accumulator {
  import opened Utf16
  import opened ByteCount

  /** One node of a result list, without its link: a 1-based index and a length. */
  datatype Record = Record(index: int, length: int)

  /**
   The search session. `live` is `matchResult != NULL`; `chars` and `bytes` are the
   two lists after their sentinel heads, in UTF-16 units and in UTF-8 bytes.
   */
  datatype Session = Session(live: bool, prefix: int, bPrefix: int, chars: seq<Record>, bytes: seq<Record>)

  /** One match of the collation search, in UTF-16 units: `usearch_first`/`usearch_next` and `usearch_getMatchedLength`. */
  datatype Match = Match(position: int, length: int)

  /** What the foreign calls of one `text_search` call produced. */
  datatype Engine =
      /** `u_strFromUTF8` set `errorCode` for the text or the pattern. */
    | ConversionFailed
      /** `usearch_open` set `errorCode`. */
    | OpenFailed
      /**
       The search was opened over `utext`, the converted text, and reported `matches`
       before `usearch_next` returned `USEARCH_DONE` or, if `stoppedOnError`, failed.
       */
    | Opened(utext: seq<Unit>, matches: seq<Match>, stoppedOnError: bool)

  /** The value `text_search` returns and the session it leaves behind. */
  datatype Outcome = Outcome(code: int, session: Session)

  /** What the collation search guarantees of a match: non-empty, in bounds, not splitting a surrogate pair. */
  predicate ValidMatch(utext: seq<Unit>, m: Match) {
    1 <= m.length && IsBoundary(utext, m.position) && IsBoundary(utext, m.position + m.length)
  }

  /** Matches come left to right. */
  predicate ValidMatches(utext: seq<Unit>, ms: seq<Match>) {
    && (forall i :: 0 <= i < |ms| ==> ValidMatch(utext, ms[i]))
    && (forall i, j :: 0 <= i < j < |ms| ==> ms[i].position <= ms[j].position)
  }

  predicate EngineOk(e: Engine) {
    e.Opened? ==> WellFormed(e.utext) && ValidMatches(e.utext, e.matches)
  }

  /** The state `clear_result` leaves, which is also the state before the first `init`. */
  const Uninitialised := Session(false, 0, 0, [], [])

  /**
   What a session always satisfies: the lists have equal length; every record, start
   and end, lies in the part of the stream already searched and the indices never
   decrease; a byte record is never shorter, nor placed earlier, than the character
   record beside it.
   */
  predicate Valid(s: Session) {
    && |s.chars| == |s.bytes|
    && (!s.live ==> s == Uninitialised)
    && 0 <= s.prefix <= s.bPrefix
    && (forall i :: 0 <= i < |s.chars| ==>
          1 <= s.chars[i].index <= s.prefix && 1 <= s.chars[i].length
          && s.chars[i].index + s.chars[i].length <= s.prefix + 1)
    && (forall i :: 0 <= i < |s.bytes| ==>
          1 <= s.bytes[i].index <= s.bPrefix && s.bytes[i].index + s.bytes[i].length <= s.bPrefix + 1)
    && (forall i :: 0 <= i < |s.chars| ==>
          s.chars[i].index <= s.bytes[i].index && s.chars[i].length <= s.bytes[i].length)
    && Sorted(s.chars) && Sorted(s.bytes)
  }

  predicate Sorted(rs: seq<Record>) {
    forall i, j :: 0 <= i < j < |rs| ==> rs[i].index <= rs[j].index
  }

  /** `init`: both lists empty, both prefixes zero. */
  function Init(): (s: Session)
    ensures s.live && Valid(s)
    ensures s.chars == [] && s.bytes == [] && s.prefix == 0 && s.bPrefix == 0
  {
    Session(true, 0, 0, [], [])
  }

  /** The session `text_search` works on: an uninitialised one is initialised first. */
  function Ready(s: Session): (r: Session)
    ensures r.live && (Valid(s) ==> Valid(r))
    ensures s.live ==> r == s
    ensures !s.live ==> r.chars == [] && r.bytes == [] && r.prefix == 0 && r.bPrefix == 0
  {
    if s.live then s else Init()
  }

  /** The character record for match `m` of a chunk that starts after `prefix` units. */
  function CharRecord(prefix: int, m: Match): Record {
    Record(prefix + m.position + 1, m.length)
  }

  /**
   The byte record for match `m` of a chunk that starts after `bPrefix` bytes: its
   index counts the UTF-8 bytes of everything before the match, 1-based, and its
   length is the UTF-8 width of the matched units.
   */
  function ByteRecord(bPrefix: int, utext: seq<Unit>, m: Match): Record
    requires WellFormed(utext) && ValidMatch(utext, m)
  {
    Record(bPrefix + SliceWidth(utext, 0, m.position) + 1,
           SliceWidth(utext, m.position, m.position + m.length))
  }

  /**
   A byte record starts no earlier, counted from the chunk's start, than the match
   does in units, is at least as long, and ends within the chunk's bytes.
   */
  lemma ByteRecordWithinChunk(bPrefix: int, utext: seq<Unit>, m: Match)
    requires WellFormed(utext) && ValidMatch(utext, m)
    ensures bPrefix + m.position < ByteRecord(bPrefix, utext, m).index
    ensures m.length <= ByteRecord(bPrefix, utext, m).length
    ensures ByteRecord(bPrefix, utext, m).index + ByteRecord(bPrefix, utext, m).length
              <= bPrefix + CountU8Bytes(utext) + 1
  {
    var p, q := m.position, m.position + m.length;
    var before, matched := SliceWidth(utext, 0, p), SliceWidth(utext, p, q);
    assert before + matched <= CountU8Bytes(utext) by {
      SliceWidthAdditive(utext, 0, p, q);
      SliceWidthAdditive(utext, 0, q, |utext|);
      WholeSliceWidth(utext);
    }
    assert ByteRecord(bPrefix, utext, m) == Record(bPrefix + before + 1, matched);
  }

  function CharRecords(prefix: int, ms: seq<Match>): (rs: seq<Record>) {
    seq(|ms|, i requires 0 <= i < |ms| => CharRecord(prefix, ms[i]))
  }

  function ByteRecords(bPrefix: int, utext: seq<Unit>, ms: seq<Match>): (rs: seq<Record>)
    requires WellFormed(utext) && ValidMatches(utext, ms)
  {
    seq(|ms|, i requires 0 <= i < |ms| => ByteRecord(bPrefix, utext, ms[i]))
  }

  /** The locals of the search loop: `pre_position`, `b_pos`, and the two lists so far. */
  datatype Loop = Loop(prePosition: int, bPos: int, chars: seq<Record>, bytes: seq<Record>)

  /**
   One pass of the search loop for match `m`: append the character record, add the
   width of the units between the previous match's start and this one's to `b_pos`,
   and append the byte record with the matched text's own width.
   */
  function Step(prefix: int, bPrefix: int, utext: seq<Unit>, st: Loop, m: Match): Loop
    requires WellFormed(utext) && ValidMatch(utext, m)
    requires IsBoundary(utext, st.prePosition) && st.prePosition <= m.position
  {
    var bPos := st.bPos + SliceWidth(utext, st.prePosition, m.position);
    var bLength := SliceWidth(utext, m.position, m.position + m.length);
    Loop(m.position, bPos,
         st.chars + [Record(prefix + m.position + 1, m.length)],
         st.bytes + [Record(bPrefix + bPos + 1, bLength)])
  }

  /** The search loop over the matches the collation search reports, in order. */
  function Run(prefix: int, bPrefix: int, utext: seq<Unit>, st: Loop, ms: seq<Match>): Loop
    requires WellFormed(utext) && ValidMatches(utext, ms)
    requires IsBoundary(utext, st.prePosition)
    requires |ms| > 0 ==> st.prePosition <= ms[0].position
    decreases |ms|
  {
    if |ms| == 0 then st
    else
      var next := Step(prefix, bPrefix, utext, st, ms[0]);
      assert |ms| > 1 ==> ms[0].position <= ms[1].position;
      Run(prefix, bPrefix, utext, next, ms[1..])
  }

  /**
   One pass appends the records of its match; when `b_pos` is the width of the
   units before `pre_position`, it becomes the width of the units before the match.
   */
  lemma StepAppendsRecords(prefix: int, bPrefix: int, utext: seq<Unit>, st: Loop, m: Match)
    requires WellFormed(utext) && ValidMatch(utext, m)
    requires IsBoundary(utext, st.prePosition) && st.prePosition <= m.position
    requires st.bPos == SliceWidth(utext, 0, st.prePosition)
    ensures Step(prefix, bPrefix, utext, st, m).prePosition == m.position
    ensures Step(prefix, bPrefix, utext, st, m).bPos == SliceWidth(utext, 0, m.position)
    ensures Step(prefix, bPrefix, utext, st, m).chars == st.chars + [CharRecord(prefix, m)]
    ensures Step(prefix, bPrefix, utext, st, m).bytes == st.bytes + [ByteRecord(bPrefix, utext, m)]
  {
    SliceWidthAdditive(utext, 0, st.prePosition, m.position);
  }

  /** The records of a non-empty run of matches are those of the first, then the rest's. */
  lemma RecordsCons(prefix: int, bPrefix: int, utext: seq<Unit>, ms: seq<Match>)
    requires WellFormed(utext) && ValidMatches(utext, ms) && |ms| > 0
    ensures ValidMatch(utext, ms[0]) && ValidMatches(utext, ms[1..])
    ensures CharRecords(prefix, ms) == [CharRecord(prefix, ms[0])] + CharRecords(prefix, ms[1..])
    ensures ByteRecords(bPrefix, utext, ms) == [ByteRecord(bPrefix, utext, ms[0])] + ByteRecords(bPrefix, utext, ms[1..])
  {
    assert ValidMatch(utext, ms[0]);
  }

  lemma AppendAssociative<T>(a: seq<T>, b: seq<T>, c: seq<T>)
    ensures a + b + c == a + (b + c)
  {
  }

  /**
   The loop appends, to the lists it started with, exactly one character record and
   one byte record per match, in order; when `b_pos` starts as the width of the
   units before `pre_position`, each byte record's index is the width of everything
   before its match, even though the loop only ever measures the slice since the
   previous match.
   */
  lemma {:induction false} RunAppendsRecords(prefix: int, bPrefix: int, utext: seq<Unit>, st: Loop, ms: seq<Match>)
    requires WellFormed(utext) && ValidMatches(utext, ms)
    requires IsBoundary(utext, st.prePosition)
    requires |ms| > 0 ==> st.prePosition <= ms[0].position
    requires st.bPos == SliceWidth(utext, 0, st.prePosition)
    ensures Run(prefix, bPrefix, utext, st, ms).chars == st.chars + CharRecords(prefix, ms)
    ensures Run(prefix, bPrefix, utext, st, ms).bytes == st.bytes + ByteRecords(bPrefix, utext, ms)
    decreases |ms|
  {
    if |ms| == 0 {
      assert CharRecords(prefix, ms) == [] && ByteRecords(bPrefix, utext, ms) == [];
    } else {
      var m, rest := ms[0], ms[1..];
      var chars, bytes := CharRecords(prefix, rest), ByteRecords(bPrefix, utext, rest);
      assert ValidMatch(utext, m) && ValidMatches(utext, rest)
          && CharRecords(prefix, ms) == [CharRecord(prefix, m)] + chars
          && ByteRecords(bPrefix, utext, ms) == [ByteRecord(bPrefix, utext, m)] + bytes by {
        RecordsCons(prefix, bPrefix, utext, ms);
      }
      var next := Step(prefix, bPrefix, utext, st, m);
      assert next.prePosition == m.position && next.bPos == SliceWidth(utext, 0, m.position)
          && next.chars == st.chars + [CharRecord(prefix, m)]
          && next.bytes == st.bytes + [ByteRecord(bPrefix, utext, m)] by {
        StepAppendsRecords(prefix, bPrefix, utext, st, m);
      }
      assert |rest| > 0 ==> next.prePosition <= rest[0].position by {
        assert |ms| > 1 ==> ms[0].position <= ms[1].position;
      }
      var done := Run(prefix, bPrefix, utext, next, rest);
      assert done.chars == next.chars + chars && done.bytes == next.bytes + bytes by {
        RunAppendsRecords(prefix, bPrefix, utext, next, rest);
      }
      assert Run(prefix, bPrefix, utext, st, ms) == done;
      AppendAssociative(st.chars, [CharRecord(prefix, m)], chars);
      AppendAssociative(st.bytes, [ByteRecord(bPrefix, utext, m)], bytes);
    }
  }

  /**
   The search loop as `text_search` enters it, with `pre_position` and `b_pos` both
   0, appending to lists that already hold `chars` and `bytes`: it leaves one
   record of each kind per match after them, at the match's index in the stream.
   */
  function SearchLoop(prefix: int, bPrefix: int, utext: seq<Unit>, ms: seq<Match>,
                      chars: seq<Record>, bytes: seq<Record>): (done: Loop)
    requires WellFormed(utext) && ValidMatches(utext, ms)
    ensures done.chars == chars + CharRecords(prefix, ms)
    ensures done.bytes == bytes + ByteRecords(bPrefix, utext, ms)
  {
    var start := Loop(0, 0, chars, bytes);
    RunAppendsRecords(prefix, bPrefix, utext, start, ms);
    Run(prefix, bPrefix, utext, start, ms)
  }

  /**
   `text_search` with the ICU calls abstracted. It initialises an uninitialised
   session first. If conversion or `usearch_open` failed it returns -1 and changes
   nothing else. Otherwise it returns 0, appends one character record and one byte
   record per match, each at the index that match has in the whole stream, 1-based,
   and moves both prefixes past the chunk, whether the search ended cleanly or on
   an engine error.
   */
  function TextSearch(s: Session, e: Engine): (r: Outcome)
    requires EngineOk(e)
    ensures r.session.live
    ensures !e.Opened? ==> r.code == -1 && r.session == Ready(s)
    ensures e.Opened? ==>
      && r.code == 0
      && r.session.prefix == Ready(s).prefix + |e.utext|
      && r.session.bPrefix == Ready(s).bPrefix + CountU8Bytes(e.utext)
      && r.session.chars == Ready(s).chars + CharRecords(Ready(s).prefix, e.matches)
      && r.session.bytes == Ready(s).bytes + ByteRecords(Ready(s).bPrefix, e.utext, e.matches)
  {
    var base := Ready(s);
    match e
    case ConversionFailed => Outcome(-1, base)
    case OpenFailed => Outcome(-1, base)
    case Opened(utext, ms, _) =>
      var done := SearchLoop(base.prefix, base.bPrefix, utext, ms, base.chars, base.bytes);
      Outcome(0, Session(true, base.prefix + |utext|, base.bPrefix + CountU8Bytes(utext), done.chars, done.bytes))
  }
}
