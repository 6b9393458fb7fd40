/**
 * The record reader of a cross-section file: a header line, then whitespace-separated
 * values over as many lines as it takes to hold number_of_points of them, repeated until
 * a read at header position finds the input exhausted.
 *
 * The input is the file as the sequence of lines readline() returns, each with its line
 * terminator; a read past the last line returns "".
 */
module Reader {
  import opened Wrappers
  import opened Errors
  import opened Numerics
  import opened Text
  import opened Header

  /** One record: its header, its wavenumber grid and its cross-section values. */
  datatype CrossSection = CrossSection(header: Header, grid: seq<real>, values: seq<real>)

  /** Grid and values both hold exactly number_of_points entries. */
  predicate WellFormed(x: CrossSection) {
    |x.grid| == x.header.numberOfPoints && |x.values| == x.header.numberOfPoints
  }

  /** readline() at file position pos. */
  function ReadLine(lines: seq<string>, pos: nat): (line: string)
    ensures pos >= |lines| ==> line == []
  {
    if pos < |lines| then lines[pos] else []
  }

  /** The file position after one readline(): it stays put at the end of the input. */
  function Advance(lines: seq<string>, pos: nat): (next: nat)
    requires pos <= |lines|
    ensures next <= |lines|
    ensures next == pos <==> pos == |lines|
  {
    if pos < |lines| then pos + 1 else pos
  }

  /** [float(f) for f in tokens]: every token converted, or nothing if one does not convert. */
  function ParseTokens(tokens: seq<string>, num: NumericOps): (r: Option<seq<real>>)
    ensures r.Some? ==> |r.value| == |tokens|
  {
    if tokens == [] then Some([])
    else
      match num.toFloat(tokens[0])
      case None => None
      case Some(x) =>
        match ParseTokens(tokens[1..], num)
        case None => None
        case Some(xs) => Some([x] + xs)
  }

  /** The conversion succeeds exactly when every token converts, and keeps the tokens' order. */
  lemma {:induction false} ParseTokensConverts(tokens: seq<string>, num: NumericOps)
    ensures ParseTokens(tokens, num).Some? <==> forall k :: 0 <= k < |tokens| ==> num.toFloat(tokens[k]).Some?
    ensures ParseTokens(tokens, num).Some? ==>
              forall k :: 0 <= k < |tokens| ==> num.toFloat(tokens[k]) == Some(ParseTokens(tokens, num).value[k])
  {
    if tokens != [] {
      ParseTokensConverts(tokens[1..], num);
      assert forall k :: 0 < k < |tokens| ==> tokens[1..][k - 1] == tokens[k];
    }
  }

  /** The values readline() at position i contributes. */
  function LineValues(lines: seq<string>, i: nat, num: NumericOps): Option<seq<real>> {
    ParseTokens(Split(ReadLine(lines, i)), num)
  }

  /** The values of lines i up to j, line by line, as the payload loop would convert them. */
  function ValuesOf(lines: seq<string>, i: nat, j: nat, num: NumericOps): Option<seq<real>>
    decreases j - i
  {
    if j <= i then Some([])
    else
      match LineValues(lines, i, num)
      case None => None
      case Some(v) =>
        match ValuesOf(lines, i + 1, j, num)
        case None => None
        case Some(w) => Some(v + w)
  }

  /**
   * The payload loop from file position pos with acc already held: read a line, convert and
   * append its tokens, and stop as soon as at least n values are held, keeping the first n.
   * Result: the values and the file position after the last line read.
   */
  function ReadPayload(lines: seq<string>, pos: nat, n: nat, acc: seq<real>, num: NumericOps)
    : (r: Result<(seq<real>, nat), Error>)
    requires pos <= |lines|
    ensures r.Success? ==> |r.value.0| == n && pos <= r.value.1 <= |lines|
    ensures r.Success? && pos < |lines| ==> pos < r.value.1
    ensures r.Failure? ==> r.error == PayloadNumberFormat || r.error == IncompleteRecord
    decreases |lines| - pos
  {
    match LineValues(lines, pos, num)
    case None => Failure(PayloadNumberFormat)
    case Some(vs) =>
      var held := acc + vs;
      if |held| >= n then Success((held[..n], Advance(lines, pos)))
      else if pos == |lines| then Failure(IncompleteRecord)
      else ReadPayload(lines, pos + 1, n, held, num)
  }

  /**
   * What the payload loop keeps: the lines from pos up to the returned position all convert,
   * at least n values were held, and the values kept are the first n of them.
   */
  lemma {:induction false} ReadPayloadKeepsFirstN(lines: seq<string>, pos: nat, n: nat, acc: seq<real>, num: NumericOps)
    requires pos <= |lines|
    requires ReadPayload(lines, pos, n, acc, num).Success?
    ensures var next := ReadPayload(lines, pos, n, acc, num).value.1;
      && ValuesOf(lines, pos, next, num).Some?
      && n <= |acc + ValuesOf(lines, pos, next, num).value|
      && ReadPayload(lines, pos, n, acc, num).value.0 == (acc + ValuesOf(lines, pos, next, num).value)[..n]
    decreases |lines| - pos
  {
    var held := acc + LineValues(lines, pos, num).value;
    if |held| >= n {
      LastPayloadLine(lines, pos, n, acc, num);
    } else {
      assert ReadPayload(lines, pos, n, acc, num) == ReadPayload(lines, pos + 1, n, held, num);
      ReadPayloadKeepsFirstN(lines, pos + 1, n, held, num);
      ValuesOfStep(lines, pos, ReadPayload(lines, pos, n, acc, num).value.1, acc, num);
    }
  }

  /** The line that completes the record is the only one read. */
  lemma LastPayloadLine(lines: seq<string>, pos: nat, n: nat, acc: seq<real>, num: NumericOps)
    requires pos <= |lines|
    requires LineValues(lines, pos, num).Some? && |acc + LineValues(lines, pos, num).value| >= n
    ensures var next := ReadPayload(lines, pos, n, acc, num).value.1;
      && ValuesOf(lines, pos, next, num) == LineValues(lines, pos, num)
      && ReadPayload(lines, pos, n, acc, num).value.0 == (acc + LineValues(lines, pos, num).value)[..n]
  {
    var vs := LineValues(lines, pos, num).value;
    if pos < |lines| {
      assert ValuesOf(lines, pos + 1, pos + 1, num) == Some([]);
      assert vs + [] == vs;
    } else {
      assert vs == [];
    }
  }

  /** Prepending the first line's values to the values of the lines after it. */
  lemma ValuesOfStep(lines: seq<string>, pos: nat, next: nat, acc: seq<real>, num: NumericOps)
    requires pos < next
    requires LineValues(lines, pos, num).Some? && ValuesOf(lines, pos + 1, next, num).Some?
    ensures ValuesOf(lines, pos, next, num) == Some(LineValues(lines, pos, num).value + ValuesOf(lines, pos + 1, next, num).value)
    ensures acc + LineValues(lines, pos, num).value + ValuesOf(lines, pos + 1, next, num).value
         == acc + ValuesOf(lines, pos, next, num).value
  {
  }

  /**
   * The payload loop stops at the first line that brings the count to n: the lines before
   * the last one read held fewer than n values.
   */
  lemma {:induction false} ReadPayloadStopsAtFirstSufficientLine(lines: seq<string>, pos: nat, n: nat, acc: seq<real>, num: NumericOps)
    requires pos <= |lines|
    requires ReadPayload(lines, pos, n, acc, num).Success?
    requires pos + 1 < ReadPayload(lines, pos, n, acc, num).value.1
    ensures var last := ReadPayload(lines, pos, n, acc, num).value.1 - 1;
      ValuesOf(lines, pos, last, num).Some? && |acc + ValuesOf(lines, pos, last, num).value| < n
    decreases |lines| - pos
  {
    var held := ReadPayloadContinues(lines, pos, n, acc, num);
    var next := ReadPayload(lines, pos, n, acc, num).value.1;
    if pos + 2 < next {
      ReadPayloadStopsAtFirstSufficientLine(lines, pos + 1, n, held, num);
      ValuesOfStep(lines, pos, next - 1, acc, num);
    } else {
      ValuesOfOneLine(lines, pos, num);
    }
  }

  /** A read that ends past the line after pos went on from pos with fewer than n values held. */
  lemma ReadPayloadContinues(lines: seq<string>, pos: nat, n: nat, acc: seq<real>, num: NumericOps)
    returns (held: seq<real>)
    requires pos <= |lines|
    requires ReadPayload(lines, pos, n, acc, num).Success?
    requires pos + 1 < ReadPayload(lines, pos, n, acc, num).value.1
    ensures pos < |lines| && LineValues(lines, pos, num).Some?
    ensures held == acc + LineValues(lines, pos, num).value && |held| < n
    ensures ReadPayload(lines, pos, n, acc, num) == ReadPayload(lines, pos + 1, n, held, num)
  {
    held := acc + LineValues(lines, pos, num).value;
  }

  /** The values of the single line pos. */
  lemma ValuesOfOneLine(lines: seq<string>, pos: nat, num: NumericOps)
    ensures ValuesOf(lines, pos, pos + 1, num) == LineValues(lines, pos, num)
  {
    assert ValuesOf(lines, pos + 1, pos + 1, num) == Some([]);
    if LineValues(lines, pos, num).Some? {
      assert LineValues(lines, pos, num).value + [] == LineValues(lines, pos, num).value;
    }
  }

  /**
   * A payload line holding its tokens with whitespace around and between them (a newline
   * at the end, right-justified columns) gives the first n converted tokens; the tokens past
   * n on that line are discarded.
   */
  lemma OnePayloadLine(lines: seq<string>, pos: nat, tokens: seq<string>, gaps: seq<string>, n: nat, num: NumericOps)
    requires pos < |lines| && |gaps| == |tokens| + 1 && lines[pos] == Spaced(tokens, gaps)
    requires forall k :: 0 <= k < |tokens| ==> tokens[k] != [] && NoSpace(tokens[k])
    requires forall k :: 0 <= k < |gaps| ==> AllSpace(gaps[k])
    requires forall k :: 0 < k < |tokens| ==> gaps[k] != []
    requires forall k :: 0 <= k < |tokens| ==> num.toFloat(tokens[k]).Some?
    requires n <= |tokens|
    ensures ParseTokens(tokens, num).Some?
    ensures ReadPayload(lines, pos, n, [], num) == Success((ParseTokens(tokens, num).value[..n], pos + 1))
  {
    SplitSpaced(tokens, gaps);
    ParseTokensConverts(tokens, num);
    OneLineRead(lines, pos, n, ParseTokens(tokens, num).value, num);
  }

  /** A first line that already holds n values ends the payload after that line. */
  lemma OneLineRead(lines: seq<string>, pos: nat, n: nat, vs: seq<real>, num: NumericOps)
    requires pos < |lines| && LineValues(lines, pos, num) == Some(vs) && n <= |vs|
    ensures ReadPayload(lines, pos, n, [], num) == Success((vs[..n], pos + 1))
  {
    assert [] + vs == vs;
  }

  /**
   * One pass of the outer loop from the non-empty header line at pos: decode the first 100
   * characters, build the grid, read the payload. Result: the record and the file position
   * after it.
   */
  function ReadRecord(lines: seq<string>, pos: nat, num: NumericOps): (r: Result<(CrossSection, nat), Error>)
    requires pos < |lines|
    ensures r.Success? ==> WellFormed(r.value.0) && pos < r.value.1 <= |lines|
  {
    var h :- DecodeHeader(Prefix(lines[pos], HeaderLength), num);
    var grid :- BuildGrid(h, num);
    var payload :- ReadPayload(lines, pos + 1, |grid|, [], num);
    Success((CrossSection(h, grid, payload.0), payload.1))
  }

  /**
   * The whole reader from file position pos: the records read, in file order, and the error
   * that stopped it, or None when a read at header position found the input exhausted.
   */
  function ReadPairs(lines: seq<string>, pos: nat, num: NumericOps): (r: (seq<CrossSection>, Option<Error>))
    requires pos <= |lines|
    ensures forall k :: 0 <= k < |r.0| ==> WellFormed(r.0[k])
    ensures |r.0| <= |lines| - pos
    decreases |lines| - pos
  {
    if ReadLine(lines, pos) == [] then ([], None)
    else if ReadRecord(lines, pos, num).Failure? then ([], Some(ReadRecord(lines, pos, num).error))
    else
      var rest := ReadPairs(lines, ReadRecord(lines, pos, num).value.1, num);
      ([ReadRecord(lines, pos, num).value.0] + rest.0, rest.1)
  }

  /** The record's header, grid, values and end position, as the three steps of reading it produce them. */
  lemma RecordPayload(lines: seq<string>, pos: nat, num: NumericOps)
    requires pos < |lines| && ReadRecord(lines, pos, num).Success?
    ensures var x, next := ReadRecord(lines, pos, num).value.0, ReadRecord(lines, pos, num).value.1;
      && DecodeHeader(Prefix(lines[pos], HeaderLength), num) == Success(x.header)
      && BuildGrid(x.header, num) == Success(x.grid)
      && ReadPayload(lines, pos + 1, |x.grid|, [], num) == Success((x.values, next))
  {
  }

  /**
   * The values of a record are the first number_of_points values of the payload lines after
   * its header, and the payload lines before the last one read held fewer than that.
   */
  lemma RecordValues(lines: seq<string>, pos: nat, num: NumericOps)
    requires pos < |lines| && ReadRecord(lines, pos, num).Success?
    ensures var x, next := ReadRecord(lines, pos, num).value.0, ReadRecord(lines, pos, num).value.1;
      && ValuesOf(lines, pos + 1, next, num).Some?
      && |x.grid| <= |ValuesOf(lines, pos + 1, next, num).value|
      && x.values == ValuesOf(lines, pos + 1, next, num).value[..|x.grid|]
  {
    RecordPayload(lines, pos, num);
    var x, next := ReadRecord(lines, pos, num).value.0, ReadRecord(lines, pos, num).value.1;
    ReadPayloadKeepsFirstN(lines, pos + 1, |x.grid|, [], num);
    var vs := ValuesOf(lines, pos + 1, next, num).value;
    assert [] + vs == vs;
  }

  /** The header positions of the records ReadPairs reads, in the order it reads them. */
  function HeaderPositions(lines: seq<string>, pos: nat, num: NumericOps): (ps: seq<nat>)
    requires pos <= |lines|
    ensures forall k :: 0 <= k < |ps| ==>
              pos <= ps[k] < |lines| && lines[ps[k]] != [] && ReadRecord(lines, ps[k], num).Success?
    decreases |lines| - pos
  {
    if ReadLine(lines, pos) == [] || ReadRecord(lines, pos, num).Failure? then []
    else [pos] + HeaderPositions(lines, ReadRecord(lines, pos, num).value.1, num)
  }

  /** Where reading stops: the position after the last record read. */
  function EndPosition(lines: seq<string>, pos: nat, num: NumericOps): (end: nat)
    requires pos <= |lines|
    ensures pos <= end <= |lines|
    decreases |lines| - pos
  {
    if ReadLine(lines, pos) == [] || ReadRecord(lines, pos, num).Failure? then pos
    else EndPosition(lines, ReadRecord(lines, pos, num).value.1, num)
  }

  /** One record per header line, in file order: record k is the one read at the k-th header position. */
  lemma RecordsAtHeaderPositions(lines: seq<string>, pos: nat, num: NumericOps)
    requires pos <= |lines|
    ensures var rs, ps := ReadPairs(lines, pos, num).0, HeaderPositions(lines, pos, num);
      && |ps| == |rs|
      && forall k :: 0 <= k < |ps| ==> ReadRecord(lines, ps[k], num).value.0 == rs[k]
  {
    var ps := HeaderPositions(lines, pos, num);
    PairsAreRecordsAt(lines, pos, num);
    forall k | 0 <= k < |ps|
      ensures ReadRecord(lines, ps[k], num).value.0 == ReadPairs(lines, pos, num).0[k]
    {
      RecordsAtIndex(lines, ps, num, k);
    }
  }

  /** The records read at the given header positions, in their order. */
  function RecordsAt(lines: seq<string>, ps: seq<nat>, num: NumericOps): (rs: seq<CrossSection>)
    requires forall k :: 0 <= k < |ps| ==> ps[k] < |lines| && ReadRecord(lines, ps[k], num).Success?
    ensures |rs| == |ps|
  {
    if ps == [] then [] else [ReadRecord(lines, ps[0], num).value.0] + RecordsAt(lines, ps[1..], num)
  }

  lemma {:induction false} RecordsAtIndex(lines: seq<string>, ps: seq<nat>, num: NumericOps, k: nat)
    requires forall k :: 0 <= k < |ps| ==> ps[k] < |lines| && ReadRecord(lines, ps[k], num).Success?
    requires k < |ps|
    ensures RecordsAt(lines, ps, num)[k] == ReadRecord(lines, ps[k], num).value.0
  {
    if k > 0 {
      RecordsAtIndex(lines, ps[1..], num, k - 1);
    }
  }

  /** ReadPairs returns exactly the records read at the header positions. */
  lemma {:induction false} PairsAreRecordsAt(lines: seq<string>, pos: nat, num: NumericOps)
    requires pos <= |lines|
    ensures ReadPairs(lines, pos, num).0 == RecordsAt(lines, HeaderPositions(lines, pos, num), num)
    decreases |lines| - pos
  {
    if ReadLine(lines, pos) != [] && ReadRecord(lines, pos, num).Success? {
      var next := ReadRecord(lines, pos, num).value.1;
      PairsAreRecordsAt(lines, next, num);
      RecordsCons(lines, pos, num);
      var ps := HeaderPositions(lines, pos, num);
      assert ps[1..] == HeaderPositions(lines, next, num);
    }
  }

  /**
   * Reading from a header line: its record and position come first, then those read after it.
   * This and the lemmas below that unfold the reader by one record each keep that unfolding out
   * of the inductive proofs, where the decoder's case splits would make them expensive.
   */
  lemma RecordsCons(lines: seq<string>, pos: nat, num: NumericOps)
    requires pos < |lines| && lines[pos] != [] && ReadRecord(lines, pos, num).Success?
    ensures var next := ReadRecord(lines, pos, num).value.1;
      && HeaderPositions(lines, pos, num) == [pos] + HeaderPositions(lines, next, num)
      && ReadPairs(lines, pos, num).0 == [ReadRecord(lines, pos, num).value.0] + ReadPairs(lines, next, num).0
  {
  }

  /** Each record starts where the one before it ended. */
  lemma {:induction false} HeaderPositionsChain(lines: seq<string>, pos: nat, num: NumericOps)
    requires pos <= |lines|
    ensures var ps := HeaderPositions(lines, pos, num);
      && (|ps| > 0 ==> ps[0] == pos)
      && forall k :: 0 < k < |ps| ==> ReadRecord(lines, ps[k - 1], num).value.1 == ps[k]
    decreases |lines| - pos
  {
    if ReadLine(lines, pos) != [] && ReadRecord(lines, pos, num).Success? {
      var next := ReadRecord(lines, pos, num).value.1;
      HeaderPositionsChain(lines, next, num);
      RecordsCons(lines, pos, num);
    }
  }

  /** The last record ends where reading stops. */
  lemma {:induction false} LastRecordEndsReading(lines: seq<string>, pos: nat, num: NumericOps)
    requires pos <= |lines|
    ensures var ps := HeaderPositions(lines, pos, num);
      |ps| > 0 ==> ReadRecord(lines, ps[|ps| - 1], num).value.1 == EndPosition(lines, pos, num)
    decreases |lines| - pos
  {
    if ReadLine(lines, pos) != [] && ReadRecord(lines, pos, num).Success? {
      LastRecordEndsReading(lines, ReadRecord(lines, pos, num).value.1, num);
      LastRecordStep(lines, pos, num);
    }
  }

  /** One record more in front: the last record and the stopping position stay what they were. */
  lemma LastRecordStep(lines: seq<string>, pos: nat, num: NumericOps)
    requires pos < |lines| && lines[pos] != [] && ReadRecord(lines, pos, num).Success?
    requires var next := ReadRecord(lines, pos, num).value.1;
      var ps' := HeaderPositions(lines, next, num);
      |ps'| > 0 ==> ReadRecord(lines, ps'[|ps'| - 1], num).value.1 == EndPosition(lines, next, num)
    ensures var ps := HeaderPositions(lines, pos, num);
      |ps| > 0 ==> ReadRecord(lines, ps[|ps| - 1], num).value.1 == EndPosition(lines, pos, num)
  {
    if HeaderPositions(lines, ReadRecord(lines, pos, num).value.1, num) == [] {
      OnlyRecord(lines, pos, num);
    } else {
      LaterRecords(lines, pos, num);
    }
  }

  /** The record at pos is the last one: reading stops right after it. */
  lemma OnlyRecord(lines: seq<string>, pos: nat, num: NumericOps)
    requires pos < |lines| && lines[pos] != [] && ReadRecord(lines, pos, num).Success?
    requires HeaderPositions(lines, ReadRecord(lines, pos, num).value.1, num) == []
    ensures HeaderPositions(lines, pos, num) == [pos]
    ensures EndPosition(lines, pos, num) == ReadRecord(lines, pos, num).value.1
  {
    NoRecordNoMove(lines, ReadRecord(lines, pos, num).value.1, num);
  }

  /** More records follow the one at pos: the last header and the stopping position are theirs. */
  lemma LaterRecords(lines: seq<string>, pos: nat, num: NumericOps)
    requires pos < |lines| && lines[pos] != [] && ReadRecord(lines, pos, num).Success?
    requires HeaderPositions(lines, ReadRecord(lines, pos, num).value.1, num) != []
    ensures var ps, ps' := HeaderPositions(lines, pos, num), HeaderPositions(lines, ReadRecord(lines, pos, num).value.1, num);
      |ps| > 0 && ps[|ps| - 1] == ps'[|ps'| - 1]
    ensures EndPosition(lines, pos, num) == EndPosition(lines, ReadRecord(lines, pos, num).value.1, num)
  {
    RecordsCons(lines, pos, num);
    EndAfterRecord(lines, pos, num);
  }

  /** Past a record that reads, reading goes on from where that record ended. */
  lemma EndAfterRecord(lines: seq<string>, pos: nat, num: NumericOps)
    requires pos < |lines| && lines[pos] != [] && ReadRecord(lines, pos, num).Success?
    ensures EndPosition(lines, pos, num) == EndPosition(lines, ReadRecord(lines, pos, num).value.1, num)
  {
  }

  /** Where no record is read, reading stops on the spot. */
  lemma NoRecordNoMove(lines: seq<string>, pos: nat, num: NumericOps)
    requires pos <= |lines| && HeaderPositions(lines, pos, num) == []
    ensures EndPosition(lines, pos, num) == pos
  {
  }

  /** Reading stops cleanly exactly when the read at header position where it stops finds nothing. */
  lemma {:induction false} CleanEndIsEmptyRead(lines: seq<string>, pos: nat, num: NumericOps)
    requires pos <= |lines|
    ensures ReadPairs(lines, pos, num).1 == None <==> ReadLine(lines, EndPosition(lines, pos, num)) == []
    decreases |lines| - pos
  {
    if ReadLine(lines, pos) != [] && ReadRecord(lines, pos, num).Success? {
      CleanEndIsEmptyRead(lines, ReadRecord(lines, pos, num).value.1, num);
    }
  }

  /**
   * read_cross_section_pair, consumed to the end: the two-state loop over the lines, with a
   * list of values grown line by line and a running count of the values read.
   */
  method ReadCrossSectionPairs(lines: seq<string>, num: NumericOps)
    returns (records: seq<CrossSection>, failure: Option<Error>)
    ensures (records, failure) == ReadPairs(lines, 0, num)
  {
    records, failure := [], None;
    var pos := 0;
    assert [] + ReadPairs(lines, 0, num).0 == ReadPairs(lines, 0, num).0;
    while true
      invariant pos <= |lines|
      invariant ReadPairs(lines, 0, num) == (records + ReadPairs(lines, pos, num).0, ReadPairs(lines, pos, num).1)
      decreases |lines| - pos
    {
      // awaiting a header
      var headerData := ReadLine(lines, pos);
      if headerData == [] {
        assert records + [] == records;
        return;
      }
      ghost var headerPos := pos;
      pos := pos + 1;
      var decoded := DecodeHeader(Prefix(headerData, HeaderLength), num);
      if decoded.Failure? {
        failure := Some(decoded.error);
        assert records + [] == records;
        return;
      }
      var header := decoded.value;
      var built := BuildGrid(header, num);
      if built.Failure? {
        failure := Some(built.error);
        assert records + [] == records;
        return;
      }
      var grid := built.value;

      // awaiting the payload
      var payload := ReadPayloadLines(lines, pos, |grid|, num);
      if payload.Failure? {
        failure := Some(payload.error);
        assert records + [] == records;
        return;
      }
      var crossSections := payload.value.0;
      pos := payload.value.1;
      var record := CrossSection(header, grid, crossSections);
      assert ReadRecord(lines, headerPos, num) == Success((record, pos));
      ghost var rest := ReadPairs(lines, pos, num);
      assert ReadPairs(lines, headerPos, num) == ([record] + rest.0, rest.1);
      assert records + ([record] + rest.0) == (records + [record]) + rest.0;
      records := records + [record];
    }
  }

  /**
   * The inner loop of read_cross_section_pair, from the line after a header: grow the list of
   * values and the running count line by line until at least n values are held, then keep
   * the first n. Result: the values and the file position after the last line read.
   */
  method ReadPayloadLines(lines: seq<string>, start: nat, n: nat, num: NumericOps)
    returns (r: Result<(seq<real>, nat), Error>)
    requires start <= |lines|
    ensures r == ReadPayload(lines, start, n, [], num)
  {
    var pos := start;
    var totalPointsRead := 0;
    var crossSections: seq<real> := [];
    while true
      invariant start <= pos <= |lines|
      invariant totalPointsRead == |crossSections|
      invariant ReadPayload(lines, start, n, [], num) == ReadPayload(lines, pos, n, crossSections, num)
      decreases |lines| - pos
    {
      var dataPoints := Split(ReadLine(lines, pos));
      var parsed := ParseTokens(dataPoints, num);
      assert parsed == LineValues(lines, pos, num);
      if parsed.None? {
        assert ReadPayload(lines, pos, n, crossSections, num) == Failure(PayloadNumberFormat);
        return Failure(PayloadNumberFormat);
      }
      ghost var held := crossSections;
      crossSections := crossSections + parsed.value;
      totalPointsRead := totalPointsRead + |dataPoints|;
      assert totalPointsRead == |crossSections|;
      if totalPointsRead >= n {
        assert ReadPayload(lines, pos, n, held, num) == Success((crossSections[..n], Advance(lines, pos)));
        return Success((crossSections[..n], Advance(lines, pos)));
      }
      if pos == |lines| {
        // the source reads "" here forever; the model reports the record as incomplete
        assert ReadPayload(lines, pos, n, held, num) == Failure(IncompleteRecord);
        return Failure(IncompleteRecord);
      }
      assert ReadPayload(lines, pos, n, held, num) == ReadPayload(lines, pos + 1, n, crossSections, num);
      pos := pos + 1;
    }
  }

  /**
   * The model reports a record as incomplete exactly when every remaining line converts and
   * all the values left in the input, read up to and including the first empty read at its
   * end, still fall short of n.
   */
  lemma {:induction false} IncompleteOnlyAtEndOfInput(lines: seq<string>, pos: nat, n: nat, acc: seq<real>, num: NumericOps)
    requires pos <= |lines|
    ensures ReadPayload(lines, pos, n, acc, num) == Failure(IncompleteRecord)
        <==> ValuesOf(lines, pos, |lines| + 1, num).Some? && |acc + ValuesOf(lines, pos, |lines| + 1, num).value| < n
    decreases |lines| - pos
  {
    var rest := ValuesOf(lines, pos, |lines| + 1, num);
    var line := LineValues(lines, pos, num);
    if line.Some? {
      var held := acc + line.value;
      var tail := ValuesOf(lines, pos + 1, |lines| + 1, num);
      if tail.Some? {
        ValuesOfStep(lines, pos, |lines| + 1, acc, num);
      }
      if pos < |lines| {
        IncompleteOnlyAtEndOfInput(lines, pos + 1, n, held, num);
      } else {
        assert tail == Some([]);
        assert held + [] == held;
      }
    }
  }

  /**
   * The source's payload loop as written, counting only: the number of values held after k
   * more readline() calls from position pos, with no test for the end of the input.
   */
  function CountAfterReads(lines: seq<string>, pos: nat, count: nat, k: nat): (c: nat)
    requires pos <= |lines|
    ensures count <= c
    decreases k
  {
    if k == 0 then count
    else CountAfterReads(lines, Advance(lines, pos), count + |Split(ReadLine(lines, pos))|, k - 1)
  }

  /**
   * At the end of the input every read returns "", which adds no value, so a record still
   * short of n values stays short however many more reads the loop makes: it never exits.
   */
  lemma {:induction false} PayloadStallsAtEndOfInput(lines: seq<string>, count: nat, n: nat, k: nat)
    requires count < n
    ensures CountAfterReads(lines, |lines|, count, k) == count < n
  {
    if k > 0 {
      assert ReadLine(lines, |lines|) == [] && Split([]) == [];
      PayloadStallsAtEndOfInput(lines, count, n, k - 1);
    }
  }
}
