/**
 * The fixed-width header of a HITRAN cross-section record and the wavenumber grid
 * it describes. A header is one 100-byte line cut into twelve consecutive columns;
 * every column is trimmed, a blank broadener column means self-broadening, and seven
 * columns are numbers.
 */
module Header {
  import opened Wrappers
  import opened Errors
  import opened Numerics
  import opened Text

  /** Column widths, left to right: molecule name, minimum and maximum wavenumber, number of
      points, temperature, pressure, maximum cross-section, instrument resolution, common name,
      an unused column, broadener and reference. */
  const FieldWidths: seq<nat> := [20, 10, 10, 7, 7, 6, 10, 5, 15, 4, 3, 3]
  /** The header's length in bytes; LayoutCoversHeader shows the columns tile it exactly. */
  const HeaderLength: nat := 100
  const SelfBroadened: string := "self"
  /** The dictionary keys the twelve columns are stored under, in column order. */
  const FieldNames: seq<string> := [
    "molecule_name", "min_wavenumber", "max_wavenumber", "number_of_points", "temperature", "pressure",
    "max_cross_section_value", "instrument_resolution", "common_name", "empty", "broadener", "reference"]

  datatype Header = Header(
    moleculeName: string,
    minWavenumber: real,
    maxWavenumber: real,
    numberOfPoints: int,
    temperature: real,
    pressure: real,
    maxCrossSection: real,
    instrumentResolution: real,
    commonName: string,
    empty: string,
    broadener: string,
    reference: string)

  function Sum(ws: seq<nat>): nat {
    if ws == [] then 0 else ws[0] + Sum(ws[1..])
  }

  /** The twelve columns tile exactly 100 bytes. */
  lemma LayoutCoversHeader()
    ensures |FieldWidths| == 12 && Sum(FieldWidths) == HeaderLength
  {
    FieldOffsets();
    assert FieldWidths[..12] == FieldWidths;
  }

  lemma {:induction false} SumOfPrefix(ws: seq<nat>, k: nat)
    requires k < |ws|
    ensures Sum(ws[..k + 1]) == Sum(ws[..k]) + ws[k]
    ensures Sum(ws[..k + 1]) <= Sum(ws)
  {
    if k > 0 {
      assert ws[..k + 1][1..] == ws[1..][..k];
      assert ws[..k][1..] == ws[1..][..k - 1];
      SumOfPrefix(ws[1..], k - 1);
    } else {
      assert ws[..1] == [ws[0]];
      assert ws[..1][1..] == [];
    }
  }

  /** The start of column k: the widths of the columns before it added up. */
  lemma FieldOffsets()
    ensures Sum(FieldWidths[..0]) == 0 && Sum(FieldWidths[..1]) == 20
    ensures Sum(FieldWidths[..2]) == 30 && Sum(FieldWidths[..3]) == 40
    ensures Sum(FieldWidths[..4]) == 47 && Sum(FieldWidths[..5]) == 54
    ensures Sum(FieldWidths[..6]) == 60 && Sum(FieldWidths[..7]) == 70
    ensures Sum(FieldWidths[..8]) == 75 && Sum(FieldWidths[..9]) == 90
    ensures Sum(FieldWidths[..10]) == 94 && Sum(FieldWidths[..11]) == 97
    ensures Sum(FieldWidths[..12]) == 100
  {
    SumOfPrefix(FieldWidths, 0);
    SumOfPrefix(FieldWidths, 1);
    SumOfPrefix(FieldWidths, 2);
    SumOfPrefix(FieldWidths, 3);
    SumOfPrefix(FieldWidths, 4);
    SumOfPrefix(FieldWidths, 5);
    SumOfPrefix(FieldWidths, 6);
    SumOfPrefix(FieldWidths, 7);
    SumOfPrefix(FieldWidths, 8);
    SumOfPrefix(FieldWidths, 9);
    SumOfPrefix(FieldWidths, 10);
    SumOfPrefix(FieldWidths, 11);
  }

  /** Lay the field texts out left-justified in columns of the given widths. */
  function EncodeFields(fields: seq<string>, ws: seq<nat>): (line: string)
    requires |fields| == |ws|
    requires forall k :: 0 <= k < |ws| ==> |fields[k]| <= ws[k]
    ensures |line| == Sum(ws)
    ensures (forall k :: 0 <= k < |fields| ==> IsAscii(fields[k])) ==> IsAscii(line)
  {
    if ws == [] then []
    else
      var head := PadRight(fields[0], ws[0]);
      var tail := EncodeFields(fields[1..], ws[1..]);
      assert IsAscii(fields[0]) ==> IsAscii(head) by {
        if IsAscii(fields[0]) {
          forall i | 0 <= i < |head| ensures head[i] < '\U{80}' {
            if i < |fields[0]| {
              assert head[..|fields[0]|][i] == head[i];
            } else {
              assert head[|fields[0]|..][i - |fields[0]|] == head[i];
            }
          }
        }
      }
      assert (forall k :: 0 <= k < |fields| ==> IsAscii(fields[k])) ==> IsAscii(tail) by {
        if forall k :: 0 <= k < |fields| ==> IsAscii(fields[k]) {
          assert forall k :: 0 <= k < |fields| - 1 ==> fields[1..][k] == fields[k + 1];
        }
      }
      head + tail
  }

  /** Column k of an encoded line, between offsets Sum(ws[..k]) and Sum(ws[..k+1]), is field k padded. */
  lemma {:induction false} EncodeFieldsAt(fields: seq<string>, ws: seq<nat>, k: nat)
    requires |fields| == |ws| && k < |ws|
    requires forall j :: 0 <= j < |ws| ==> |fields[j]| <= ws[j]
    ensures Sum(ws[..k]) <= Sum(ws[..k + 1]) <= Sum(ws)
    ensures EncodeFields(fields, ws)[Sum(ws[..k])..Sum(ws[..k + 1])] == PadRight(fields[k], ws[k])
    decreases k
  {
    SumOfPrefix(ws, k);
    var line := EncodeFields(fields, ws);
    var head := PadRight(fields[0], ws[0]);
    var rest := EncodeFields(fields[1..], ws[1..]);
    assert line == head + rest;
    if k == 0 {
      assert ws[..1] == [ws[0]];
      assert ws[..1][1..] == [];
      assert line[Sum(ws[..0])..Sum(ws[..1])] == head;
    } else {
      EncodeFieldsAt(fields[1..], ws[1..], k - 1);
      var a', b' := Sum(ws[1..][..k - 1]), Sum(ws[1..][..k]);
      var a, b := Sum(ws[..k]), Sum(ws[..k + 1]);
      assert ws[..k + 1][1..] == ws[1..][..k];
      assert ws[..k][1..] == ws[1..][..k - 1];
      assert a == ws[0] + a' && b == ws[0] + b';
      SliceOfSuffix(head, rest, a, b);
    }
  }

  /** A slice lying past the first part of a concatenation is a slice of the second part. */
  lemma SliceOfSuffix(h: string, r: string, a: nat, b: nat)
    requires |h| <= a <= b <= |h| + |r|
    ensures (h + r)[a..b] == r[a - |h|..b - |h|]
  {
    var s := h + r;
    assert forall i :: 0 <= i < b - a ==> s[a..b][i] == s[a + i] == r[a - |h| + i];
  }

  /** Column k of a header line, trimmed: the bytes from Sum(FieldWidths[..k]) up to the next column. */
  function Column(line: string, k: nat): (c: string)
    requires |line| == HeaderLength && k < 12
    ensures IsTrimmed(c)
  {
    LayoutCoversHeader();
    SumOfPrefix(FieldWidths, k);
    Strip(line[Sum(FieldWidths[..k])..Sum(FieldWidths[..k + 1])])
  }

  /**
   * The twelve columns of a header line, each trimmed: the struct format
   * 20s10s10s7s7s6s10s5s15s4s3s3s followed by strip() on every column.
   */
  function Columns(line: string): (cols: seq<string>)
    requires |line| == HeaderLength
    ensures |cols| == 12
    ensures forall k :: 0 <= k < 12 ==> IsTrimmed(cols[k])
  {
    seq(12, k requires 0 <= k < 12 => Column(line, k))
  }

  /** The columns at their byte offsets 0, 20, 30, 40, 47, 54, 60, 70, 75, 90, 94, 97 and 100. */
  lemma ColumnOffsets(line: string)
    requires |line| == HeaderLength
    ensures Column(line, 0) == Strip(line[0..20]) && Column(line, 1) == Strip(line[20..30])
    ensures Column(line, 2) == Strip(line[30..40]) && Column(line, 3) == Strip(line[40..47])
    ensures Column(line, 4) == Strip(line[47..54]) && Column(line, 5) == Strip(line[54..60])
    ensures Column(line, 6) == Strip(line[60..70]) && Column(line, 7) == Strip(line[70..75])
    ensures Column(line, 8) == Strip(line[75..90]) && Column(line, 9) == Strip(line[90..94])
    ensures Column(line, 10) == Strip(line[94..97]) && Column(line, 11) == Strip(line[97..100])
  {
    FieldOffsets();
  }

  /** Each column of an encoded line is the field laid out in it. */
  lemma ColumnOfEncoded(fields: seq<string>, k: nat)
    requires |fields| == 12 && k < 12
    requires forall j :: 0 <= j < 12 ==> |fields[j]| <= FieldWidths[j] && IsTrimmed(fields[j])
    ensures |EncodeFields(fields, FieldWidths)| == HeaderLength
    ensures Column(EncodeFields(fields, FieldWidths), k) == fields[k]
  {
    LayoutCoversHeader();
    var line := EncodeFields(fields, FieldWidths);
    EncodeFieldsAt(fields, FieldWidths, k);
    var a, b := Sum(FieldWidths[..k]), Sum(FieldWidths[..k + 1]);
    assert Column(line, k) == Strip(line[a..b]);
    StripPadRight(fields[k], FieldWidths[k]);
  }

  /** The broadener column: blank means the molecule broadens itself. */
  function Broadener(field: string): (b: string)
    ensures b != []
    ensures field != [] ==> b == field
  {
    if field == [] then SelfBroadened else field
  }

  /** The seven numeric columns of a sliced header all convert. */
  predicate NumbersParse(f: seq<string>, num: NumericOps)
    requires |f| == 12
  {
    && num.toFloat(f[1]).Some? && num.toFloat(f[2]).Some? && num.toInt(f[3]).Some?
    && num.toFloat(f[4]).Some? && num.toFloat(f[5]).Some? && num.toFloat(f[6]).Some?
    && num.toFloat(f[7]).Some?
  }

  /**
   * Build the header from the twelve trimmed columns: the numeric columns are converted in
   * column order and the first that does not convert is reported; a blank broadener
   * becomes "self".
   */
  function HeaderFromFields(f: seq<string>, num: NumericOps): (r: Result<Header, Error>)
    requires |f| == 12
  {
    if num.toFloat(f[1]).None? then Failure(NumberFormat("min_wavenumber"))
    else if num.toFloat(f[2]).None? then Failure(NumberFormat("max_wavenumber"))
    else if num.toInt(f[3]).None? then Failure(NumberFormat("number_of_points"))
    else if num.toFloat(f[4]).None? then Failure(NumberFormat("temperature"))
    else if num.toFloat(f[5]).None? then Failure(NumberFormat("pressure"))
    else if num.toFloat(f[6]).None? then Failure(NumberFormat("max_cross_section_value"))
    else if num.toFloat(f[7]).None? then Failure(NumberFormat("instrument_resolution"))
    else
      Success(Header(
        f[0], num.toFloat(f[1]).value, num.toFloat(f[2]).value, num.toInt(f[3]).value,
        num.toFloat(f[4]).value, num.toFloat(f[5]).value, num.toFloat(f[6]).value,
        num.toFloat(f[7]).value, f[8], f[9], Broadener(f[10]), f[11]))
  }

  /** Numeric column k (1 to 7) converts: number_of_points with int(), the others with float(). */
  predicate Converts(f: seq<string>, num: NumericOps, k: nat)
    requires |f| == 12 && 1 <= k <= 7
  {
    if k == 3 then num.toInt(f[k]).Some? else num.toFloat(f[k]).Some?
  }

  /**
   * A header that cannot be built blames the first numeric column, in column order, that does
   * not convert, by that column's field name.
   */
  lemma HeaderFromFieldsBlames(f: seq<string>, num: NumericOps) returns (k: nat)
    requires |f| == 12 && HeaderFromFields(f, num).Failure?
    ensures 1 <= k <= 7 && !Converts(f, num, k)
    ensures forall j :: 1 <= j < k ==> Converts(f, num, j)
    ensures HeaderFromFields(f, num).error == NumberFormat(FieldNames[k])
  {
    k := if !Converts(f, num, 1) then 1
      else if !Converts(f, num, 2) then 2
      else if !Converts(f, num, 3) then 3
      else if !Converts(f, num, 4) then 4
      else if !Converts(f, num, 5) then 5
      else if !Converts(f, num, 6) then 6
      else 7;
  }

  /**
   * Decode one header line: struct.unpack of the line's bytes into the twelve columns,
   * which fails unless the line is exactly 100 bytes (the model admits ASCII lines only),
   * then the trimmed columns made into a header.
   */
  function DecodeHeader(line: string, num: NumericOps): (r: Result<Header, Error>)
    ensures r.Success? ==> |line| == HeaderLength
  {
    if |line| != HeaderLength || !IsAscii(line) then Failure(StructError)
    else HeaderFromFields(Columns(line), num)
  }

  /** A line decodes exactly when it is 100 ASCII bytes whose numeric columns all convert. */
  lemma DecodeHeaderSucceeds(line: string, num: NumericOps)
    ensures DecodeHeader(line, num).Success? <==>
              |line| == HeaderLength && IsAscii(line) && NumbersParse(Columns(line), num)
  {
  }

  /** Any other length, or a byte outside ASCII, is the struct error. */
  lemma DecodeHeaderStructError(line: string, num: NumericOps)
    requires |line| != HeaderLength || !IsAscii(line)
    ensures DecodeHeader(line, num) == Failure(StructError)
  {
  }

  /** The decoded text fields are trimmed, and the broadener is never empty. */
  lemma DecodedTextIsTrimmed(line: string, num: NumericOps)
    requires DecodeHeader(line, num).Success?
    ensures var h := DecodeHeader(line, num).value;
      && IsTrimmed(h.moleculeName) && IsTrimmed(h.commonName)
      && IsTrimmed(h.empty) && IsTrimmed(h.reference)
      && IsTrimmed(h.broadener) && h.broadener != []
  {
    DecodedFromColumns(line, num);
    var f := Columns(line);
    HeaderFromFieldsValues(f, num);
    assert IsTrimmed(f[0]) && IsTrimmed(f[8]) && IsTrimmed(f[9]) && IsTrimmed(f[10]) && IsTrimmed(f[11]);
    assert IsTrimmed(SelfBroadened);
  }

  /** A decoded header is built from the line's columns: one step of the decoder, stated apart for its users. */
  lemma DecodedFromColumns(line: string, num: NumericOps)
    requires DecodeHeader(line, num).Success?
    ensures |line| == HeaderLength && DecodeHeader(line, num) == HeaderFromFields(Columns(line), num)
  {
  }

  /** The header built from columns holds the text columns as they are and the numbers they convert to. */
  lemma HeaderFromFieldsValues(f: seq<string>, num: NumericOps)
    requires |f| == 12 && HeaderFromFields(f, num).Success?
    ensures var h := HeaderFromFields(f, num).value;
      && h.moleculeName == f[0] && num.toFloat(f[1]) == Some(h.minWavenumber)
      && num.toFloat(f[2]) == Some(h.maxWavenumber) && num.toInt(f[3]) == Some(h.numberOfPoints)
      && num.toFloat(f[4]) == Some(h.temperature) && num.toFloat(f[5]) == Some(h.pressure)
      && num.toFloat(f[6]) == Some(h.maxCrossSection) && num.toFloat(f[7]) == Some(h.instrumentResolution)
      && h.commonName == f[8] && h.empty == f[9] && h.broadener == Broadener(f[10]) && h.reference == f[11]
  {
  }

  /** Every decoded field is its fixed column of the line with the surrounding spaces trimmed. */
  lemma DecodedFieldsAreTrimmedColumns(line: string, num: NumericOps)
    requires DecodeHeader(line, num).Success?
    ensures |line| == HeaderLength
    ensures var h := DecodeHeader(line, num).value;
      && h.moleculeName == Strip(line[0..20])
      && num.toFloat(Strip(line[20..30])) == Some(h.minWavenumber)
      && num.toFloat(Strip(line[30..40])) == Some(h.maxWavenumber)
      && num.toInt(Strip(line[40..47])) == Some(h.numberOfPoints)
      && num.toFloat(Strip(line[47..54])) == Some(h.temperature)
      && num.toFloat(Strip(line[54..60])) == Some(h.pressure)
      && num.toFloat(Strip(line[60..70])) == Some(h.maxCrossSection)
      && num.toFloat(Strip(line[70..75])) == Some(h.instrumentResolution)
      && h.commonName == Strip(line[75..90])
      && h.empty == Strip(line[90..94])
      && h.broadener == Broadener(Strip(line[94..97]))
      && h.reference == Strip(line[97..100])
  {
    DecodedFromColumns(line, num);
    var f := Columns(line);
    HeaderFromFieldsValues(f, num);
    ColumnOffsets(line);
    assert f[0] == Column(line, 0) && f[1] == Column(line, 1) && f[2] == Column(line, 2);
    assert f[3] == Column(line, 3) && f[4] == Column(line, 4) && f[5] == Column(line, 5);
    assert f[6] == Column(line, 6) && f[7] == Column(line, 7) && f[8] == Column(line, 8);
    assert f[9] == Column(line, 9) && f[10] == Column(line, 10) && f[11] == Column(line, 11);
  }

  /**
   * The broadener is "self" exactly when its three-byte column is blank; otherwise it is
   * the trimmed column unchanged ("self" is four bytes, so no column can spell it).
   */
  lemma BroadenerDefault(line: string, num: NumericOps)
    requires DecodeHeader(line, num).Success?
    ensures DecodeHeader(line, num).value.broadener == SelfBroadened <==> AllSpace(line[94..97])
    ensures !AllSpace(line[94..97]) ==> DecodeHeader(line, num).value.broadener == Strip(line[94..97])
  {
    DecodedFieldsAreTrimmedColumns(line, num);
    var col := line[94..97];
    StripEmpty(col);
    assert |Strip(col)| <= 3;
  }

  /** The columns of a line laid out from trimmed field texts that fit them are those texts. */
  lemma ColumnsEncodeRoundTrip(fields: seq<string>)
    requires |fields| == 12
    requires forall k :: 0 <= k < 12 ==> |fields[k]| <= FieldWidths[k] && IsTrimmed(fields[k])
    ensures |EncodeFields(fields, FieldWidths)| == HeaderLength
    ensures Columns(EncodeFields(fields, FieldWidths)) == fields
  {
    LayoutCoversHeader();
    var cols := Columns(EncodeFields(fields, FieldWidths));
    forall k | 0 <= k < 12 ensures cols[k] == fields[k] {
      ColumnOfEncoded(fields, k);
    }
  }

  /**
   * Decoding a header laid out from trimmed ASCII field texts that fit their columns gives
   * those texts back, with the numeric ones converted.
   */
  lemma DecodeEncodeRoundTrip(fields: seq<string>, num: NumericOps)
    requires |fields| == 12
    requires forall k :: 0 <= k < 12 ==> |fields[k]| <= FieldWidths[k] && IsTrimmed(fields[k]) && IsAscii(fields[k])
    requires NumbersParse(fields, num)
    ensures DecodeHeader(EncodeFields(fields, FieldWidths), num) == Success(Header(
              fields[0], num.toFloat(fields[1]).value, num.toFloat(fields[2]).value,
              num.toInt(fields[3]).value, num.toFloat(fields[4]).value, num.toFloat(fields[5]).value,
              num.toFloat(fields[6]).value, num.toFloat(fields[7]).value,
              fields[8], fields[9], Broadener(fields[10]), fields[11]))
  {
    var line := EncodeFields(fields, FieldWidths);
    ColumnsEncodeRoundTrip(fields);
    assert IsAscii(line);
    DecodeValidLine(line, num);
    HeaderFromParsedFields(fields, num);
  }

  /**
   * A line of 100 ASCII characters is decoded from its columns. This and the next lemma state
   * one step of the decoder each, so that the round trip above unfolds the decoder only here.
   */
  lemma DecodeValidLine(line: string, num: NumericOps)
    requires |line| == HeaderLength && IsAscii(line)
    ensures DecodeHeader(line, num) == HeaderFromFields(Columns(line), num)
  {
  }

  /** Columns whose numeric fields all convert make the header of those fields: the success step of HeaderFromFields, stated apart. */
  lemma HeaderFromParsedFields(f: seq<string>, num: NumericOps)
    requires |f| == 12 && NumbersParse(f, num)
    ensures HeaderFromFields(f, num) == Success(Header(
              f[0], num.toFloat(f[1]).value, num.toFloat(f[2]).value,
              num.toInt(f[3]).value, num.toFloat(f[4]).value, num.toFloat(f[5]).value,
              num.toFloat(f[6]).value, num.toFloat(f[7]).value,
              f[8], f[9], Broadener(f[10]), f[11]))
  {
  }

  /** The stride (max - min) / (n - 1); it divides by zero when n is 1. */
  function GridStep(h: Header): real
    requires h.numberOfPoints != 1
  {
    (h.maxWavenumber - h.minWavenumber) / ((h.numberOfPoints - 1) as real)
  }

  /** With two or more points, n - 1 steps lead from the minimum to the maximum wavenumber. */
  lemma GridStepSpansRange(h: Header)
    requires h.numberOfPoints >= 2
    ensures h.minWavenumber + (h.numberOfPoints - 1) as real * GridStep(h) == h.maxWavenumber
  {
  }

  /**
   * The wavenumber grid of a record: np.arange(min, max + step, step), accepted only when it
   * has exactly number_of_points entries.
   */
  function BuildGrid(h: Header, num: NumericOps): (r: Result<seq<real>, Error>)
    ensures r.Success? ==> |r.value| == h.numberOfPoints
    ensures r.Success? ==>
              h.numberOfPoints != 1
              && num.arange(h.minWavenumber, h.maxWavenumber + GridStep(h), GridStep(h)) == Some(r.value)
    ensures h.numberOfPoints == 1 ==> r == Failure(ZeroDivision)
    ensures r.Failure? && r.error.GridSizeMismatch? ==> r.error.size != r.error.expected
  {
    if h.numberOfPoints == 1 then Failure(ZeroDivision)
    else
      var step := GridStep(h);
      match num.arange(h.minWavenumber, h.maxWavenumber + step, step)
      case None => Failure(ArangeFailure)
      case Some(grid) =>
        if |grid| != h.numberOfPoints then Failure(GridSizeMismatch(|grid|, h.numberOfPoints))
        else Success(grid)
  }

  /** The guard is exact: an arange result of the declared size is accepted, any other size is not. */
  lemma BuildGridAcceptsExactCount(h: Header, num: NumericOps)
    requires h.numberOfPoints != 1
    requires num.arange(h.minWavenumber, h.maxWavenumber + GridStep(h), GridStep(h)).Some?
    ensures var grid := num.arange(h.minWavenumber, h.maxWavenumber + GridStep(h), GridStep(h)).value;
      BuildGrid(h, num) == if |grid| == h.numberOfPoints then Success(grid)
                           else Failure(GridSizeMismatch(|grid|, h.numberOfPoints))
  {
  }
}
