/**
 * The table HitranCrossSection builds from the records of its files: the records in
 * file order, stably sorted by (pressure, temperature); the sorted distinct pressures and
 * temperatures as axes; one wavenumber grid for all records (the shared grid, or the merged
 * grid with every record reinterpolated onto it); and the pressure x temperature x wavenumber
 * cube, with pressures converted from Torr to Pa.
 */
module Assembly {
  import opened Wrappers
  import opened Errors
  import opened Numerics
  import opened Text
  import opened Header
  import opened Reader
  import opened Ordering
  import opened Interpolation

  /** Pascal per Torr. */
  const TorrToPascal: real := 133.322368

  /** The assembled opacity table. */
  datatype Table = Table(
    moleculeName: string,
    pressures: seq<real>,          // Pa
    temperatures: seq<real>,
    wngrid: seq<real>,
    cube: seq<seq<seq<real>>>,     // cube[i][j] is the spectrum at pressures[i], temperatures[j]
    resolution: Option<real>)      // None where np.average would average an empty list

  /** The sort key: pressure first, temperature second. */
  function Key(x: CrossSection): (real, real) {
    (x.header.pressure, x.header.temperature)
  }

  // ---------------------------------------------------------------------------------------
  // Flattening the per-file record lists

  /** The lists one after another, each in its own order: the records of all files, or all grid points. */
  function Flatten<T>(ss: seq<seq<T>>): (flat: seq<T>) {
    if ss == [] then [] else ss[0] + Flatten(ss[1..])
  }

  /** An element of the flat list is exactly an element of one of the lists. */
  lemma {:induction false} FlattenMembers<T>(ss: seq<seq<T>>)
    ensures forall y :: y in Flatten(ss) <==> exists k :: 0 <= k < |ss| && y in ss[k]
    decreases |ss|
  {
    if ss != [] {
      FlattenMembers(ss[1..]);
      forall y ensures y in Flatten(ss) <==> exists k :: 0 <= k < |ss| && y in ss[k] {
        if y in Flatten(ss[1..]) {
          var k :| 0 <= k < |ss[1..]| && y in ss[1..][k];
          assert y in ss[k + 1];
        }
        if exists k :: 0 <= k < |ss| && y in ss[k] {
          var k :| 0 <= k < |ss| && y in ss[k];
          if k > 0 { assert y in ss[1..][k - 1]; }
        }
      }
    }
  }

  /** Record r of file f sits in the flat list right after the records of the files before f. */
  lemma {:induction false} FlattenAt(dataset: seq<seq<CrossSection>>, f: nat, r: nat)
    requires f < |dataset| && r < |dataset[f]|
    ensures |Flatten(dataset[..f])| + r < |Flatten(dataset)|
    ensures Flatten(dataset)[|Flatten(dataset[..f])| + r] == dataset[f][r]
    decreases f
  {
    if f == 0 {
      assert dataset[..0] == [];
    } else {
      FlattenAt(dataset[1..], f - 1, r);
      assert dataset[1..][f - 1] == dataset[f];
      assert dataset[..f][0] == dataset[0];
      assert dataset[..f][1..] == dataset[1..][..f - 1];
    }
  }

  // ---------------------------------------------------------------------------------------
  // Axes

  function PressureOf(x: CrossSection): real { x.header.pressure }

  function TemperatureOf(x: CrossSection): real { x.header.temperature }

  /** One number per record, in record order (temperatures[sorted_indices] and the like). */
  function Field(rs: seq<CrossSection>, f: CrossSection -> real): (vs: seq<real>)
    ensures |vs| == |rs| && forall k :: 0 <= k < |rs| ==> vs[k] == f(rs[k])
  {
    seq(|rs|, k requires 0 <= k < |rs| => f(rs[k]))
  }

  function Pressures(rs: seq<CrossSection>): seq<real> {
    Field(rs, PressureOf)
  }

  function Temperatures(rs: seq<CrossSection>): seq<real> {
    Field(rs, TemperatureOf)
  }

  /** A field of the records takes the same values on any reordering of them. */
  lemma SameFieldValues(rs: seq<CrossSection>, ss: seq<CrossSection>, f: CrossSection -> real)
    requires multiset(rs) == multiset(ss)
    ensures forall y :: y in Field(rs, f) <==> y in Field(ss, f)
  {
    var a, b := Field(rs, f), Field(ss, f);
    forall y | y in a ensures y in b {
      var k :| 0 <= k < |a| && a[k] == y;
      assert rs[k] in multiset(ss);
      var m :| 0 <= m < |ss| && ss[m] == rs[k];
      assert b[m] == y;
    }
    forall y | y in b ensures y in a {
      var m :| 0 <= m < |b| && b[m] == y;
      assert ss[m] in multiset(rs);
      var k :| 0 <= k < |rs| && rs[k] == ss[m];
      assert a[k] == y;
    }
  }

  /**
   * np.unique of the sorted pressures (temperatures) is np.unique of the pressures
   * (temperatures) in file order: the axes do not depend on the sort.
   */
  lemma AxesIgnoreOrder(rs: seq<CrossSection>)
    ensures Unique(Pressures(SortByKey(rs, Key))) == Unique(Pressures(rs))
    ensures Unique(Temperatures(SortByKey(rs, Key))) == Unique(Temperatures(rs))
  {
    var ss := SortByKey(rs, Key);
    SortByKeyPermutes(rs, Key);
    SameFieldValues(ss, rs, PressureOf);
    UniqueCharacterised(Pressures(rs), Unique(Pressures(ss)));
    SameFieldValues(ss, rs, TemperatureOf);
    UniqueCharacterised(Temperatures(rs), Unique(Temperatures(ss)));
  }

  /** Every record's pressure and temperature is on the axes. */
  lemma RecordOnAxes(rs: seq<CrossSection>, k: nat)
    requires k < |rs|
    ensures rs[k].header.pressure in Unique(Pressures(rs))
    ensures rs[k].header.temperature in Unique(Temperatures(rs))
  {
    assert Pressures(rs)[k] == rs[k].header.pressure;
    assert Temperatures(rs)[k] == rs[k].header.temperature;
  }

  // ---------------------------------------------------------------------------------------
  // One wavenumber grid for all records

  function Grids(rs: seq<CrossSection>): (gs: seq<seq<real>>)
    ensures |gs| == |rs| && forall k :: 0 <= k < |rs| ==> gs[k] == rs[k].grid
  {
    seq(|rs|, k requires 0 <= k < |rs| => rs[k].grid)
  }

  /** np.isclose(a, b) holds everywhere; grids of different lengths are not close. */
  predicate AllClose(a: seq<real>, b: seq<real>, num: NumericOps) {
    |a| == |b| && forall i :: 0 <= i < |a| ==> num.close(a[i], b[i])
  }

  /** np.all(np.isclose(grids[0], grids)): every grid is close to the first one. */
  predicate GridsAgree(rs: seq<CrossSection>, num: NumericOps)
    requires rs != []
  {
    forall k :: 0 <= k < |rs| ==> AllClose(rs[0].grid, rs[k].grid, num)
  }

  /** Agreeing grids all have as many points as the first one. */
  lemma AgreeingGridsHaveOneLength(rs: seq<CrossSection>, num: NumericOps)
    requires rs != [] && GridsAgree(rs, num)
    ensures forall k :: 0 <= k < |rs| ==> |rs[k].grid| == |rs[0].grid|
  {
    forall k | 0 <= k < |rs|
      ensures |rs[k].grid| == |rs[0].grid|
    {
      assert AllClose(rs[0].grid, rs[k].grid, num);
    }
  }

  /** np.unique of all grid points together: the union of the grids, increasing, each point once. */
  function MergedGrid(rs: seq<CrossSection>): (g: seq<real>)
    ensures StrictlyIncreasing(g)
    ensures forall y :: y in g <==> exists k :: 0 <= k < |rs| && y in rs[k].grid
  {
    FlattenMembers(Grids(rs));
    Unique(Flatten(Grids(rs)))
  }

  /** np.interp needs sample points and one value per sample point. */
  predicate Interpolable(x: CrossSection) {
    |x.grid| == |x.values| >= 1
  }

  /** A record's spectrum on the common grid: its own values, or its values reinterpolated. */
  function Spectrum(x: CrossSection, wngrid: seq<real>, agree: bool): (row: seq<real>)
    requires agree || Interpolable(x)
    ensures |row| == if agree then |x.values| else |wngrid|
  {
    if agree then x.values else Interp(wngrid, x.grid, x.values)
  }

  datatype Resampled = Resampled(wngrid: seq<real>, rows: seq<seq<real>>)

  /**
   * The common grid and one spectrum per sorted record: the first grid when all grids are
   * close to it, otherwise the merged grid with every record reinterpolated onto it.
   */
  function Resample(sorted: seq<CrossSection>, num: NumericOps): (r: Result<Resampled, Error>)
    requires sorted != []
    ensures r.Failure? <==> !GridsAgree(sorted, num) && exists k :: 0 <= k < |sorted| && !Interpolable(sorted[k])
    ensures r.Failure? ==> r.error == EmptyInterpolationGrid
    ensures r.Success? ==> |r.value.rows| == |sorted|
    ensures r.Success? ==> forall k :: 0 <= k < |sorted| ==>
              (GridsAgree(sorted, num) || Interpolable(sorted[k]))
              && r.value.rows[k] == Spectrum(sorted[k], r.value.wngrid, GridsAgree(sorted, num))
    ensures r.Success? && GridsAgree(sorted, num) ==> r.value.wngrid == sorted[0].grid
    ensures r.Success? && !GridsAgree(sorted, num) ==>
              r.value.wngrid == MergedGrid(sorted)
              && forall k :: 0 <= k < |sorted| ==> |r.value.rows[k]| == |r.value.wngrid|
  {
    if GridsAgree(sorted, num) then
      Success(Resampled(sorted[0].grid, seq(|sorted|, k requires 0 <= k < |sorted| => sorted[k].values)))
    else if forall k :: 0 <= k < |sorted| ==> Interpolable(sorted[k]) then
      var g := MergedGrid(sorted);
      Success(Resampled(g, seq(|sorted|, k requires 0 <= k < |sorted| => Interp(g, sorted[k].grid, sorted[k].values))))
    else
      Failure(EmptyInterpolationGrid)
  }

  /**
   * Merging identical increasing grids gives that grid back, and reinterpolating onto it gives
   * the values back: both branches of the resampling produce the same table.
   */
  lemma MergingIdenticalGridsChangesNothing(rs: seq<CrossSection>, g: seq<real>)
    requires rs != [] && StrictlyIncreasing(g)
    requires forall k :: 0 <= k < |rs| ==> rs[k].grid == g && Interpolable(rs[k])
    ensures MergedGrid(rs) == g
    ensures forall k :: 0 <= k < |rs| ==>
              Interpolable(rs[k]) && Spectrum(rs[k], MergedGrid(rs), false) == Spectrum(rs[k], g, true)
  {
    assert rs[0].grid == g;
    IncreasingListsWithSameValues(MergedGrid(rs), g);
    forall k | 0 <= k < |rs| ensures Interp(g, rs[k].grid, rs[k].values) == rs[k].values {
      InterpOntoOwnGrid(g, rs[k].values);
    }
  }

  // ---------------------------------------------------------------------------------------
  // Reshaping

  /** c * w as c repeated additions of w, so that the index arithmetic of the reshape stays linear. */
  function Times(c: nat, w: nat): nat {
    if c == 0 then 0 else Times(c - 1, w) + w
  }

  lemma {:induction false} TimesIsProduct(c: nat, w: nat)
    ensures Times(c, w) == c * w
    decreases c
  {
    if c > 0 {
      TimesIsProduct(c - 1, w);
      assert c * w == (c - 1) * w + w;
    }
  }

  lemma {:induction false} TimesMonotone(a: nat, b: nat, w: nat)
    requires a <= b
    ensures Times(a, w) <= Times(b, w)
    decreases b - a
  {
    if a < b {
      TimesMonotone(a, b - 1, w);
    }
  }

  /** The first n consecutive pieces of width w of s: reshape(n, w) of a flat list. */
  function Chunks<T>(s: seq<T>, n: nat, w: nat): (cs: seq<seq<T>>)
    requires |s| == Times(n, w)
    ensures |cs| == n && forall c :: 0 <= c < n ==> |cs[c]| == w
    decreases n
  {
    if n == 0 then [] else [s[..w]] + Chunks(s[w..], n - 1, w)
  }

  /** Piece c holds s[c * w .. (c + 1) * w]. */
  lemma {:induction false} ChunksAt<T>(s: seq<T>, n: nat, w: nat, c: nat, d: nat)
    requires |s| == Times(n, w) && c < n && d < w
    ensures Times(c, w) + d < |s| && Chunks(s, n, w)[c][d] == s[Times(c, w) + d]
    decreases c
  {
    if c > 0 {
      ChunksAt(s[w..], n - 1, w, c - 1, d);
      assert Chunks(s, n, w)[c] == Chunks(s[w..], n - 1, w)[c - 1];
    }
  }

  /** Reshaping rows of one length gives cells of that length. */
  lemma {:induction false} ChunksUniform<T>(s: seq<seq<T>>, n: nat, w: nat, len: nat)
    requires |s| == Times(n, w) && forall k :: 0 <= k < |s| ==> |s[k]| == len
    ensures forall c, d :: 0 <= c < n && 0 <= d < w ==> |Chunks(s, n, w)[c][d]| == len
    decreases n
  {
    if n > 0 {
      ChunksUniform(s[w..], n - 1, w, len);
      var cs := Chunks(s, n, w);
      forall c, d | 0 <= c < n && 0 <= d < w ensures |cs[c][d]| == len {
        if c == 0 {
          assert cs[0][d] == s[d];
        } else {
          assert cs[c] == Chunks(s[w..], n - 1, w)[c - 1];
        }
      }
    }
  }

  /** Reshape places element k at [k div w][k mod w]. */
  lemma ChunksPlace<T>(s: seq<T>, n: nat, w: nat, k: nat)
    requires |s| == Times(n, w) && k < |s|
    ensures w > 0 && k / w < n && Chunks(s, n, w)[k / w][k % w] == s[k]
  {
    NoWidthNoSize(n, w);
    DivMod(k, w);
    if k / w >= n {
      TimesMonotone(n, k / w, w);
    }
    ChunksAt(s, n, w, k / w, k % w);
  }

  lemma {:induction false} NoWidthNoSize(n: nat, w: nat)
    ensures w == 0 ==> Times(n, w) == 0
    decreases n
  {
    if n > 0 {
      NoWidthNoSize(n - 1, w);
    }
  }

  lemma DivMod(k: nat, w: nat)
    requires w > 0
    ensures k == Times(k / w, w) + k % w && k % w < w
  {
    TimesIsProduct(k / w, w);
  }

  lemma {:induction false} FlattenUniform(ss: seq<seq<real>>, w: nat)
    requires forall k :: 0 <= k < |ss| ==> |ss[k]| == w
    ensures |Flatten(ss)| == Times(|ss|, w)
    ensures Chunks(Flatten(ss), |ss|, w) == ss
    decreases |ss|
  {
    if ss != [] {
      FlattenUniform(ss[1..], w);
      var flat := Flatten(ss);
      assert flat[..w] == ss[0];
      assert flat[w..] == Flatten(ss[1..]);
      assert ss == [ss[0]] + ss[1..];
    }
  }

  lemma DivideExactly(n: nat, w: nat)
    requires n > 0
    ensures (n * w) % n == 0 && (n * w) / n == w
  {
    var q, r := (n * w) / n, (n * w) % n;
    assert n * w == q * n + r && 0 <= r < n;
    if q < w {
      AtLeastOnce(n, w - q);
    } else if q > w {
      AtLeastOnce(n, q - w);
    }
  }

  /** t >= 1 copies of n add up to at least n; the two wrong quotients above each contradict this. */
  lemma AtLeastOnce(n: nat, t: int)
    requires t >= 1
    ensures t * n >= n
  {
    assert t * n == (t - 1) * n + n;
  }

  /** Positions i * w + j with j < w are ordered as the cells (i, j) are, row by row. */
  lemma CellOrder(i1: nat, j1: nat, i2: nat, j2: nat, w: nat)
    requires j1 < w && j2 < w && Times(i1, w) + j1 < Times(i2, w) + j2
    ensures i1 < i2 || (i1 == i2 && j1 < j2)
  {
    if i1 > i2 {
      TimesMonotone(i2 + 1, i1, w);
    }
  }

  /** A size that b divides is b pieces of size / b. */
  lemma Quotient(size: nat, b: nat)
    requires b > 0 && size % b == 0
    ensures size == Times(b, size / b)
  {
    TimesIsProduct(b, size / b);
  }

  /**
   * cross_sections.reshape(len(pressures), len(temperatures), -1) as written: the only check
   * is that the total size divides into |P| x |T| equal pieces.
   */
  function ReshapeBySize(flat: seq<real>, np: nat, nt: nat): (r: Result<seq<seq<seq<real>>>, Error>)
    ensures r.Success? <==> np * nt > 0 && |flat| % (np * nt) == 0
    ensures r.Success? ==> |r.value| == np && forall i :: 0 <= i < np ==> |r.value[i]| == nt
  {
    if np * nt == 0 || |flat| % (np * nt) != 0 then Failure(ShapeMismatch)
    else
      var w := |flat| / (np * nt);
      Quotient(|flat|, np * nt);
      TimesIsProduct(np, nt);
      Success(Chunks(Chunks(flat, np * nt, w), np, nt))
  }

  /** On |P| x |T| rows of one width, the reshape as written cuts the rows back out, in order. */
  lemma ReshapeBySizeOfRows(rows: seq<seq<real>>, np: nat, nt: nat, w: nat)
    requires |rows| == Times(np, nt) > 0
    requires forall k :: 0 <= k < |rows| ==> |rows[k]| == w
    ensures ReshapeBySize(Flatten(rows), np, nt) == Success(Chunks(rows, np, nt))
  {
    TimesIsProduct(np, nt);
    FlattenUniform(rows, w);
    TimesIsProduct(|rows|, w);
    DivideExactly(np * nt, w);
  }

  /** The keys of a full pressure x temperature grid in lexicographic order. */
  function LexGrid(ps: seq<real>, ts: seq<real>): (g: seq<(real, real)>)
    ensures |g| == Times(|ps|, |ts|)
  {
    if ps == [] then []
    else seq(|ts|, j requires 0 <= j < |ts| => (ps[0], ts[j])) + LexGrid(ps[1..], ts)
  }

  lemma {:induction false} LexGridAt(ps: seq<real>, ts: seq<real>, i: nat, j: nat)
    requires i < |ps| && j < |ts|
    ensures Times(i, |ts|) + j < |LexGrid(ps, ts)| && LexGrid(ps, ts)[Times(i, |ts|) + j] == (ps[i], ts[j])
    decreases i
  {
    if i > 0 {
      LexGridAt(ps[1..], ts, i - 1, j);
    }
  }

  /** Every position of the grid is some (i, j) cell. */
  lemma {:induction false} LexGridCell(ps: seq<real>, ts: seq<real>, m: nat) returns (i: nat, j: nat)
    requires m < |LexGrid(ps, ts)|
    ensures i < |ps| && j < |ts| && m == Times(i, |ts|) + j
    decreases |ps|
  {
    if m >= |ts| {
      i, j := LexGridCell(ps[1..], ts, m - |ts|);
      i := i + 1;
    } else {
      i, j := 0, m;
    }
  }

  /** With increasing axes, cell (i, j) is the only position holding (ps[i], ts[j]). */
  lemma OnlyCellWithKey(ps: seq<real>, ts: seq<real>, i: nat, j: nat, m: nat)
    requires StrictlyIncreasing(ps) && StrictlyIncreasing(ts) && i < |ps| && j < |ts|
    requires m < |LexGrid(ps, ts)| && LexGrid(ps, ts)[m] == (ps[i], ts[j])
    ensures m == Times(i, |ts|) + j
  {
    var a, b := LexGridCell(ps, ts, m);
    LexGridAt(ps, ts, a, b);
    IncreasingAtOneIndex(ps, a, i);
    IncreasingAtOneIndex(ts, b, j);
  }

  function Keys(rs: seq<CrossSection>): (ks: seq<(real, real)>)
    ensures |ks| == |rs| && forall k :: 0 <= k < |rs| ==> ks[k] == Key(rs[k])
  {
    seq(|rs|, k requires 0 <= k < |rs| => Key(rs[k]))
  }
  // ---------------------------------------------------------------------------------------
  // The pressure x temperature x wavenumber table

  /** Axes, common grid and cube, pressures still in Torr. */
  datatype Layout = Layout(pressures: seq<real>, temperatures: seq<real>, wngrid: seq<real>, cube: seq<seq<seq<real>>>)

  /**
   * Sort, build the axes and the common grid, and reshape. The reshape is accepted only when the
   * sorted keys are exactly the lexicographic pressure x temperature grid and every spectrum is
   * as long as the common grid; see ReshapeBySize for the size-only check of the code as written.
   */
  function Arrange(records: seq<CrossSection>, num: NumericOps): (r: Result<Layout, Error>)
    ensures records == [] ==> r == Failure(NoRecords)
    ensures r.Success? ==>
              StrictlyIncreasing(r.value.pressures) && StrictlyIncreasing(r.value.temperatures)
              && |r.value.cube| == |r.value.pressures|
              && forall i :: 0 <= i < |r.value.cube| ==> |r.value.cube[i]| == |r.value.temperatures|
    ensures r.Success? ==>
              forall i, j :: 0 <= i < |r.value.cube| && 0 <= j < |r.value.cube[i]| ==>
                |r.value.cube[i][j]| == |r.value.wngrid|
  {
    if records == [] then Failure(NoRecords)
    else
      var sorted := SortByKey(records, Key);
      var ps := Unique(Pressures(sorted));
      var ts := Unique(Temperatures(sorted));
      var spectra :- Resample(sorted, num);
      if Keys(sorted) != LexGrid(ps, ts) then Failure(ShapeMismatch)
      else if exists k :: 0 <= k < |spectra.rows| && |spectra.rows[k]| != |spectra.wngrid| then Failure(ShapeMismatch)
      else
        ChunksUniform(spectra.rows, |ps|, |ts|, |spectra.wngrid|);
        Success(Layout(ps, ts, spectra.wngrid, Chunks(spectra.rows, |ps|, |ts|)))
  }

  /** What a successful Arrange is made of: one unfolding of Arrange, stated apart for the proofs about the table. */
  lemma ArrangeParts(records: seq<CrossSection>, num: NumericOps)
    requires Arrange(records, num).Success?
    ensures var sorted := SortByKey(records, Key);
      var ps, ts := Unique(Pressures(sorted)), Unique(Temperatures(sorted));
      sorted != [] && Resample(sorted, num).Success?
      && Keys(sorted) == LexGrid(ps, ts)
      && Arrange(records, num).value
         == Layout(ps, ts, Resample(sorted, num).value.wngrid, Chunks(Resample(sorted, num).value.rows, |ps|, |ts|))
  {
  }

  /** In a sorted list whose keys form the full grid, only position i * |ts| + j has key (ps[i], ts[j]). */
  lemma CellRecord(sorted: seq<CrossSection>, ps: seq<real>, ts: seq<real>, i: nat, j: nat) returns (m: nat)
    requires StrictlyIncreasing(ps) && StrictlyIncreasing(ts) && i < |ps| && j < |ts|
    requires Keys(sorted) == LexGrid(ps, ts)
    ensures m == Times(i, |ts|) + j && m < |sorted| && WithKey(sorted, Key, (ps[i], ts[j])) == [sorted[m]]
  {
    LexGridAt(ps, ts, i, j);
    m := Times(i, |ts|) + j;
    assert Key(sorted[m]) == (ps[i], ts[j]) by { assert Keys(sorted)[m] == Key(sorted[m]); }
    forall a | 0 <= a < |sorted| && Key(sorted[a]) == (ps[i], ts[j]) ensures a == m {
      assert LexGrid(ps, ts)[a] == Key(sorted[a]);
      OnlyCellWithKey(ps, ts, i, j, a);
    }
    WithKeyOnly(sorted, Key, (ps[i], ts[j]), m);
  }

  /** Cell (i, j) of the reshaped rows is the resampled spectrum of the one record with key (ps[i], ts[j]). */
  lemma CellSpectrum(sorted: seq<CrossSection>, num: NumericOps, ps: seq<real>, ts: seq<real>, i: nat, j: nat)
    returns (m: nat)
    requires sorted != [] && Resample(sorted, num).Success?
    requires StrictlyIncreasing(ps) && StrictlyIncreasing(ts) && i < |ps| && j < |ts|
    requires Keys(sorted) == LexGrid(ps, ts)
    ensures m < |sorted| && WithKey(sorted, Key, (ps[i], ts[j])) == [sorted[m]]
    ensures var spectra := Resample(sorted, num).value;
      (GridsAgree(sorted, num) || Interpolable(sorted[m]))
      && Chunks(spectra.rows, |ps|, |ts|)[i][j] == Spectrum(sorted[m], spectra.wngrid, GridsAgree(sorted, num))
  {
    m := CellRecord(sorted, ps, ts, i, j);
    ChunksAt(Resample(sorted, num).value.rows, |ps|, |ts|, i, j);
  }

  /**
   * Cell (i, j) of the cube holds the spectrum of the one and only record whose pressure is
   * pressures[i] and whose temperature is temperatures[j].
   */
  lemma ArrangePlacesRecords(records: seq<CrossSection>, num: NumericOps, i: nat, j: nat) returns (x: CrossSection)
    requires Arrange(records, num).Success?
    requires i < |Arrange(records, num).value.pressures| && j < |Arrange(records, num).value.temperatures|
    ensures var layout := Arrange(records, num).value;
      WithKey(records, Key, (layout.pressures[i], layout.temperatures[j])) == [x]
    ensures var layout := Arrange(records, num).value;
      var sorted := SortByKey(records, Key);
      sorted != []
      && (GridsAgree(sorted, num) || Interpolable(x))
      && layout.cube[i][j] == Spectrum(x, layout.wngrid, GridsAgree(sorted, num))
  {
    var sorted := SortByKey(records, Key);
    ArrangeParts(records, num);
    var ps, ts := Unique(Pressures(sorted)), Unique(Temperatures(sorted));
    var m := CellSpectrum(sorted, num, ps, ts, i, j);
    x := sorted[m];
    SortByKeyStable(records, Key, (ps[i], ts[j]));
  }

  /** Every record's pressure and temperature are a cell of the cube. */
  lemma ArrangeCoversRecords(records: seq<CrossSection>, num: NumericOps, k: nat) returns (i: nat, j: nat)
    requires Arrange(records, num).Success? && k < |records|
    ensures var layout := Arrange(records, num).value;
      i < |layout.pressures| && j < |layout.temperatures|
      && Key(records[k]) == (layout.pressures[i], layout.temperatures[j])
  {
    var layout := Arrange(records, num).value;
    var sorted := SortByKey(records, Key);
    assert layout.pressures == Unique(Pressures(sorted)) && layout.temperatures == Unique(Temperatures(sorted));
    AxesIgnoreOrder(records);
    RecordOnAxes(records, k);
    var p, t := records[k].header.pressure, records[k].header.temperature;
    i :| 0 <= i < |layout.pressures| && layout.pressures[i] == p;
    j :| 0 <= j < |layout.temperatures| && layout.temperatures[j] == t;
  }

  /** The lexicographic grid of two increasing axes is increasing, each key once. */
  lemma LexGridIncreasing(ps: seq<real>, ts: seq<real>)
    requires StrictlyIncreasing(ps) && StrictlyIncreasing(ts)
    ensures LexIncreasing(LexGrid(ps, ts))
  {
    var g := LexGrid(ps, ts);
    forall m1, m2 | 0 <= m1 < m2 < |g| ensures LexLe(g[m1], g[m2]) && g[m1] != g[m2] {
      var i1, j1, i2, j2 := LexGridPairCells(ps, ts, m1, m2);
      CellsOrdered(ps, ts, i1, j1, i2, j2);
    }
  }

  /** An earlier position of the grid is an earlier cell, row by row. */
  lemma LexGridPairCells(ps: seq<real>, ts: seq<real>, m1: nat, m2: nat) returns (i1: nat, j1: nat, i2: nat, j2: nat)
    requires m1 < m2 < |LexGrid(ps, ts)|
    ensures i1 < |ps| && i2 < |ps| && j1 < |ts| && j2 < |ts|
    ensures i1 < i2 || (i1 == i2 && j1 < j2)
    ensures LexGrid(ps, ts)[m1] == (ps[i1], ts[j1]) && LexGrid(ps, ts)[m2] == (ps[i2], ts[j2])
  {
    i1, j1 := LexGridCell(ps, ts, m1);
    i2, j2 := LexGridCell(ps, ts, m2);
    LexGridAt(ps, ts, i1, j1);
    LexGridAt(ps, ts, i2, j2);
    CellOrder(i1, j1, i2, j2, |ts|);
  }

  /** Cell (i1, j1) before cell (i2, j2), row by row, holds a smaller key. */
  lemma CellsOrdered(ps: seq<real>, ts: seq<real>, i1: nat, j1: nat, i2: nat, j2: nat)
    requires StrictlyIncreasing(ps) && StrictlyIncreasing(ts)
    requires i1 < |ps| && i2 < |ps| && j1 < |ts| && j2 < |ts|
    requires i1 < i2 || (i1 == i2 && j1 < j2)
    ensures LexLe((ps[i1], ts[j1]), (ps[i2], ts[j2])) && (ps[i1], ts[j1]) != (ps[i2], ts[j2])
  {
    if i1 == i2 {
      assert ts[j1] < ts[j2];
    } else {
      assert ps[i1] < ps[i2];
    }
  }

  /** A record's key is a cell of the axes built from the same records. */
  lemma KeyOnAxes(rs: seq<CrossSection>, a: nat) returns (i: nat, j: nat)
    requires a < |rs|
    ensures var ps, ts := Unique(Pressures(rs)), Unique(Temperatures(rs));
      i < |ps| && j < |ts| && Key(rs[a]) == (ps[i], ts[j])
  {
    RecordOnAxes(rs, a);
    var ps, ts := Unique(Pressures(rs)), Unique(Temperatures(rs));
    i :| 0 <= i < |ps| && ps[i] == rs[a].header.pressure;
    j :| 0 <= j < |ts| && ts[j] == rs[a].header.temperature;
  }

  /**
   * Sorted records that hold every cell key of their axes exactly once have exactly the keys
   * of the lexicographic grid, in its order.
   */
  lemma FullGridKeys(sorted: seq<CrossSection>)
    requires SortedBy(sorted, Key)
    requires var ps, ts := Unique(Pressures(sorted)), Unique(Temperatures(sorted));
      forall i, j :: 0 <= i < |ps| && 0 <= j < |ts| ==> |WithKey(sorted, Key, (ps[i], ts[j]))| == 1
    ensures Keys(sorted) == LexGrid(Unique(Pressures(sorted)), Unique(Temperatures(sorted)))
  {
    var ps, ts := Unique(Pressures(sorted)), Unique(Temperatures(sorted));
    var ks, g := Keys(sorted), LexGrid(ps, ts);
    SortedKeysIncreasing(sorted);
    LexGridIncreasing(ps, ts);
    forall y ensures y in ks <==> y in g {
      if y in ks {
        var a :| 0 <= a < |ks| && ks[a] == y;
        KeyInGrid(sorted, a);
      }
      if y in g {
        var m :| 0 <= m < |g| && g[m] == y;
        CellHasRecord(sorted, m);
      }
    }
    IncreasingKeysWithSameMembers(ks, g);
  }

  /** Every record's key is in the grid of the axes. */
  lemma KeyInGrid(sorted: seq<CrossSection>, a: nat)
    requires a < |sorted|
    ensures Key(sorted[a]) in LexGrid(Unique(Pressures(sorted)), Unique(Temperatures(sorted)))
  {
    var i, j := KeyOnAxes(sorted, a);
    LexGridAt(Unique(Pressures(sorted)), Unique(Temperatures(sorted)), i, j);
  }

  /** When every cell key occurs once, every cell of the grid is some record's key. */
  lemma CellHasRecord(sorted: seq<CrossSection>, m: nat)
    requires var ps, ts := Unique(Pressures(sorted)), Unique(Temperatures(sorted));
      forall i, j :: 0 <= i < |ps| && 0 <= j < |ts| ==> |WithKey(sorted, Key, (ps[i], ts[j]))| == 1
    requires m < |LexGrid(Unique(Pressures(sorted)), Unique(Temperatures(sorted)))|
    ensures LexGrid(Unique(Pressures(sorted)), Unique(Temperatures(sorted)))[m] in Keys(sorted)
  {
    var ps, ts := Unique(Pressures(sorted)), Unique(Temperatures(sorted));
    var i, j := LexGridCell(ps, ts, m);
    LexGridAt(ps, ts, i, j);
    var a := WithKeyFrom(sorted, Key, (ps[i], ts[j]));
    assert Keys(sorted)[a] == (ps[i], ts[j]);
  }

  /** Sorted records with no key twice have increasing keys. */
  lemma SortedKeysIncreasing(sorted: seq<CrossSection>)
    requires SortedBy(sorted, Key)
    requires var ps, ts := Unique(Pressures(sorted)), Unique(Temperatures(sorted));
      forall i, j :: 0 <= i < |ps| && 0 <= j < |ts| ==> |WithKey(sorted, Key, (ps[i], ts[j]))| == 1
    ensures LexIncreasing(Keys(sorted))
  {
    var ks := Keys(sorted);
    forall a, b | 0 <= a < b < |ks| ensures LexLe(ks[a], ks[b]) && ks[a] != ks[b] {
      if ks[a] == ks[b] {
        var i, j := KeyOnAxes(sorted, a);
        WithKeyTwice(sorted, Key, ks[a], a, b);
      }
    }
  }

  /** With well-formed records, every resampled spectrum is as long as the common grid. */
  lemma RowsFitGrid(sorted: seq<CrossSection>, num: NumericOps)
    requires sorted != [] && Resample(sorted, num).Success?
    requires forall k :: 0 <= k < |sorted| ==> WellFormed(sorted[k])
    ensures var spectra := Resample(sorted, num).value;
      forall k :: 0 <= k < |spectra.rows| ==> |spectra.rows[k]| == |spectra.wngrid|
  {
    if GridsAgree(sorted, num) {
      forall k | 0 <= k < |sorted| ensures |sorted[k].values| == |sorted[0].grid| {
        assert AllClose(sorted[0].grid, sorted[k].grid, num);
      }
    }
  }

  /** The converse of ArrangeParts: keys on the grid and spectra on the common grid give a table. */
  lemma ArrangeFromParts(records: seq<CrossSection>, num: NumericOps)
    requires records != []
    requires var sorted := SortByKey(records, Key);
      var ps, ts := Unique(Pressures(sorted)), Unique(Temperatures(sorted));
      Resample(sorted, num).Success? && Keys(sorted) == LexGrid(ps, ts)
      && forall k :: 0 <= k < |Resample(sorted, num).value.rows| ==>
           |Resample(sorted, num).value.rows[k]| == |Resample(sorted, num).value.wngrid|
    ensures Arrange(records, num).Success?
  {
  }

  /**
   * Well-formed records that hold every (pressure, temperature) pair of their axes exactly once,
   * and whose spectra can be brought onto one grid, are arranged into a table. With
   * ArrangePlacesRecords this is the whole acceptance rule: a table exactly for a full grid.
   */
  lemma ArrangeAcceptsFullGrid(records: seq<CrossSection>, num: NumericOps)
    requires records != [] && forall k :: 0 <= k < |records| ==> WellFormed(records[k])
    requires var ps, ts := Unique(Pressures(records)), Unique(Temperatures(records));
      forall i, j :: 0 <= i < |ps| && 0 <= j < |ts| ==> |WithKey(records, Key, (ps[i], ts[j]))| == 1
    requires Resample(SortByKey(records, Key), num).Success?
    ensures Arrange(records, num).Success?
  {
    var sorted := SortByKey(records, Key);
    AxesIgnoreOrder(records);
    SortByKeySorted(records, Key);
    SortByKeyPermutes(records, Key);
    var ps, ts := Unique(Pressures(sorted)), Unique(Temperatures(sorted));
    forall i, j | 0 <= i < |ps| && 0 <= j < |ts| ensures |WithKey(sorted, Key, (ps[i], ts[j]))| == 1 {
      SortByKeyStable(records, Key, (ps[i], ts[j]));
    }
    FullGridKeys(sorted);
    forall k | 0 <= k < |sorted| ensures WellFormed(sorted[k]) {
      assert sorted[k] in multiset(records);
    }
    RowsFitGrid(sorted, num);
    ArrangeFromParts(records, num);
  }

  // ---------------------------------------------------------------------------------------
  // The counterexample for the reshape as written

  /**
   * Four records with two-point grids (one point would already divide by zero when the grid is
   * built), sorted to keys (1, 1), (1, 2), (2, 1), (2, 1) (the (2, 2) measurement missing,
   * (2, 1) measured twice), give axes [1, 2] and [1, 2]. The reshape as written accepts them as a
   * 2 x 2 table and puts the second (2, 1) record in the cell for (2, 2); the corrected check
   * rejects them because the keys are not the full grid.
   */
  lemma ReshapeBySizeMisplaces()
    ensures var keys := [(1.0, 1.0), (1.0, 2.0), (2.0, 1.0), (2.0, 1.0)];
      var rows := [[10.0, 11.0], [20.0, 21.0], [30.0, 31.0], [40.0, 41.0]];
      var ps, ts := [1.0, 2.0], [1.0, 2.0];
      ps == Unique([1.0, 1.0, 2.0, 2.0]) && ts == Unique([1.0, 2.0, 1.0, 1.0])
      && ReshapeBySize(Flatten(rows), |ps|, |ts|).Success?
      && ReshapeBySize(Flatten(rows), |ps|, |ts|).value[1][1] == rows[3]
      && keys[3] != (ps[1], ts[1])
      && keys != LexGrid(ps, ts)
  {
    ExampleAxes();
    ExampleReshape();
    ExampleKeysOffGrid();
  }

  /** The reshape of the counterexample's four two-point spectra puts the fourth in cell (2, 2). */
  lemma ExampleReshape()
    ensures var rows := [[10.0, 11.0], [20.0, 21.0], [30.0, 31.0], [40.0, 41.0]];
      && ReshapeBySize(Flatten(rows), 2, 2).Success?
      && ReshapeBySize(Flatten(rows), 2, 2).value[1][1] == rows[3]
  {
    var rows := [[10.0, 11.0], [20.0, 21.0], [30.0, 31.0], [40.0, 41.0]];
    assert Times(2, 2) == 4;
    ReshapeBySizeOfRows(rows, 2, 2, 2);
    ChunksAt(rows, 2, 2, 1, 1);
    assert Times(1, 2) == 2;
  }

  /** The counterexample's keys are not the grid: its fourth key is not the cell (2, 2). */
  lemma ExampleKeysOffGrid()
    ensures var keys := [(1.0, 1.0), (1.0, 2.0), (2.0, 1.0), (2.0, 1.0)];
      var ps, ts := [1.0, 2.0], [1.0, 2.0];
      keys[3] != (ps[1], ts[1]) && keys != LexGrid(ps, ts)
  {
    var ps, ts := [1.0, 2.0], [1.0, 2.0];
    LexGridAt(ps, ts, 1, 1);
    assert Times(1, 2) == 2;
  }

  /** The axes of the counterexample: the pressures 1, 1, 2, 2 and the temperatures 1, 2, 1, 1. */
  lemma ExampleAxes()
    ensures Unique([1.0, 1.0, 2.0, 2.0]) == [1.0, 2.0] && Unique([1.0, 2.0, 1.0, 1.0]) == [1.0, 2.0]
  {
    UniqueCharacterised([1.0, 1.0, 2.0, 2.0], [1.0, 2.0]);
    UniqueCharacterised([1.0, 2.0, 1.0, 1.0], [1.0, 2.0]);
  }

  // ---------------------------------------------------------------------------------------
  // Units, resolution and molecule name

  /** pressures * 133.322368: Torr to Pa, keeping the order and undone by dividing back. */
  function ToPascal(ps: seq<real>): (qs: seq<real>)
    ensures |qs| == |ps|
    ensures forall k :: 0 <= k < |ps| ==> qs[k] / TorrToPascal == ps[k]
    ensures StrictlyIncreasing(ps) ==> StrictlyIncreasing(qs)
  {
    seq(|ps|, k requires 0 <= k < |ps| => ps[k] * TorrToPascal)
  }

  /** np.diff: the differences of neighbouring points. */
  function Diffs(g: seq<real>): (ds: seq<real>)
    ensures |ds| == if |g| < 2 then 0 else |g| - 1
  {
    if |g| < 2 then [] else Diffs(g[..|g| - 1]) + [g[|g| - 1] - g[|g| - 2]]
  }

  /** np.diff: step k is the distance from point k to point k + 1. */
  lemma {:induction false} DiffsAt(g: seq<real>, k: nat)
    requires k + 1 < |g|
    ensures Diffs(g)[k] == g[k + 1] - g[k]
    decreases |g|
  {
    if k + 2 < |g| {
      DiffsAt(g[..|g| - 1], k);
    }
  }

  function Total(xs: seq<real>): real {
    if xs == [] then 0.0 else Total(xs[..|xs| - 1]) + xs[|xs| - 1]
  }

  /** np.average(np.diff(wngrid)); None when there is no difference to average. */
  function Resolution(g: seq<real>): (r: Option<real>)
    ensures r.Some? <==> |g| >= 2
  {
    if |g| < 2 then None else Some(Total(Diffs(g)) / (|g| - 1) as real)
  }

  /** The differences telescope: they add up to the span of the grid. */
  lemma {:induction false} DiffsTelescope(g: seq<real>)
    requires |g| >= 1
    ensures Total(Diffs(g)) == g[|g| - 1] - g[0]
    decreases |g|
  {
    if |g| >= 2 {
      var init := g[..|g| - 1];
      DiffsTelescope(init);
      var ds := Diffs(g);
      assert ds[..|ds| - 1] == Diffs(init);
    }
  }

  /** The resolution is the span of the grid over its number of steps. */
  lemma ResolutionIsMeanStep(g: seq<real>)
    requires |g| >= 2
    ensures Resolution(g) == Some((g[|g| - 1] - g[0]) / (|g| - 1) as real)
  {
    DiffsTelescope(g);
  }

  /** On an increasing grid the resolution is positive. */
  lemma ResolutionPositive(g: seq<real>)
    requires |g| >= 2 && StrictlyIncreasing(g)
    ensures Resolution(g).value > 0.0
  {
    ResolutionIsMeanStep(g);
    assert g[0] < g[|g| - 1];
  }

  /** dataset[0][0]["molecule_name"].split()[0].strip(): the first word of the first record's name. */
  function MoleculeName(dataset: seq<seq<CrossSection>>): (r: Result<string, Error>)
    ensures r.Success? ==> r.value != [] && NoSpace(r.value)
  {
    if dataset == [] || dataset[0] == [] then Failure(NoRecords)
    else
      var tokens := Split(dataset[0][0].header.moleculeName);
      if tokens == [] then Failure(BlankMoleculeName)
      else
        StripPadded([], tokens[0], []);
        assert [] + tokens[0] + [] == tokens[0];
        Success(Strip(tokens[0]))
  }

  /** The name is blank exactly when the first record's molecule name is all spaces. */
  lemma MoleculeNameBlank(dataset: seq<seq<CrossSection>>)
    requires dataset != [] && dataset[0] != []
    ensures MoleculeName(dataset) == Failure(BlankMoleculeName) <==> AllSpace(dataset[0][0].header.moleculeName)
  {
    SplitBlank(dataset[0][0].header.moleculeName);
  }

  /** A name that starts with a word gives that word. */
  lemma MoleculeNameIsFirstWord(dataset: seq<seq<CrossSection>>, w: string, rest: string)
    requires dataset != [] && dataset[0] != [] && dataset[0][0].header.moleculeName == w + rest
    requires w != [] && NoSpace(w) && (rest == [] || IsSpace(rest[0]))
    ensures MoleculeName(dataset) == Success(w)
  {
    FirstWord(w, rest);
  }

  // ---------------------------------------------------------------------------------------
  // The whole constructor

  /**
   * HitranCrossSection(files) on the records the reader yields for each file, in the order of
   * files: the arranged table, pressures in Pa, the resolution of the common grid and the molecule.
   */
  function Assemble(dataset: seq<seq<CrossSection>>, num: NumericOps): (r: Result<Table, Error>)
    ensures Flatten(dataset) == [] ==> r == Failure(NoRecords)
    ensures r.Success? ==>
              StrictlyIncreasing(r.value.pressures) && StrictlyIncreasing(r.value.temperatures)
              && |r.value.cube| == |r.value.pressures|
              && (forall i :: 0 <= i < |r.value.cube| ==> |r.value.cube[i]| == |r.value.temperatures|)
              && r.value.moleculeName != [] && NoSpace(r.value.moleculeName)
              && (r.value.resolution.Some? <==> |r.value.wngrid| >= 2)
  {
    var layout :- Arrange(Flatten(dataset), num);
    var molecule :- MoleculeName(dataset);
    Success(Table(molecule, ToPascal(layout.pressures), layout.temperatures, layout.wngrid, layout.cube,
                  Resolution(layout.wngrid)))
  }

  /** A table is produced exactly when the records arrange and the molecule name is a word. */
  lemma AssembleSucceeds(dataset: seq<seq<CrossSection>>, num: NumericOps)
    ensures Assemble(dataset, num).Success?
        <==> Arrange(Flatten(dataset), num).Success? && MoleculeName(dataset).Success?
  {
  }

  /**
   * The table is the arranged layout with pressures converted to Pa, named after the first
   * record's molecule, with the mean step of the common grid as its resolution.
   */
  lemma AssembleIsArrangedLayout(dataset: seq<seq<CrossSection>>, num: NumericOps)
    requires Assemble(dataset, num).Success?
    ensures Arrange(Flatten(dataset), num).Success? && MoleculeName(dataset).Success?
    ensures var t, layout := Assemble(dataset, num).value, Arrange(Flatten(dataset), num).value;
      t.pressures == ToPascal(layout.pressures) && t.temperatures == layout.temperatures
      && t.wngrid == layout.wngrid && t.cube == layout.cube
      && t.moleculeName == MoleculeName(dataset).value
      && t.resolution == Resolution(layout.wngrid)
  {
  }
}
