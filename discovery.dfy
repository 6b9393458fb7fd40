/**
 * find_and_map_cross_section_files: every cross-section file is filed under the molecule
 * named in its first line's header, in a dictionary whose keys keep their first-seen order
 * and whose lists keep the order in which the files were found.
 */
module Discovery {
  import opened Wrappers
  import opened Errors
  import opened Numerics
  import opened Text
  import opened Header

  /** A file found by the directory scan, with the first line readline() returns for it. */
  datatype Entry = Entry(path: string, firstLine: string)

  /** The molecule a file belongs to: its header's molecule name, stripped once more. */
  function MoleculeOf(firstLine: string, num: NumericOps): (r: Result<string, Error>)
    ensures r.Success? ==> IsTrimmed(r.value)
    ensures r.Failure? <==> DecodeHeader(Prefix(firstLine, HeaderLength), num).Failure?
  {
    var h :- DecodeHeader(Prefix(firstLine, HeaderLength), num);
    Success(Strip(h.moleculeName))
  }

  /** The second strip changes nothing: the molecule is the header's molecule name as decoded. */
  lemma MoleculeIsDecodedName(firstLine: string, num: NumericOps)
    requires DecodeHeader(Prefix(firstLine, HeaderLength), num).Success?
    ensures MoleculeOf(firstLine, num) == Success(DecodeHeader(Prefix(firstLine, HeaderLength), num).value.moleculeName)
  {
    var h := DecodeHeader(Prefix(firstLine, HeaderLength), num).value;
    DecodedTextIsTrimmed(Prefix(firstLine, HeaderLength), num);
    StripPadded([], h.moleculeName, []);
    assert [] + h.moleculeName + [] == h.moleculeName;
  }

  /** The molecules of the entries in order, or the error of the first header that does not decode. */
  function MoleculeNames(es: seq<Entry>, num: NumericOps): (r: Result<seq<string>, Error>)
    ensures r.Success? ==> |r.value| == |es|
  {
    if es == [] then Success([])
    else
      var init :- MoleculeNames(es[..|es| - 1], num);
      var m :- MoleculeOf(es[|es| - 1].firstLine, num);
      Success(init + [m])
  }

  /** Entry i's molecule is name i: the names are the entries' molecules, in order. */
  lemma {:induction false} MoleculeNamesAt(es: seq<Entry>, num: NumericOps, i: nat)
    requires MoleculeNames(es, num).Success? && i < |es|
    ensures MoleculeOf(es[i].firstLine, num) == Success(MoleculeNames(es, num).value[i])
    decreases |es|
  {
    var init := es[..|es| - 1];
    if i < |es| - 1 {
      MoleculeNamesAt(init, num, i);
      assert init[i] == es[i];
    }
  }

  /** A failure is the error of the first entry whose header does not decode. */
  lemma {:induction false} MoleculeNamesFailure(es: seq<Entry>, num: NumericOps) returns (i: nat)
    requires MoleculeNames(es, num).Failure?
    ensures i < |es| && MoleculeOf(es[i].firstLine, num) == Failure(MoleculeNames(es, num).error)
    ensures forall j :: 0 <= j < i ==> MoleculeOf(es[j].firstLine, num).Success?
    decreases |es|
  {
    var init := es[..|es| - 1];
    if MoleculeNames(init, num).Failure? {
      i := MoleculeNamesFailure(init, num);
      assert init[i] == es[i];
      assert forall j :: 0 <= j < i ==> init[j] == es[j];
    } else {
      i := |es| - 1;
      forall j | 0 <= j < i
        ensures MoleculeOf(es[j].firstLine, num).Success?
      {
        MoleculeNamesAt(init, num, j);
        assert init[j] == es[j];
      }
    }
  }

  /** The paths of the entries, in order. */
  function Paths(es: seq<Entry>): (ps: seq<string>)
    ensures |ps| == |es|
  {
    if es == [] then [] else Paths(es[..|es| - 1]) + [es[|es| - 1].path]
  }

  /** Path i is entry i's path: the paths keep the order of the scan. */
  lemma {:induction false} PathsAt(es: seq<Entry>, i: nat)
    requires i < |es|
    ensures Paths(es)[i] == es[i].path
    decreases |es|
  {
    if i < |es| - 1 {
      PathsAt(es[..|es| - 1], i);
    }
  }

  /** The dictionary built by filing paths[i] under names[i] for i = 0, 1, ... */
  function GroupMap(paths: seq<string>, names: seq<string>): map<string, seq<string>>
    requires |paths| == |names|
  {
    if paths == [] then map[]
    else
      var m := GroupMap(paths[..|paths| - 1], names[..|names| - 1]);
      var k := names[|names| - 1];
      m[k := (if k in m then m[k] else []) + [paths[|paths| - 1]]]
  }

  /** The dictionary's keys in insertion order: each name where it first occurs. */
  function KeyOrder(names: seq<string>): seq<string> {
    if names == [] then []
    else
      var o := KeyOrder(names[..|names| - 1]);
      if names[|names| - 1] in o then o else o + [names[|names| - 1]]
  }

  /** The paths filed under k, in their input order. */
  function Select(paths: seq<string>, names: seq<string>, k: string): seq<string>
    requires |paths| == |names|
  {
    if paths == [] then []
    else
      Select(paths[..|paths| - 1], names[..|names| - 1], k)
      + (if names[|names| - 1] == k then [paths[|paths| - 1]] else [])
  }

  /** The grouping of the entries: the dictionary and its key order. */
  function Grouping(es: seq<Entry>, num: NumericOps): Result<(map<string, seq<string>>, seq<string>), Error> {
    var names :- MoleculeNames(es, num);
    Success((GroupMap(Paths(es), names), KeyOrder(names)))
  }

  /** The grouping fails with the error of the first file whose header does not decode. */
  lemma GroupingFailsAtFirstBadHeader(es: seq<Entry>, num: NumericOps) returns (i: nat)
    requires Grouping(es, num).Failure?
    ensures i < |es| && MoleculeOf(es[i].firstLine, num) == Failure(Grouping(es, num).error)
    ensures forall j :: 0 <= j < i ==> MoleculeOf(es[j].firstLine, num).Success?
  {
    i := MoleculeNamesFailure(es, num);
  }

  /** The grouping succeeds when every file's header decodes. */
  lemma GroupingSucceeds(es: seq<Entry>, num: NumericOps)
    requires forall i :: 0 <= i < |es| ==> MoleculeOf(es[i].firstLine, num).Success?
    ensures Grouping(es, num).Success?
  {
    if Grouping(es, num).Failure? {
      var i := GroupingFailsAtFirstBadHeader(es, num);
    }
  }

  /** The dictionary's keys are exactly the molecules, and each list is the files of its molecule in order. */
  lemma {:induction false} GroupMapSelects(paths: seq<string>, names: seq<string>)
    requires |paths| == |names|
    ensures forall k :: k in GroupMap(paths, names) <==> k in names
    ensures forall k :: k in GroupMap(paths, names) ==> GroupMap(paths, names)[k] == Select(paths, names, k)
    decreases |paths|
  {
    if paths != [] {
      var p', n' := paths[..|paths| - 1], names[..|names| - 1];
      GroupMapSelects(p', n');
      assert forall k :: k in names <==> k in n' || k == names[|names| - 1] by {
        assert names == n' + [names[|names| - 1]];
      }
      forall k | k !in n' ensures Select(p', n', k) == [] {
        SelectOfAbsent(p', n', k);
      }
    }
  }

  lemma {:induction false} SelectOfAbsent(paths: seq<string>, names: seq<string>, k: string)
    requires |paths| == |names| && k !in names
    ensures Select(paths, names, k) == []
    decreases |paths|
  {
    if paths != [] {
      assert names[..|names| - 1] + [names[|names| - 1]] == names;
      SelectOfAbsent(paths[..|paths| - 1], names[..|names| - 1], k);
    }
  }

  /** The key order lists every molecule once, in the order of first occurrence. */
  lemma {:induction false} KeyOrderDistinct(names: seq<string>)
    ensures forall k :: k in KeyOrder(names) <==> k in names
    ensures forall i, j :: 0 <= i < j < |KeyOrder(names)| ==> KeyOrder(names)[i] != KeyOrder(names)[j]
    decreases |names|
  {
    if names != [] {
      var n' := names[..|names| - 1];
      KeyOrderDistinct(n');
      assert names == n' + [names[|names| - 1]];
      assert forall k :: k in names <==> k in n' || k == names[|names| - 1];
    }
  }

  /** File i is in the list of its own molecule and, when paths are distinct, in no other list. */
  lemma {:induction false} FileInOwnListOnly(paths: seq<string>, names: seq<string>, i: nat)
    requires |paths| == |names| && i < |paths|
    ensures paths[i] in Select(paths, names, names[i])
    ensures (forall a, b :: 0 <= a < b < |paths| ==> paths[a] != paths[b]) ==>
              forall k :: k != names[i] ==> paths[i] !in Select(paths, names, k)
    decreases |paths|
  {
    var n := |paths| - 1;
    var p', n' := paths[..n], names[..n];
    if i < n {
      FileInOwnListOnly(p', n', i);
      assert p'[i] == paths[i] && n'[i] == names[i];
    }
    if forall a, b :: 0 <= a < b < |paths| ==> paths[a] != paths[b] {
      forall k | k != names[i] ensures paths[i] !in Select(paths, names, k) {
        if i < n {
          assert forall a, b :: 0 <= a < b < |p'| ==> p'[a] != p'[b];
          assert paths[i] != paths[n];
        } else {
          SelectDrawsFrom(p', n', k);
          assert forall a :: 0 <= a < n ==> p'[a] != paths[n];
        }
      }
    }
  }

  lemma {:induction false} SelectDrawsFrom(paths: seq<string>, names: seq<string>, k: string)
    requires |paths| == |names|
    ensures forall x :: x in Select(paths, names, k) ==> exists a :: 0 <= a < |paths| && paths[a] == x
    decreases |paths|
  {
    if paths != [] {
      var n := |paths| - 1;
      SelectDrawsFrom(paths[..n], names[..n], k);
      forall x | x in Select(paths[..n], names[..n], k) ensures exists a :: 0 <= a < |paths| && paths[a] == x {
        var a :| 0 <= a < n && paths[..n][a] == x;
        assert paths[a] == x;
      }
    }
  }

  /**
   * Each file is filed under the molecule of its own first line, that molecule is a key of
   * the dictionary, and when the paths are distinct the file is in no other molecule's list.
   */
  lemma FileUnderOwnMolecule(es: seq<Entry>, num: NumericOps, i: nat)
    requires Grouping(es, num).Success? && i < |es|
    ensures MoleculeOf(es[i].firstLine, num).Success?
    ensures var m, keys := Grouping(es, num).value.0, Grouping(es, num).value.1;
      var name := MoleculeOf(es[i].firstLine, num).value;
      name in m && name in keys && es[i].path in m[name]
    ensures (forall a, b :: 0 <= a < b < |es| ==> es[a].path != es[b].path) ==>
      var m := Grouping(es, num).value.0;
      forall k :: k in m && k != MoleculeOf(es[i].firstLine, num).value ==> es[i].path !in m[k]
  {
    var names := MoleculeNames(es, num).value;
    var paths := Paths(es);
    MoleculeNamesAt(es, num, i);
    GroupMapSelects(paths, names);
    KeyOrderDistinct(names);
    FileInOwnListOnly(paths, names, i);
    PathsAt(es, i);
    if forall a, b :: 0 <= a < b < |es| ==> es[a].path != es[b].path {
      forall a, b | 0 <= a < b < |paths| ensures paths[a] != paths[b] {
        PathsAt(es, a);
        PathsAt(es, b);
      }
    }
  }

  /** The first header that does not decode ends the grouping with its error. */
  lemma {:induction false} FailurePersists(es: seq<Entry>, j: nat, num: NumericOps)
    requires j <= |es| && MoleculeNames(es[..j], num).Failure?
    ensures MoleculeNames(es, num) == Failure(MoleculeNames(es[..j], num).error)
    decreases |es| - j
  {
    if j < |es| {
      assert es[..j + 1][..j] == es[..j];
      FailurePersists(es, j + 1, num);
    } else {
      assert es[..j] == es;
    }
  }

  /** Extending the entries by one extends the molecules by that entry's molecule, or fails with its error. */
  lemma MoleculeNamesStep(es: seq<Entry>, i: nat, names: seq<string>, num: NumericOps)
    requires i < |es| && MoleculeNames(es[..i], num) == Success(names)
    ensures MoleculeNames(es[..i + 1], num)
         == if MoleculeOf(es[i].firstLine, num).Failure? then Failure(MoleculeOf(es[i].firstLine, num).error)
            else Success(names + [MoleculeOf(es[i].firstLine, num).value])
  {
    assert es[..i + 1][..i] == es[..i];
  }

  /** Filing one more path extends the dictionary and, for a new molecule, the key order. */
  lemma GroupStep(paths: seq<string>, names: seq<string>, p: string, k: string)
    requires |paths| == |names|
    ensures var m := GroupMap(paths, names);
      GroupMap(paths + [p], names + [k]) == m[k := (if k in m then m[k] else []) + [p]]
    ensures KeyOrder(names + [k]) == if k in KeyOrder(names) then KeyOrder(names) else KeyOrder(names) + [k]
  {
    assert (paths + [p])[..|paths|] == paths;
    assert (names + [k])[..|names|] == names;
  }

  /** Filing entry i under its molecule m extends the dictionary and the key order as FileUnder does. */
  lemma FilingStep(es: seq<Entry>, i: nat, names: seq<string>, m: string, num: NumericOps)
    requires i < |es| && MoleculeNames(es[..i], num) == Success(names)
    requires MoleculeOf(es[i].firstLine, num) == Success(m)
    ensures MoleculeNames(es[..i + 1], num) == Success(names + [m])
    ensures var before := GroupMap(Paths(es[..i]), names);
      && (m in before <==> m in KeyOrder(names))
      && GroupMap(Paths(es[..i + 1]), names + [m]) == before[m := (if m in before then before[m] else []) + [es[i].path]]
      && KeyOrder(names + [m]) == if m in before then KeyOrder(names) else KeyOrder(names) + [m]
  {
    MoleculeNamesStep(es, i, names, num);
    GroupMapSelects(Paths(es[..i]), names);
    KeyOrderDistinct(names);
    GroupStep(Paths(es[..i]), names, es[i].path, m);
    assert es[..i + 1][..i] == es[..i];
    assert Paths(es[..i + 1]) == Paths(es[..i]) + [es[i].path];
  }

  /**
   * One step of the loop: give the molecule an empty list if it has none yet (recording it as
   * a new key), then append the file to its list.
   */
  method FileUnder(moleculeMap: map<string, seq<string>>, keys: seq<string>, moleculeName: string, file: string)
    returns (newMap: map<string, seq<string>>, newKeys: seq<string>)
    ensures newMap == moleculeMap[moleculeName :=
              (if moleculeName in moleculeMap then moleculeMap[moleculeName] else []) + [file]]
    ensures newKeys == if moleculeName in moleculeMap then keys else keys + [moleculeName]
  {
    newMap, newKeys := moleculeMap, keys;
    if moleculeName !in newMap {
      newMap := newMap[moleculeName := []];
      newKeys := newKeys + [moleculeName];
    }
    newMap := newMap[moleculeName := newMap[moleculeName] + [file]];
  }

  /**
   * The loop of find_and_map_cross_section_files over the files in glob order: take the
   * molecule of each first line, create its list if it is new, append the file.
   */
  method FindAndMapCrossSectionFiles(entries: seq<Entry>, num: NumericOps)
    returns (r: Result<(map<string, seq<string>>, seq<string>), Error>)
    ensures r == Grouping(entries, num)
  {
    var moleculeMap: map<string, seq<string>> := map[];
    var keys: seq<string> := [];
    ghost var names: seq<string> := [];
    for i := 0 to |entries|
      invariant |names| == i
      invariant MoleculeNames(entries[..i], num) == Success(names)
      invariant moleculeMap == GroupMap(Paths(entries[..i]), names)
      invariant keys == KeyOrder(names)
    {
      var molecule := MoleculeOf(entries[i].firstLine, num);
      MoleculeNamesStep(entries, i, names, num);
      if molecule.Failure? {
        FailurePersists(entries, i + 1, num);
        return Failure(molecule.error);
      }
      var moleculeName := molecule.value;
      FilingStep(entries, i, names, moleculeName, num);
      moleculeMap, keys := FileUnder(moleculeMap, keys, moleculeName, entries[i].path);
      names := names + [moleculeName];
    }
    assert entries[..|entries|] == entries;
    r := Success((moleculeMap, keys));
  }
}
