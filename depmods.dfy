/**
 * Dependent modifications (MqUtil/Ms/Utils/PepUtils.cs, `CreateDependentMods`):
 * for every label modification, the variable modifications that can occur
 * together with it. Only the fields these functions read are modelled.
 */
module DependentMods {

  /** A variable modification: where it may sit and which residues it accepts. */
  datatype Modification = Modification(
    name: string,
    isInternal: bool,
    isNterminal: bool,
    isCterminal: bool,
    isIsotopicMod: bool,
    sites: seq<char>)

  /** A label modification: isotopic or not, its terminus, and its residues (`AaCount`, `GetAaAt`). */
  datatype Label = Label(isIsotopicLabel: bool, isNterminal: bool, isCterminal: bool, aas: seq<char>)

  /** Which variable modifications a label selects. */
  datatype Selector = Internal(aa: char) | Nterminal | Cterminal

  predicate Selects(sel: Selector, mod: Modification)
  {
    match sel
    case Internal(aa) => mod.isInternal && aa in mod.sites && !mod.isIsotopicMod
    case Nterminal => mod.isNterminal
    case Cterminal => mod.isCterminal
  }

  /** The selected modifications, in their original order. */
  function Filter(mods: seq<Modification>, sel: Selector): (r: seq<Modification>)
    ensures |r| <= |mods|
  {
    if mods == [] then []
    else Filter(mods[..|mods| - 1], sel) + (if Selects(sel, mods[|mods| - 1]) then [mods[|mods| - 1]] else [])
  }

  /** The filter keeps exactly the selected modifications. */
  lemma {:induction false} FilterMembers(mods: seq<Modification>, sel: Selector)
    ensures forall m :: m in Filter(mods, sel) <==> m in mods && Selects(sel, m)
    decreases |mods|
  {
    if mods != [] {
      var n := |mods| - 1;
      FilterMembers(mods[..n], sel);
      assert mods == mods[..n] + [mods[n]];
    }
  }

  /** Filtering distributes over concatenation, so the original order is kept. */
  lemma {:induction false} FilterAppend(a: seq<Modification>, b: seq<Modification>, sel: Selector)
    ensures Filter(a + b, sel) == Filter(a, sel) + Filter(b, sel)
    decreases |b|
  {
    if b == [] {
      assert a + b == a;
    } else {
      var n := |b| - 1;
      assert (a + b)[..|a + b| - 1] == a + b[..n];
      FilterAppend(a, b[..n], sel);
    }
  }

  /** `Contains(sites, aa)`: some site is the residue. */
  method HasSite(sites: seq<char>, aa: char) returns (r: bool)
    ensures r <==> aa in sites
  {
    for k := 0 to |sites|
      invariant aa !in sites[..k]
    {
      if sites[k] == aa {
        return true;
      }
    }
    assert sites[..|sites|] == sites;
    return false;
  }

  /** The list-building loop shared by `GetInternalMods`, `GetNterminalMods` and `GetCterminalMods`. */
  method SelectMods(varMods: seq<Modification>, sel: Selector) returns (result: seq<Modification>)
    ensures result == Filter(varMods, sel)
  {
    result := [];
    for k := 0 to |varMods|
      invariant result == Filter(varMods[..k], sel)
    {
      var mod := varMods[k];
      var take: bool;
      match sel {
        case Internal(aa) =>
          var site := HasSite(mod.sites, aa);
          take := mod.isInternal && site && !mod.isIsotopicMod;
        case Nterminal =>
          take := mod.isNterminal;
        case Cterminal =>
          take := mod.isCterminal;
      }
      assert varMods[..k + 1][..k] == varMods[..k];
      if take {
        result := result + [mod];
      }
    }
    assert varMods[..|varMods|] == varMods;
  }

  /** What one label selects: nothing for an isotopic label or one without residues. */
  function DependentModsOf(labelMod: Label, varMods: seq<Modification>): seq<Modification>
  {
    if labelMod.isIsotopicLabel then []
    else if labelMod.isCterminal then Filter(varMods, Cterminal)
    else if labelMod.isNterminal then Filter(varMods, Nterminal)
    else if |labelMod.aas| > 0 then Filter(varMods, Internal(labelMod.aas[0]))
    else []
  }

  /**
   * What a label selects, by membership: a modification is dependent on a
   * non-isotopic label exactly when it fits the label's terminus, or, for
   * an internal label, is an internal non-isotopic modification accepting
   * the label's first residue.
   */
  lemma DependentModsMembers(labelMod: Label, varMods: seq<Modification>, m: Modification)
    ensures m in DependentModsOf(labelMod, varMods) <==>
      && m in varMods && !labelMod.isIsotopicLabel
      && (if labelMod.isCterminal then m.isCterminal
          else if labelMod.isNterminal then m.isNterminal
          else |labelMod.aas| > 0 && m.isInternal && labelMod.aas[0] in m.sites && !m.isIsotopicMod)
  {
    FilterMembers(varMods, Cterminal);
    FilterMembers(varMods, Nterminal);
    if |labelMod.aas| > 0 {
      FilterMembers(varMods, Internal(labelMod.aas[0]));
    }
  }

  /** `CreateDependentMods(labelMod, varMods)` for one label. */
  method CreateDependentModsFor(labelMod: Label, varMods: seq<Modification>) returns (result: seq<Modification>)
    ensures result == DependentModsOf(labelMod, varMods)
  {
    if labelMod.isIsotopicLabel {
      return [];
    }
    if labelMod.isCterminal {
      result := SelectMods(varMods, Cterminal);
      return;
    }
    if labelMod.isNterminal {
      result := SelectMods(varMods, Nterminal);
      return;
    }
    if |labelMod.aas| > 0 {
      result := SelectMods(varMods, Internal(labelMod.aas[0]));
    } else {
      result := [];
    }
  }

  /** Some label selects at least one modification. */
  predicate AnyDependent(result: seq<seq<seq<Modification>>>)
  {
    exists i, j :: 0 <= i < |result| && 0 <= j < |result[i]| && result[i][j] != []
  }

  /** Some entry of a row is non-empty. */
  predicate AnyInRow(row: seq<seq<Modification>>)
  {
    exists j :: 0 <= j < |row| && row[j] != []
  }

  /** The inner loop: the dependent modifications of one list of labels, raising the flag on a non-empty one. */
  method DependentRow(labels: seq<Label>, vMods: seq<Modification>, hasDependentMods: bool)
    returns (row: seq<seq<Modification>>, hasDependentMods': bool)
    ensures |row| == |labels|
    ensures forall j :: 0 <= j < |labels| ==> row[j] == DependentModsOf(labels[j], vMods)
    ensures hasDependentMods' <==> hasDependentMods || AnyInRow(row)
  {
    row := [];
    hasDependentMods' := hasDependentMods;
    for j := 0 to |labels|
      invariant |row| == j
      invariant forall b :: 0 <= b < j ==> row[b] == DependentModsOf(labels[b], vMods)
      invariant hasDependentMods' <==> hasDependentMods || AnyInRow(row)
    {
      var mods := CreateDependentModsFor(labels[j], vMods);
      row := row + [mods];
      if |mods| > 0 {
        hasDependentMods' := true;
      }
    }
  }

  /**
   * `CreateDependentMods(lMods, vMods)`: the dependent modifications of
   * every label, in the shape of `lMods`, and whether any label has one.
   */
  method CreateDependentMods(lMods: seq<seq<Label>>, vMods: seq<Modification>)
    returns (dependentMods: seq<seq<seq<Modification>>>, hasDependentMods: bool)
    ensures |dependentMods| == |lMods|
    ensures forall i :: 0 <= i < |lMods| ==> |dependentMods[i]| == |lMods[i]|
    ensures forall i, j :: 0 <= i < |lMods| && 0 <= j < |lMods[i]| ==>
      dependentMods[i][j] == DependentModsOf(lMods[i][j], vMods)
    ensures hasDependentMods <==> AnyDependent(dependentMods)
  {
    hasDependentMods := false;
    dependentMods := [];
    for i := 0 to |lMods|
      invariant |dependentMods| == i
      invariant forall a :: 0 <= a < i ==> |dependentMods[a]| == |lMods[a]|
      invariant forall a, b :: 0 <= a < i && 0 <= b < |lMods[a]| ==>
        dependentMods[a][b] == DependentModsOf(lMods[a][b], vMods)
      invariant hasDependentMods <==> AnyDependent(dependentMods)
    {
      var row;
      ghost var before := dependentMods;
      row, hasDependentMods := DependentRow(lMods[i], vMods, hasDependentMods);
      dependentMods := dependentMods + [row];
      AnyDependentSnoc(before, row);
    }
  }

  lemma AnyDependentSnoc(result: seq<seq<seq<Modification>>>, row: seq<seq<Modification>>)
    ensures AnyDependent(result + [row]) <==> AnyDependent(result) || AnyInRow(row)
  {
    var r := result + [row];
    if AnyInRow(row) {
      var b :| 0 <= b < |row| && row[b] != [];
      assert r[|result|][b] != [];
    }
    if AnyDependent(result) {
      var i, j :| 0 <= i < |result| && 0 <= j < |result[i]| && result[i][j] != [];
      assert r[i][j] != [];
    }
  }
}
