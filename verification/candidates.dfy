/** The candidate table of the rename window (RenameParam.cs:290-340): one entry per FX
    parameter with the menus that mention it and a recommended new name, filtered by the
    exclude list and the two display toggles. */
module Candidates {
  import opened Seqs
  import opened Names
  import opened Menus
  import opened Animator

  /** The `Parameter` record of RenameParam.cs:11-16. */
  datatype Candidate = Candidate(name: string, menus: seq<Menu>, recommendedName: string)

  datatype RefreshOptions = RefreshOptions(
    showParamsWithNoMenus: bool,
    showParamsWithSameName: bool,
    includeMenuName: bool)

  /** The menus of the list that mention `name`, in list order (RenameParam.cs:300-306). */
  function MenusReferencing(menus: seq<Menu>, name: string): (r: seq<Menu>)
    ensures forall m :: m in r <==> m in menus && MenuReferences(m, name)
    ensures forall m :: multiset(r)[m] == if MenuReferences(m, name) then multiset(menus)[m] else 0
    ensures IsSubsequence(r, menus)
  {
    RemoveAll(menus, (m: Menu) => !MenuReferences(m, name))
  }

  /** The position of the last control that mentions `name`, or -1. */
  function LastReferencing(cs: seq<Control>, name: string): (r: int)
    ensures -1 <= r < |cs|
    ensures r == -1 <==> forall j :: 0 <= j < |cs| ==> !ControlReferences(cs[j], name)
    ensures 0 <= r ==> ControlReferences(cs[r], name) && forall j :: r < j < |cs| ==> !ControlReferences(cs[j], name)
  {
    if cs == [] then -1
    else if ControlReferences(cs[|cs| - 1], name) then |cs| - 1
    else LastReferencing(cs[..|cs| - 1], name)
  }

  /** The part between the folder and the label: the first menu's name and a '/', when the
      toggle asks for it and the parameter name does not already contain the menu name. */
  function MenuPart(name: string, menuName: string, includeMenuName: bool): string
  {
    if Contains(name, menuName) || !includeMenuName then "" else menuName + "/"
  }

  /** The recommended name (RenameParam.cs:309-325): the parameter's own name when no menu
      mentions it; otherwise its folder, the optional menu part, and the label of the last
      control of the first menu that mentions it. */
  function RecommendedName(name: string, menus: seq<Menu>, includeMenuName: bool): (r: string)
    requires menus != [] ==> MenuReferences(menus[0], name)
    ensures menus == [] ==> r == name
    ensures menus != [] ==>
              exists j :: 0 <= j < |menus[0].controls|
                && ControlReferences(menus[0].controls[j], name)
                && (forall k :: j < k < |menus[0].controls| ==> !ControlReferences(menus[0].controls[k], name))
                && r == GetSubstringBeforeLastSlash(name) + MenuPart(name, menus[0].name, includeMenuName)
                        + menus[0].controls[j].name
  {
    if menus == [] then name
    else
      var first := menus[0];
      var j := LastReferencing(first.controls, name);
      GetSubstringBeforeLastSlash(name) + MenuPart(name, first.name, includeMenuName) + first.controls[j].name
  }

  /** Extending the scanned prefix by one control moves the last match there exactly when
      that control mentions the name. */
  lemma LastReferencingStep(cs: seq<Control>, i: int, name: string)
    requires 0 <= i < |cs|
    ensures LastReferencing(cs[..i + 1], name)
         == if ControlReferences(cs[i], name) then i else LastReferencing(cs[..i], name)
  {
    assert cs[..i + 1][..i] == cs[..i];
  }

  /** The loop of RenameParam.cs:309-325 as written: every matching control of the first menu
      overwrites the recommendation, so the last one wins. */
  method RecommendName(name: string, menus: seq<Menu>, includeMenuName: bool) returns (r: string)
    requires menus != [] ==> MenuReferences(menus[0], name)
    ensures r == RecommendedName(name, menus, includeMenuName)
  {
    if menus == [] {
      r := name;
      return;
    }
    var first := menus[0];
    var folder := GetSubstringBeforeLastSlash(name);
    r := "";  // unset until a control matches; the first menu always has one
    var last := -1;
    var i := 0;
    while i < |first.controls|
      invariant 0 <= i <= |first.controls|
      invariant last == LastReferencing(first.controls[..i], name)
      invariant 0 <= last ==> r == folder + MenuPart(name, first.name, includeMenuName) + first.controls[last].name
    {
      var control := first.controls[i];
      LastReferencingStep(first.controls, i, name);
      if control.parameter == name || name in control.subParameters {
        if Contains(name, first.name) || !includeMenuName {
          r := folder + control.name;
        } else {
          r := folder + first.name + "/" + control.name;
          assert r == folder + (first.name + "/") + control.name;
        }
        last := i;
      }
      i := i + 1;
    }
    assert first.controls[..i] == first.controls;
  }

  /** One row of the table before filtering. */
  function BuildCandidate(name: string, menus: seq<Menu>, includeMenuName: bool): (r: Candidate)
    ensures r.name == name
    ensures r.menus == MenusReferencing(menus, name)
    ensures r.menus != [] ==> MenuReferences(r.menus[0], name)
    ensures r.recommendedName == RecommendedName(name, r.menus, includeMenuName)
  {
    var ms := MenusReferencing(menus, name);
    assert ms != [] ==> ms[0] in ms;
    Candidate(name, ms, RecommendedName(name, ms, includeMenuName))
  }

  /** The rows for every FX parameter, in parameter order. */
  function BuildAll(names: seq<string>, menus: seq<Menu>, includeMenuName: bool): (r: seq<Candidate>)
    ensures |r| == |names|
    ensures forall i :: 0 <= i < |names| ==> r[i] == BuildCandidate(names[i], menus, includeMenuName)
  {
    seq(|names|, i requires 0 <= i < |names| => BuildCandidate(names[i], menus, includeMenuName))
  }

  /** The three filters of RenameParam.cs:330-339. */
  predicate Survives(e: Candidate, exclude: set<string>, opts: RefreshOptions)
  {
    && e.name !in exclude && e.recommendedName !in exclude
    && (opts.showParamsWithNoMenus || |e.menus| > 0)
    && (opts.showParamsWithSameName || e.name != e.recommendedName)
  }

  /** The three passes of RenameParam.cs:330-338 over the built rows: drop excluded rows,
      then rows without menus (unless shown), then rows whose recommendation equals their
      name (unless shown). A toggle that is on makes its pass drop nothing. */
  function FilterRows(all: seq<Candidate>, exclude: set<string>, opts: RefreshOptions): (r: seq<Candidate>)
    ensures forall e :: multiset(r)[e] == if Survives(e, exclude, opts) then multiset(all)[e] else 0
    ensures IsSubsequence(r, all)
  {
    var excluded := (e: Candidate) => e.name in exclude || e.recommendedName in exclude;
    var noMenus := (e: Candidate) => !opts.showParamsWithNoMenus && |e.menus| == 0;
    var sameName := (e: Candidate) => !opts.showParamsWithSameName && e.name == e.recommendedName;
    var kept := RemoveAll(all, excluded);
    var withMenus := RemoveAll(kept, noMenus);
    var r := RemoveAll(withMenus, sameName);
    assert forall e :: multiset(r)[e] == if Survives(e, exclude, opts) then multiset(all)[e] else 0 by {
      forall e ensures multiset(r)[e] == if Survives(e, exclude, opts) then multiset(all)[e] else 0 {
        assert Survives(e, exclude, opts) <==> !excluded(e) && !noMenus(e) && !sameName(e);
        assert multiset(kept)[e] == if excluded(e) then 0 else multiset(all)[e];
        assert multiset(withMenus)[e] == if noMenus(e) then 0 else multiset(kept)[e];
      }
    }
    SubsequenceTrans(r, withMenus, kept);
    SubsequenceTrans(r, kept, all);
    r
  }

  /** Refresh: one row per FX parameter, filtered. Every surviving row passes the filters,
      every built row that passes them survives with all its copies, and rows keep
      parameter order. */
  function Refresh(parameters: seq<Parameter>, menus: seq<Menu>, exclude: set<string>, opts: RefreshOptions)
    : (r: seq<Candidate>)
    ensures forall e :: e in r ==> e.name !in exclude && e.recommendedName !in exclude
    ensures !opts.showParamsWithNoMenus ==> forall e :: e in r ==> |e.menus| > 0
    ensures !opts.showParamsWithSameName ==> forall e :: e in r ==> e.name != e.recommendedName
    ensures forall e :: e in r <==> e in BuildAll(ParameterNames(parameters), menus, opts.includeMenuName) && Survives(e, exclude, opts)
    ensures forall e :: multiset(r)[e] ==
              if Survives(e, exclude, opts) then multiset(BuildAll(ParameterNames(parameters), menus, opts.includeMenuName))[e] else 0
    ensures IsSubsequence(r, BuildAll(ParameterNames(parameters), menus, opts.includeMenuName))
  {
    var all := BuildAll(ParameterNames(parameters), menus, opts.includeMenuName);
    var r := FilterRows(all, exclude, opts);
    assert forall e :: e in r <==> multiset(r)[e] > 0;
    assert forall e :: e in all <==> multiset(all)[e] > 0;
    r
  }

  /** A parameter has a row after Refresh exactly when it is an FX parameter whose row passes
      the three filters, and that row is the one built for it. */
  lemma RefreshRowFor(parameters: seq<Parameter>, menus: seq<Menu>, exclude: set<string>,
                      opts: RefreshOptions, n: string)
    ensures (exists e :: e in Refresh(parameters, menus, exclude, opts) && e.name == n)
        <==> n in ParameterNames(parameters) && Survives(BuildCandidate(n, menus, opts.includeMenuName), exclude, opts)
  {
    var names := ParameterNames(parameters);
    var all := BuildAll(names, menus, opts.includeMenuName);
    if n in names {
      var i :| 0 <= i < |names| && names[i] == n;
      assert all[i] == BuildCandidate(n, menus, opts.includeMenuName);
    }
  }
}
