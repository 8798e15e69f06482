/** Expression menus as an inductive tree, the depth-first walk that lists them
    (RenameParam.cs:282-285, 342-357), and the menu side of a rename (RenameParam.cs:218-230). */
module Menus {
  import opened Wrappers
  import opened Names

  datatype ControlType = Button | Toggle | SubMenu | TwoAxisPuppet | FourAxisPuppet | RadialPuppet

  /** A menu control: its label, its kind, the parameter it drives, the parameters of its
      puppet axes, and the menu it opens (None for a null reference). */
  datatype Control = Control(
    name: string,
    controlType: ControlType,
    parameter: string,
    subParameters: seq<string>,
    subMenu: Option<Menu>)

  datatype Menu = Menu(name: string, controls: seq<Control>)

  /** The match of RenameParam.cs:302 and :313: the control's own parameter or one of its
      sub-parameters is exactly `n`. */
  predicate ControlReferences(c: Control, n: string)
  {
    c.parameter == n || n in c.subParameters
  }

  predicate MenuReferences(m: Menu, n: string)
  {
    exists j :: 0 <= j < |m.controls| && ControlReferences(m.controls[j], n)
  }

  /** The walk descends into a control only when it is a SubMenu control with a menu set. */
  predicate OpensSubMenu(c: Control)
  {
    c.controlType == SubMenu && c.subMenu.Some?
  }

  // ---------------------------------------------------------------------------------------
  // The menu list
  // ---------------------------------------------------------------------------------------

  /** GetSubMenus: the menus below `m`, each followed by the menus below it. */
  function GetSubMenus(m: Menu): seq<Menu>
    decreases m, 1
  {
    SubMenusOf(m.controls)
  }

  function SubMenusOf(cs: seq<Control>): seq<Menu>
    decreases cs
  {
    if cs == [] then []
    else
      var c := cs[0];
      assert cs decreases to c;
      (if OpensSubMenu(c) then MenuList(c.subMenu.value) else []) + SubMenusOf(cs[1..])
  }

  /** The list SetVars starts with the main menu and GetSubMenus extends. */
  function MenuList(main: Menu): (r: seq<Menu>)
    ensures |r| > 0 && r[0] == main
    decreases main, 2
  {
    [main] + GetSubMenus(main)
  }

  /** The menu reached from `m` by opening the sub-menu controls at the positions of `path`
      in turn, if every step opens one. */
  function Follow(m: Menu, path: seq<int>): Option<Menu>
    decreases |path|
  {
    if path == [] then Some(m)
    else if 0 <= path[0] < |m.controls| && OpensSubMenu(m.controls[path[0]]) then
      Follow(m.controls[path[0]].subMenu.value, path[1..])
    else None
  }

  /** The sub-menu lists are the lists of the sub-menus the controls open. */
  lemma {:induction false} SubMenusOfMember(cs: seq<Control>, x: Menu)
    ensures x in SubMenusOf(cs) <==>
            exists j :: 0 <= j < |cs| && OpensSubMenu(cs[j]) && x in MenuList(cs[j].subMenu.value)
  {
    if cs != [] {
      SubMenusOfMember(cs[1..], x);
      if exists j :: 0 <= j < |cs[1..]| && OpensSubMenu(cs[1..][j]) && x in MenuList(cs[1..][j].subMenu.value) {
        var j :| 0 <= j < |cs[1..]| && OpensSubMenu(cs[1..][j]) && x in MenuList(cs[1..][j].subMenu.value);
        assert cs[j + 1] == cs[1..][j];
      }
      if exists j :: 0 <= j < |cs| && OpensSubMenu(cs[j]) && x in MenuList(cs[j].subMenu.value) {
        var j :| 0 <= j < |cs| && OpensSubMenu(cs[j]) && x in MenuList(cs[j].subMenu.value);
        if j > 0 {
          assert cs[1..][j - 1] == cs[j];
        }
      }
    }
  }

  /** A menu reached along a path is on the list. */
  lemma {:induction false} FollowedMenuIsListed(m: Menu, path: seq<int>, x: Menu)
    requires Follow(m, path) == Some(x)
    ensures x in MenuList(m)
    decreases |path|
  {
    if path != [] {
      var j := path[0];
      var sub := m.controls[j].subMenu.value;
      FollowedMenuIsListed(sub, path[1..], x);
      SubMenusOfMember(m.controls, x);
      assert MenuList(m) == [m] + SubMenusOf(m.controls);
    }
  }

  /** A listed menu is reached along some path; the path is returned. */
  lemma {:induction false} ListedMenuIsFollowed(m: Menu, x: Menu) returns (path: seq<int>)
    requires x in MenuList(m)
    ensures Follow(m, path) == Some(x)
    decreases m
  {
    if x == m {
      path := [];
    } else {
      assert MenuList(m) == [m] + SubMenusOf(m.controls);
      SubMenusOfMember(m.controls, x);
      var j :| 0 <= j < |m.controls| && OpensSubMenu(m.controls[j]) && x in MenuList(m.controls[j].subMenu.value);
      var sub := m.controls[j].subMenu.value;
      assert m decreases to sub by { assert m decreases to m.controls[j]; }
      var rest := ListedMenuIsFollowed(sub, x);
      path := [j] + rest;
      assert path[1..] == rest;
    }
  }

  /** The menu list holds exactly the menus reachable from the main menu through sub-menu
      controls, the main menu included. */
  lemma MenuListIsReachable(m: Menu, x: Menu)
    ensures x in MenuList(m) <==> exists path :: Follow(m, path) == Some(x)
  {
    if x in MenuList(m) {
      var path := ListedMenuIsFollowed(m, x);
    }
    if exists path :: Follow(m, path) == Some(x) {
      var path :| Follow(m, path) == Some(x);
      FollowedMenuIsListed(m, path, x);
    }
  }

  // ---------------------------------------------------------------------------------------
  // The menu side of a rename
  // ---------------------------------------------------------------------------------------

  /** RenameParam.cs:222-229 for one control: when its own parameter is `from`, only that is
      renamed; otherwise only the first sub-parameter equal to `from` is; a control that does
      not mention `from` stays as it is. Label, kind and sub-menu never change. */
  function RenameControl(c: Control, from: string, to: string): (r: Control)
    ensures r.name == c.name && r.controlType == c.controlType && r.subMenu == c.subMenu
    ensures c.parameter == from ==> r.parameter == to && r.subParameters == c.subParameters
    ensures c.parameter != from ==>
              r.parameter == c.parameter && r.subParameters == ReplaceFirst(c.subParameters, from, to)
    ensures !ControlReferences(c, from) ==> r == c
  {
    if c.parameter == from then c.(parameter := to)
    else if from in c.subParameters then c.(subParameters := ReplaceFirst(c.subParameters, from, to))
    else c
  }

  /** Renaming a control to a name it does not mention, and back, restores it. */
  lemma RenameControlRoundTrip(c: Control, from: string, to: string)
    requires !ControlReferences(c, to)
    ensures RenameControl(RenameControl(c, from, to), to, from) == c
  {
    if c.parameter != from {
      ReplaceFirstRoundTrip(c.subParameters, from, to);
    }
  }

  /** The rename applied to every menu on the walk: each control of each listed menu goes
      through RenameControl; sub-menus the walk does not enter are left alone. */
  function RenameMenuTree(m: Menu, from: string, to: string): (r: Menu)
    ensures r.name == m.name && |r.controls| == |m.controls|
    ensures forall j :: 0 <= j < |m.controls| ==>
              r.controls[j].(subMenu := m.controls[j].subMenu) == RenameControl(m.controls[j], from, to)
    decreases m, 1
  {
    Menu(m.name, RenameControlsInTree(m.controls, from, to))
  }

  function RenameControlsInTree(cs: seq<Control>, from: string, to: string): (r: seq<Control>)
    ensures |r| == |cs|
    ensures forall j :: 0 <= j < |cs| ==> r[j].(subMenu := cs[j].subMenu) == RenameControl(cs[j], from, to)
    ensures forall j :: 0 <= j < |cs| ==> OpensSubMenu(r[j]) == OpensSubMenu(cs[j])
    ensures forall j :: 0 <= j < |cs| && !OpensSubMenu(cs[j]) ==> r[j] == RenameControl(cs[j], from, to)
    decreases cs
  {
    if cs == [] then []
    else
      var c := cs[0];
      assert cs decreases to c;
      var renamed := RenameControl(c, from, to);
      var head := if OpensSubMenu(c) then renamed.(subMenu := Some(RenameMenuTree(c.subMenu.value, from, to)))
                  else renamed;
      [head] + RenameControlsInTree(cs[1..], from, to)
  }

  function RenameEachMenu(ms: seq<Menu>, from: string, to: string): (r: seq<Menu>)
    ensures |r| == |ms|
    ensures forall i :: 0 <= i < |ms| ==> r[i] == RenameMenuTree(ms[i], from, to)
  {
    seq(|ms|, i requires 0 <= i < |ms| => RenameMenuTree(ms[i], from, to))
  }

  /** The walk over the renamed tree meets the renamed menus, in the same order: the rename
      touches exactly the menus on the list, each once. */
  lemma {:induction false} MenuListAfterRename(m: Menu, from: string, to: string)
    ensures MenuList(RenameMenuTree(m, from, to)) == RenameEachMenu(MenuList(m), from, to)
    decreases m, 1
  {
    SubMenusAfterRename(m.controls, from, to);
    assert MenuList(m) == [m] + SubMenusOf(m.controls);
  }

  lemma {:induction false} SubMenusAfterRename(cs: seq<Control>, from: string, to: string)
    ensures SubMenusOf(RenameControlsInTree(cs, from, to)) == RenameEachMenu(SubMenusOf(cs), from, to)
    decreases cs
  {
    if cs != [] {
      var c := cs[0];
      assert cs decreases to c;
      var rs := RenameControlsInTree(cs, from, to);
      assert rs[1..] == RenameControlsInTree(cs[1..], from, to);
      SubMenusAfterRename(cs[1..], from, to);
      if OpensSubMenu(c) {
        MenuListAfterRename(c.subMenu.value, from, to);
      }
    }
  }

  /** Some menu on the walk from `m` has a control that mentions `n`. */
  predicate TreeMentions(m: Menu, n: string)
  {
    exists x :: x in MenuList(m) && MenuReferences(x, n)
  }

  /** A tree that does not mention `n` has no control mentioning it, and neither do the trees
      below its sub-menu controls. */
  lemma UnmentionedParts(m: Menu, n: string)
    requires !TreeMentions(m, n)
    ensures forall j :: 0 <= j < |m.controls| ==> !ControlReferences(m.controls[j], n)
    ensures forall j :: 0 <= j < |m.controls| && OpensSubMenu(m.controls[j]) ==>
              !TreeMentions(m.controls[j].subMenu.value, n)
  {
    assert m in MenuList(m);
    forall j, x | 0 <= j < |m.controls| && OpensSubMenu(m.controls[j]) && x in MenuList(m.controls[j].subMenu.value)
      ensures x in MenuList(m)
    {
      SubMenusOfMember(m.controls, x);
      assert MenuList(m) == [m] + SubMenusOf(m.controls);
    }
  }

  /** A tree that does not mention `from` comes back unchanged. */
  lemma {:induction false} RenameUnmentionedTree(m: Menu, from: string, to: string)
    requires !TreeMentions(m, from)
    ensures RenameMenuTree(m, from, to) == m
    decreases m, 1
  {
    UnmentionedParts(m, from);
    RenameUnmentionedControls(m.controls, from, to);
  }

  lemma {:induction false} RenameUnmentionedControls(cs: seq<Control>, from: string, to: string)
    requires forall j :: 0 <= j < |cs| ==> !ControlReferences(cs[j], from)
    requires forall j :: 0 <= j < |cs| && OpensSubMenu(cs[j]) ==> !TreeMentions(cs[j].subMenu.value, from)
    ensures RenameControlsInTree(cs, from, to) == cs
    decreases cs
  {
    if cs != [] {
      var c := cs[0];
      assert cs decreases to c;
      RenameUnmentionedControls(cs[1..], from, to);
      if OpensSubMenu(c) {
        RenameUnmentionedTree(c.subMenu.value, from, to);
      }
      assert cs == [c] + cs[1..];
    }
  }

  /** Renaming to a name no menu on the walk mentions, and back, restores the tree. */
  lemma {:induction false} RenameMenuTreeRoundTrip(m: Menu, from: string, to: string)
    requires !TreeMentions(m, to)
    ensures RenameMenuTree(RenameMenuTree(m, from, to), to, from) == m
    decreases m, 1
  {
    UnmentionedParts(m, to);
    RenameControlsRoundTrip(m.controls, from, to);
  }

  lemma {:induction false} RenameControlsRoundTrip(cs: seq<Control>, from: string, to: string)
    requires forall j :: 0 <= j < |cs| ==> !ControlReferences(cs[j], to)
    requires forall j :: 0 <= j < |cs| && OpensSubMenu(cs[j]) ==> !TreeMentions(cs[j].subMenu.value, to)
    ensures RenameControlsInTree(RenameControlsInTree(cs, from, to), to, from) == cs
    decreases cs
  {
    if cs != [] {
      var c := cs[0];
      assert cs decreases to c;
      var once := RenameControlsInTree(cs, from, to);
      var twice := RenameControlsInTree(once, to, from);
      assert once[1..] == RenameControlsInTree(cs[1..], from, to);
      assert twice[1..] == RenameControlsInTree(once[1..], to, from);
      RenameControlsRoundTrip(cs[1..], from, to);
      RenameControlRoundTrip(c, from, to);
      var back := RenameControl(RenameControl(c, from, to), to, from);
      if OpensSubMenu(c) {
        var sub := c.subMenu.value;
        RenameMenuTreeRoundTrip(sub, from, to);
        assert once[0] == RenameControl(c, from, to).(subMenu := Some(RenameMenuTree(sub, from, to)));
        assert twice[0] == back.(subMenu := Some(RenameMenuTree(RenameMenuTree(sub, from, to), to, from)));
      } else {
        assert once[0] == RenameControl(c, from, to);
      }
      assert twice[0] == c;
      assert cs == [c] + cs[1..] && twice == [twice[0]] + twice[1..];
    }
  }
}
