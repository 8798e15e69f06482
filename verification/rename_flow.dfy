/** The Rename button of the window after the user confirms (RenameParam.cs:194-238): the FX
    controller, the expression-parameters list and the expression menus, in that order. */
module RenameFlow {
  import opened Names
  import opened Animator
  import opened Menus

  datatype ValueType = IntValue | FloatValue | BoolValue

  datatype ExpressionParameter = ExpressionParameter(
    name: string,
    valueType: ValueType,
    defaultValue: real,
    saved: bool)

  /** The names of the expression parameters, in list order. */
  function ExpressionNames(ps: seq<ExpressionParameter>): seq<string>
  {
    seq(|ps|, i requires 0 <= i < |ps| => ps[i].name)
  }

  /** RenameParam.cs:214: the first expression parameter named `from` takes the new name.
      The source dereferences the lookup unchecked, so the name must be present. */
  function RenameExpressionParameter(ps: seq<ExpressionParameter>, from: string, to: string)
    : (r: seq<ExpressionParameter>)
    requires from in ExpressionNames(ps)
    ensures ExpressionNames(r) == ReplaceFirst(ExpressionNames(ps), from, to)
    ensures |r| == |ps|
    ensures forall i :: 0 <= i < |ps| ==>
              r[i].valueType == ps[i].valueType && r[i].defaultValue == ps[i].defaultValue && r[i].saved == ps[i].saved
  {
    var k := IndexOf(ExpressionNames(ps), from);
    ps[k := ps[k].(name := to)]
  }

  /** What the window edits: the avatar's FX controller, expression parameters and main menu. */
  datatype Avatar = Avatar(fx: Controller, expressionParameters: seq<ExpressionParameter>, mainMenu: Menu)

  /** The confirmed Rename: the controller is renamed only if it declares `from`; the
      expression parameter and the menus are renamed regardless. The menus rewritten are
      those on the walk from the main menu, and a menu that does not mention `from` keeps its
      controls as they are. */
  method RenameButton(avatar: Avatar, from: string, to: string) returns (r: Avatar)
    requires from in ExpressionNames(avatar.expressionParameters)
    ensures from !in ParameterNames(avatar.fx.parameters) ==> r.fx == avatar.fx
    ensures ParameterNames(r.fx.parameters) == ReplaceFirst(ParameterNames(avatar.fx.parameters), from, to)
    ensures |r.fx.parameters| == |avatar.fx.parameters|
    ensures forall i :: 0 <= i < |avatar.fx.parameters| ==>
              r.fx.parameters[i].parameterType == avatar.fx.parameters[i].parameterType
    ensures from in ParameterNames(avatar.fx.parameters) ==>
              References(r.fx) == RenameEach(References(avatar.fx), from, to)
    ensures EraseLayers(r.fx.layers) == EraseLayers(avatar.fx.layers)
    ensures ExpressionNames(r.expressionParameters) == ReplaceFirst(ExpressionNames(avatar.expressionParameters), from, to)
    ensures |r.expressionParameters| == |avatar.expressionParameters|
    ensures forall i :: 0 <= i < |avatar.expressionParameters| ==>
              var p, q := r.expressionParameters[i], avatar.expressionParameters[i];
              p.valueType == q.valueType && p.defaultValue == q.defaultValue && p.saved == q.saved
    ensures MenuList(r.mainMenu) == RenameEachMenu(MenuList(avatar.mainMenu), from, to)
    ensures !TreeMentions(avatar.mainMenu, from) ==> r.mainMenu == avatar.mainMenu
  {
    var found, fx := RenameParameter(avatar.fx, from, to);
    var parameters := RenameExpressionParameter(avatar.expressionParameters, from, to);
    var mainMenu := RenameMenuTree(avatar.mainMenu, from, to);
    MenuListAfterRename(avatar.mainMenu, from, to);
    if !TreeMentions(avatar.mainMenu, from) {
      RenameUnmentionedTree(avatar.mainMenu, from, to);
    }
    r := Avatar(fx, parameters, mainMenu);
  }
}
