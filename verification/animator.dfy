/** The FX animator controller as a plain value, and the rename traversal over it
    (Editor/RenameParam/RenameParam.cs:374-487). */
module Animator {
  import opened Seqs
  import opened Names

  datatype ConditionMode = If | IfNot | Greater | Less | Equals | NotEqual

  /** A transition condition: it tests the parameter named `parameter`. */
  datatype Condition = Condition(mode: ConditionMode, parameter: string, threshold: real)

  datatype Transition = Transition(destination: string, conditions: seq<Condition>)

  /** What a state plays: nothing, an animation clip, or a blend tree whose X and Y axes are
      parameter names and whose children are motions again. */
  datatype Motion =
    | NoMotion
    | Clip(clipName: string)
    | BlendTree(treeName: string, blendParameter: string, blendParameterY: string, children: seq<ChildMotion>)

  datatype ChildMotion = ChildMotion(motion: Motion, threshold: real)

  datatype State = State(name: string, transitions: seq<Transition>, motion: Motion)

  datatype StateMachine = StateMachine(
    name: string,
    states: seq<State>,
    anyStateTransitions: seq<Transition>,
    stateMachines: seq<StateMachine>)

  datatype Layer = Layer(name: string, stateMachine: StateMachine)

  datatype ParameterType = Float | Int | Bool | Trigger

  datatype Parameter = Parameter(name: string, parameterType: ParameterType)

  datatype Controller = Controller(parameters: seq<Parameter>, layers: seq<Layer>)

  function ParameterNames(ps: seq<Parameter>): (r: seq<string>)
    ensures |r| == |ps|
    ensures forall i :: 0 <= i < |ps| ==> r[i] == ps[i].name
  {
    seq(|ps|, i requires 0 <= i < |ps| => ps[i].name)
  }

  // ---------------------------------------------------------------------------------------
  // References: every parameter name the layers mention, in traversal order. Conditions of
  // state transitions, of any-state transitions and of nested machines, and both axes of
  // every blend tree at every depth.
  // ---------------------------------------------------------------------------------------

  function RefsConditions(cs: seq<Condition>): seq<string>
  {
    if cs == [] then [] else [cs[0].parameter] + RefsConditions(cs[1..])
  }

  function RefsTransitions(ts: seq<Transition>): seq<string>
  {
    if ts == [] then [] else RefsConditions(ts[0].conditions) + RefsTransitions(ts[1..])
  }

  function RefsMotion(m: Motion): seq<string>
    decreases m, 1
  {
    match m
    case BlendTree(_, x, y, children) => [x, y] + RefsChildMotions(children)
    case _ => []
  }

  function RefsChildMotions(children: seq<ChildMotion>): seq<string>
    decreases children
  {
    if children == [] then []
    else
      var c := children[0];
      assert children decreases to c.motion by { assert children decreases to c; }
      RefsMotion(c.motion) + RefsChildMotions(children[1..])
  }

  function RefsStates(ss: seq<State>): seq<string>
  {
    if ss == [] then []
    else RefsTransitions(ss[0].transitions) + RefsMotion(ss[0].motion) + RefsStates(ss[1..])
  }

  function RefsStateMachine(sm: StateMachine): seq<string>
    decreases sm, 1
  {
    RefsStates(sm.states) + RefsTransitions(sm.anyStateTransitions) + RefsStateMachines(sm.stateMachines)
  }

  function RefsStateMachines(ms: seq<StateMachine>): seq<string>
    decreases ms
  {
    if ms == [] then [] else RefsStateMachine(ms[0]) + RefsStateMachines(ms[1..])
  }

  function RefsLayers(ls: seq<Layer>): seq<string>
  {
    if ls == [] then [] else RefsStateMachine(ls[0].stateMachine) + RefsLayers(ls[1..])
  }

  function References(c: Controller): seq<string>
  {
    RefsLayers(c.layers)
  }

  // ---------------------------------------------------------------------------------------
  // Erasure: the same graph with every parameter reference blanked. Two controllers with the
  // same erasure have the same layers, states, transitions, conditions, motions, thresholds,
  // modes and names, and differ at most in which parameters they reference.
  // ---------------------------------------------------------------------------------------

  function EraseConditions(cs: seq<Condition>): (r: seq<Condition>)
    ensures |r| == |cs|
  {
    if cs == [] then [] else [cs[0].(parameter := "")] + EraseConditions(cs[1..])
  }

  function EraseTransitions(ts: seq<Transition>): (r: seq<Transition>)
    ensures |r| == |ts|
  {
    if ts == [] then []
    else [ts[0].(conditions := EraseConditions(ts[0].conditions))] + EraseTransitions(ts[1..])
  }

  function EraseMotion(m: Motion): Motion
    decreases m, 1
  {
    match m
    case BlendTree(n, _, _, children) => BlendTree(n, "", "", EraseChildMotions(children))
    case _ => m
  }

  function EraseChildMotions(children: seq<ChildMotion>): (r: seq<ChildMotion>)
    ensures |r| == |children|
    decreases children
  {
    if children == [] then []
    else
      var c := children[0];
      assert children decreases to c.motion by { assert children decreases to c; }
      [c.(motion := EraseMotion(c.motion))] + EraseChildMotions(children[1..])
  }

  function EraseStates(ss: seq<State>): (r: seq<State>)
    ensures |r| == |ss|
  {
    if ss == [] then []
    else [State(ss[0].name, EraseTransitions(ss[0].transitions), EraseMotion(ss[0].motion))] + EraseStates(ss[1..])
  }

  function EraseStateMachine(sm: StateMachine): StateMachine
    decreases sm, 1
  {
    StateMachine(sm.name, EraseStates(sm.states), EraseTransitions(sm.anyStateTransitions),
                 EraseStateMachines(sm.stateMachines))
  }

  function EraseStateMachines(ms: seq<StateMachine>): (r: seq<StateMachine>)
    ensures |r| == |ms|
    decreases ms
  {
    if ms == [] then [] else [EraseStateMachine(ms[0])] + EraseStateMachines(ms[1..])
  }

  function EraseLayers(ls: seq<Layer>): (r: seq<Layer>)
    ensures |r| == |ls|
  {
    if ls == [] then []
    else [ls[0].(stateMachine := EraseStateMachine(ls[0].stateMachine))] + EraseLayers(ls[1..])
  }

  function Erase(c: Controller): Controller
  {
    c.(layers := EraseLayers(c.layers))
  }

  // ---------------------------------------------------------------------------------------
  // Census: how many layers, states, transitions and conditions a part of the graph holds,
  // nested state machines included.
  // ---------------------------------------------------------------------------------------

  datatype Census = Census(layers: nat, states: nat, transitions: nat, conditions: nat)
  {
    function Plus(other: Census): Census
    {
      Census(layers + other.layers, states + other.states,
             transitions + other.transitions, conditions + other.conditions)
    }
  }

  function CensusTransitions(ts: seq<Transition>): Census
  {
    if ts == [] then Census(0, 0, 0, 0)
    else Census(0, 0, 1, |ts[0].conditions|).Plus(CensusTransitions(ts[1..]))
  }

  function CensusStates(ss: seq<State>): Census
  {
    if ss == [] then Census(0, 0, 0, 0)
    else Census(0, 1, 0, 0).Plus(CensusTransitions(ss[0].transitions)).Plus(CensusStates(ss[1..]))
  }

  function CensusStateMachine(sm: StateMachine): Census
    decreases sm, 1
  {
    CensusStates(sm.states).Plus(CensusTransitions(sm.anyStateTransitions)).Plus(CensusStateMachines(sm.stateMachines))
  }

  function CensusStateMachines(ms: seq<StateMachine>): Census
    decreases ms
  {
    if ms == [] then Census(0, 0, 0, 0) else CensusStateMachine(ms[0]).Plus(CensusStateMachines(ms[1..]))
  }

  function CensusLayers(ls: seq<Layer>): Census
  {
    if ls == [] then Census(0, 0, 0, 0)
    else Census(1, 0, 0, 0).Plus(CensusStateMachine(ls[0].stateMachine)).Plus(CensusLayers(ls[1..]))
  }

  function ControllerCensus(c: Controller): Census
  {
    CensusLayers(c.layers)
  }

  // ---------------------------------------------------------------------------------------
  // The reference traversal (RenameParam.cs:415-487), with the condition write-back that
  // UpdateTransitionConditions evidently intends (see UpdateTransitionConditionsAsWritten).
  // Each step renames exactly the references it visits and leaves the erasure alone.
  // ---------------------------------------------------------------------------------------

  /** The loop over `transition.conditions`. */
  function UpdateConditionList(cs: seq<Condition>, from: string, to: string): (r: seq<Condition>)
    ensures RefsConditions(r) == RenameEach(RefsConditions(cs), from, to)
    ensures |r| == |cs|
    ensures EraseConditions(r) == EraseConditions(cs)
  {
    if cs == [] then []
    else
      var rest := UpdateConditionList(cs[1..], from, to);
      var r := [cs[0].(parameter := Rename(cs[0].parameter, from, to))] + rest;
      assert r[1..] == rest;
      RenameEachConcat([cs[0].parameter], RefsConditions(cs[1..]), from, to);
      r
  }

  /** UpdateTransitionConditions with the renamed conditions stored back into the transition. */
  function UpdateTransitionConditions(t: Transition, from: string, to: string): (r: Transition)
    ensures RefsConditions(r.conditions) == RenameEach(RefsConditions(t.conditions), from, to)
    ensures |r.conditions| == |t.conditions|
    ensures r.destination == t.destination
    ensures EraseConditions(r.conditions) == EraseConditions(t.conditions)
  {
    t.(conditions := UpdateConditionList(t.conditions, from, to))
  }

  /** As written: each condition is read into a local, the local's parameter is reassigned,
      and the local is dropped. `AnimatorCondition` is a value type and `conditions` hands out
      a copy of the array, so the renamed copies (what `UpdateConditionList` computes) are
      discarded and the transition comes back exactly as it was, old references included. */
  function UpdateTransitionConditionsAsWritten(t: Transition, from: string, to: string): (r: Transition)
    ensures r == t
    ensures RefsConditions(r.conditions) == RefsConditions(t.conditions)
  {
    t
  }

  /** The loops over `state.transitions` and over `anyStateTransitions`. */
  function UpdateTransitionList(ts: seq<Transition>, from: string, to: string): (r: seq<Transition>)
    ensures RefsTransitions(r) == RenameEach(RefsTransitions(ts), from, to)
    ensures CensusTransitions(r) == CensusTransitions(ts)
    ensures EraseTransitions(r) == EraseTransitions(ts)
  {
    if ts == [] then []
    else
      var rest := UpdateTransitionList(ts[1..], from, to);
      var r := [UpdateTransitionConditions(ts[0], from, to)] + rest;
      assert r[1..] == rest;
      RenameEachConcat(RefsConditions(ts[0].conditions), RefsTransitions(ts[1..]), from, to);
      r
  }

  function UpdateStateTransitions(s: State, from: string, to: string): (r: State)
    ensures RefsTransitions(r.transitions) == RenameEach(RefsTransitions(s.transitions), from, to)
    ensures CensusTransitions(r.transitions) == CensusTransitions(s.transitions)
    ensures r.name == s.name && r.motion == s.motion
    ensures EraseTransitions(r.transitions) == EraseTransitions(s.transitions)
  {
    s.(transitions := UpdateTransitionList(s.transitions, from, to))
  }

  /** A blend tree has both axes renamed independently and its children handled at every
      depth; any other motion is returned as it is. */
  function UpdateBlendTreeReferences(m: Motion, from: string, to: string): (r: Motion)
    ensures RefsMotion(r) == RenameEach(RefsMotion(m), from, to)
    ensures EraseMotion(r) == EraseMotion(m)
    ensures !m.BlendTree? ==> r == m
    decreases m, 1
  {
    match m
    case BlendTree(n, x, y, children) =>
      var r := BlendTree(n, Rename(x, from, to), Rename(y, from, to), UpdateChildMotions(children, from, to));
      RenameEachConcat([x, y], RefsChildMotions(children), from, to);
      r
    case _ => m
  }

  function UpdateChildMotions(children: seq<ChildMotion>, from: string, to: string): (r: seq<ChildMotion>)
    ensures RefsChildMotions(r) == RenameEach(RefsChildMotions(children), from, to)
    ensures EraseChildMotions(r) == EraseChildMotions(children)
    decreases children
  {
    if children == [] then []
    else
      var c := children[0];
      assert children decreases to c.motion by { assert children decreases to c; }
      var rest := UpdateChildMotions(children[1..], from, to);
      var r := [c.(motion := UpdateBlendTreeReferences(c.motion, from, to))] + rest;
      assert r[1..] == rest;
      RenameEachConcat(RefsMotion(children[0].motion), RefsChildMotions(children[1..]), from, to);
      r
  }

  /** The loop over `stateMachine.states`: transitions first, then the state's motion. */
  function UpdateStates(ss: seq<State>, from: string, to: string): (r: seq<State>)
    ensures RefsStates(r) == RenameEach(RefsStates(ss), from, to)
    ensures CensusStates(r) == CensusStates(ss)
    ensures EraseStates(r) == EraseStates(ss)
  {
    if ss == [] then []
    else
      var s := UpdateStateTransitions(ss[0], from, to);
      var rest := UpdateStates(ss[1..], from, to);
      var r := [s.(motion := UpdateBlendTreeReferences(s.motion, from, to))] + rest;
      assert r[1..] == rest;
      RenameEachConcat(RefsTransitions(ss[0].transitions), RefsMotion(ss[0].motion), from, to);
      RenameEachConcat(RefsTransitions(ss[0].transitions) + RefsMotion(ss[0].motion), RefsStates(ss[1..]), from, to);
      r
  }

  function UpdateStateMachine(sm: StateMachine, from: string, to: string): (r: StateMachine)
    ensures RefsStateMachine(r) == RenameEach(RefsStateMachine(sm), from, to)
    ensures CensusStateMachine(r) == CensusStateMachine(sm)
    ensures EraseStateMachine(r) == EraseStateMachine(sm)
    decreases sm, 1
  {
    var r := StateMachine(
      sm.name,
      UpdateStates(sm.states, from, to),
      UpdateTransitionList(sm.anyStateTransitions, from, to),
      UpdateStateMachines(sm.stateMachines, from, to));
    RenameEachConcat(RefsStates(sm.states), RefsTransitions(sm.anyStateTransitions), from, to);
    RenameEachConcat(RefsStates(sm.states) + RefsTransitions(sm.anyStateTransitions),
                     RefsStateMachines(sm.stateMachines), from, to);
    r
  }

  /** The loop over `stateMachine.stateMachines`. */
  function UpdateStateMachines(ms: seq<StateMachine>, from: string, to: string): (r: seq<StateMachine>)
    ensures RefsStateMachines(r) == RenameEach(RefsStateMachines(ms), from, to)
    ensures CensusStateMachines(r) == CensusStateMachines(ms)
    ensures EraseStateMachines(r) == EraseStateMachines(ms)
    decreases ms
  {
    if ms == [] then []
    else
      var rest := UpdateStateMachines(ms[1..], from, to);
      var r := [UpdateStateMachine(ms[0], from, to)] + rest;
      assert r[1..] == rest;
      RenameEachConcat(RefsStateMachine(ms[0]), RefsStateMachines(ms[1..]), from, to);
      r
  }

  function UpdateLayers(ls: seq<Layer>, from: string, to: string): (r: seq<Layer>)
    ensures RefsLayers(r) == RenameEach(RefsLayers(ls), from, to)
    ensures CensusLayers(r) == CensusLayers(ls)
    ensures EraseLayers(r) == EraseLayers(ls)
  {
    if ls == [] then []
    else
      var rest := UpdateLayers(ls[1..], from, to);
      var r := [ls[0].(stateMachine := UpdateStateMachine(ls[0].stateMachine, from, to))] + rest;
      assert r[1..] == rest;
      RenameEachConcat(RefsStateMachine(ls[0].stateMachine), RefsLayers(ls[1..]), from, to);
      r
  }

  /** UpdateAllReferences: every reference in every layer is put through the rename, and the
      controller is otherwise unchanged, its parameter list included. */
  function UpdateAllReferences(c: Controller, from: string, to: string): (r: Controller)
    ensures References(r) == RenameEach(References(c), from, to)
    ensures ControllerCensus(r) == ControllerCensus(c)
    ensures Erase(r) == Erase(c)
  {
    c.(layers := UpdateLayers(c.layers, from, to))
  }

  // ---------------------------------------------------------------------------------------
  // A graph is determined by its erasure and its references, so the two ensures of
  // UpdateAllReferences pin its result down completely.
  // ---------------------------------------------------------------------------------------

  lemma {:induction false} ConditionsDetermined(cs: seq<Condition>, ds: seq<Condition>)
    requires EraseConditions(cs) == EraseConditions(ds)
    ensures |RefsConditions(cs)| == |RefsConditions(ds)|
    ensures RefsConditions(cs) == RefsConditions(ds) ==> cs == ds
  {
    if cs != [] {
      assert EraseConditions(cs)[1..] == EraseConditions(cs[1..]);
      assert EraseConditions(ds)[1..] == EraseConditions(ds[1..]);
      ConditionsDetermined(cs[1..], ds[1..]);
      if RefsConditions(cs) == RefsConditions(ds) {
        ConcatSplit([cs[0].parameter], RefsConditions(cs[1..]), [ds[0].parameter], RefsConditions(ds[1..]));
        assert cs == [cs[0]] + cs[1..] && ds == [ds[0]] + ds[1..];
      }
    }
  }

  lemma {:induction false} TransitionsDetermined(ts: seq<Transition>, us: seq<Transition>)
    requires EraseTransitions(ts) == EraseTransitions(us)
    ensures |RefsTransitions(ts)| == |RefsTransitions(us)|
    ensures RefsTransitions(ts) == RefsTransitions(us) ==> ts == us
  {
    if ts != [] {
      assert EraseTransitions(ts)[0] == EraseTransitions(us)[0];
      assert EraseTransitions(ts)[1..] == EraseTransitions(ts[1..]);
      assert EraseTransitions(us)[1..] == EraseTransitions(us[1..]);
      ConditionsDetermined(ts[0].conditions, us[0].conditions);
      TransitionsDetermined(ts[1..], us[1..]);
      if RefsTransitions(ts) == RefsTransitions(us) {
        ConcatSplit(RefsConditions(ts[0].conditions), RefsTransitions(ts[1..]),
                    RefsConditions(us[0].conditions), RefsTransitions(us[1..]));
        assert ts == [ts[0]] + ts[1..] && us == [us[0]] + us[1..];
      }
    }
  }

  lemma {:induction false} MotionDetermined(m: Motion, n: Motion)
    requires EraseMotion(m) == EraseMotion(n)
    ensures |RefsMotion(m)| == |RefsMotion(n)|
    ensures RefsMotion(m) == RefsMotion(n) ==> m == n
    decreases m, 1
  {
    match m
    case BlendTree(_, x, y, children) =>
      assert n.BlendTree?;
      ChildMotionsDetermined(children, n.children);
      if RefsMotion(m) == RefsMotion(n) {
        ConcatSplit([x, y], RefsChildMotions(children),
                    [n.blendParameter, n.blendParameterY], RefsChildMotions(n.children));
      }
    case _ =>
  }

  lemma {:induction false} ChildMotionsDetermined(children: seq<ChildMotion>, others: seq<ChildMotion>)
    requires EraseChildMotions(children) == EraseChildMotions(others)
    ensures |RefsChildMotions(children)| == |RefsChildMotions(others)|
    ensures RefsChildMotions(children) == RefsChildMotions(others) ==> children == others
    decreases children
  {
    if children != [] {
      var c := children[0];
      assert children decreases to c.motion by { assert children decreases to c; }
      assert EraseChildMotions(children)[0] == EraseChildMotions(others)[0];
      assert EraseChildMotions(children)[1..] == EraseChildMotions(children[1..]);
      assert EraseChildMotions(others)[1..] == EraseChildMotions(others[1..]);
      MotionDetermined(c.motion, others[0].motion);
      ChildMotionsDetermined(children[1..], others[1..]);
      if RefsChildMotions(children) == RefsChildMotions(others) {
        ConcatSplit(RefsMotion(c.motion), RefsChildMotions(children[1..]),
                    RefsMotion(others[0].motion), RefsChildMotions(others[1..]));
        assert children == [c] + children[1..] && others == [others[0]] + others[1..];
      }
    }
  }

  lemma {:induction false} StatesDetermined(ss: seq<State>, us: seq<State>)
    requires EraseStates(ss) == EraseStates(us)
    ensures |RefsStates(ss)| == |RefsStates(us)|
    ensures RefsStates(ss) == RefsStates(us) ==> ss == us
  {
    if ss != [] {
      var s, u := ss[0], us[0];
      assert EraseStates(ss)[0] == EraseStates(us)[0];
      assert s.name == u.name && EraseTransitions(s.transitions) == EraseTransitions(u.transitions)
          && EraseMotion(s.motion) == EraseMotion(u.motion);
      assert EraseStates(ss)[1..] == EraseStates(ss[1..]);
      assert EraseStates(us)[1..] == EraseStates(us[1..]);
      TransitionsDetermined(s.transitions, u.transitions);
      MotionDetermined(s.motion, u.motion);
      StatesDetermined(ss[1..], us[1..]);
      if RefsStates(ss) == RefsStates(us) {
        ConcatSplit(RefsTransitions(s.transitions) + RefsMotion(s.motion), RefsStates(ss[1..]),
                    RefsTransitions(u.transitions) + RefsMotion(u.motion), RefsStates(us[1..]));
        ConcatSplit(RefsTransitions(s.transitions), RefsMotion(s.motion),
                    RefsTransitions(u.transitions), RefsMotion(u.motion));
        assert s == u && ss[1..] == us[1..];
        assert ss == [s] + ss[1..] && us == [u] + us[1..];
      }
    }
  }

  lemma {:induction false} StateMachineDetermined(sm: StateMachine, other: StateMachine)
    requires EraseStateMachine(sm) == EraseStateMachine(other)
    ensures |RefsStateMachine(sm)| == |RefsStateMachine(other)|
    ensures RefsStateMachine(sm) == RefsStateMachine(other) ==> sm == other
    decreases sm, 1
  {
    StatesDetermined(sm.states, other.states);
    TransitionsDetermined(sm.anyStateTransitions, other.anyStateTransitions);
    StateMachinesDetermined(sm.stateMachines, other.stateMachines);
    if RefsStateMachine(sm) == RefsStateMachine(other) {
      ConcatSplit(RefsStates(sm.states) + RefsTransitions(sm.anyStateTransitions), RefsStateMachines(sm.stateMachines),
                  RefsStates(other.states) + RefsTransitions(other.anyStateTransitions), RefsStateMachines(other.stateMachines));
      ConcatSplit(RefsStates(sm.states), RefsTransitions(sm.anyStateTransitions),
                  RefsStates(other.states), RefsTransitions(other.anyStateTransitions));
    }
  }

  lemma {:induction false} StateMachinesDetermined(ms: seq<StateMachine>, others: seq<StateMachine>)
    requires EraseStateMachines(ms) == EraseStateMachines(others)
    ensures |RefsStateMachines(ms)| == |RefsStateMachines(others)|
    ensures RefsStateMachines(ms) == RefsStateMachines(others) ==> ms == others
    decreases ms
  {
    if ms != [] {
      assert EraseStateMachines(ms)[0] == EraseStateMachines(others)[0];
      assert EraseStateMachines(ms)[1..] == EraseStateMachines(ms[1..]);
      assert EraseStateMachines(others)[1..] == EraseStateMachines(others[1..]);
      StateMachineDetermined(ms[0], others[0]);
      StateMachinesDetermined(ms[1..], others[1..]);
      if RefsStateMachines(ms) == RefsStateMachines(others) {
        ConcatSplit(RefsStateMachine(ms[0]), RefsStateMachines(ms[1..]),
                    RefsStateMachine(others[0]), RefsStateMachines(others[1..]));
        assert ms == [ms[0]] + ms[1..] && others == [others[0]] + others[1..];
      }
    }
  }

  lemma {:induction false} LayersDetermined(ls: seq<Layer>, others: seq<Layer>)
    requires EraseLayers(ls) == EraseLayers(others)
    ensures |RefsLayers(ls)| == |RefsLayers(others)|
    ensures RefsLayers(ls) == RefsLayers(others) ==> ls == others
  {
    if ls != [] {
      var l, o := ls[0], others[0];
      assert EraseLayers(ls)[0] == EraseLayers(others)[0];
      assert l.name == o.name && EraseStateMachine(l.stateMachine) == EraseStateMachine(o.stateMachine);
      assert EraseLayers(ls)[1..] == EraseLayers(ls[1..]);
      assert EraseLayers(others)[1..] == EraseLayers(others[1..]);
      StateMachineDetermined(l.stateMachine, o.stateMachine);
      LayersDetermined(ls[1..], others[1..]);
      if RefsLayers(ls) == RefsLayers(others) {
        ConcatSplit(RefsStateMachine(l.stateMachine), RefsLayers(ls[1..]),
                    RefsStateMachine(o.stateMachine), RefsLayers(others[1..]));
        assert l == o && ls[1..] == others[1..];
        assert ls == [l] + ls[1..] && others == [o] + others[1..];
      }
    }
  }

  /** Two controllers with the same erasure and the same references are the same controller. */
  lemma ControllerDetermined(c: Controller, d: Controller)
    requires Erase(c) == Erase(d) && References(c) == References(d)
    ensures c == d
  {
    LayersDetermined(c.layers, d.layers);
  }

  // ---------------------------------------------------------------------------------------
  // What the traversal promises as a whole.
  // ---------------------------------------------------------------------------------------

  /** A controller that never mentions `from` comes back unchanged, and so does any
      controller under a rename of a name to itself. */
  lemma UpdateWithoutOccurrenceIsIdentity(c: Controller, from: string, to: string)
    requires from !in References(c) || from == to
    ensures UpdateAllReferences(c, from, to) == c
  {
    var r := UpdateAllReferences(c, from, to);
    assert References(r) == References(c);
    ControllerDetermined(r, c);
  }

  /** Renaming to a name the layers do not mention, and back, restores the controller. */
  lemma UpdateRoundTrip(c: Controller, from: string, to: string)
    requires to !in References(c)
    ensures UpdateAllReferences(UpdateAllReferences(c, from, to), to, from) == c
  {
    var back := UpdateAllReferences(UpdateAllReferences(c, from, to), to, from);
    RenameEachRoundTrip(References(c), from, to);
    ControllerDetermined(back, c);
  }

  /** Every occurrence of `from` is gone, each one now counts as `to`, and every other
      name is referenced exactly as often as before. */
  lemma UpdateReplacesEveryOccurrence(c: Controller, from: string, to: string)
    requires from != to
    ensures from !in References(UpdateAllReferences(c, from, to))
    ensures multiset(References(UpdateAllReferences(c, from, to)))[to]
         == multiset(References(c))[to] + multiset(References(c))[from]
    ensures forall n :: n != from && n != to ==>
              multiset(References(UpdateAllReferences(c, from, to)))[n] == multiset(References(c))[n]
  {
    RenameEachCounts(References(c), from, to);
  }

  /** The defect of UpdateTransitionConditionsAsWritten on a one-condition transition: the
      condition still names the old parameter, where the write-back version names the new. */
  lemma AsWrittenConditionKeepsOldName()
    ensures var t := Transition("Idle", [Condition(If, "A", 0.0)]);
            && RefsConditions(UpdateTransitionConditionsAsWritten(t, "A", "B").conditions) == ["A"]
            && RefsConditions(UpdateTransitionConditions(t, "A", "B").conditions) == ["B"]
  {
    var t := Transition("Idle", [Condition(If, "A", 0.0)]);
    assert RefsConditions(t.conditions) == ["A"];
  }

  // ---------------------------------------------------------------------------------------
  // Renaming the parameter itself (RenameParam.cs:374-413).
  // ---------------------------------------------------------------------------------------

  /** RenameParameterInAnimator: walks the parameter list in order, renames the first entry
      named `from`, and stops there. Reports whether there was one. */
  method RenameParameterInAnimator(ps: seq<Parameter>, from: string, to: string)
    returns (found: bool, r: seq<Parameter>)
    ensures found <==> from in ParameterNames(ps)
    ensures ParameterNames(r) == ReplaceFirst(ParameterNames(ps), from, to)
    ensures |r| == |ps| && forall i :: 0 <= i < |ps| ==> r[i].parameterType == ps[i].parameterType
    ensures !found ==> r == ps
  {
    found := false;
    r := ps;
    var i := 0;
    while i < |ps|
      invariant 0 <= i <= |ps|
      invariant from !in ParameterNames(ps)[..i]
      decreases |ps| - i
    {
      if ps[i].name == from {
        IndexOfFirst(ParameterNames(ps), from, i);
        r := ps[i := ps[i].(name := to)];
        found := true;
        break;
      }
      assert ParameterNames(ps)[..i + 1] == ParameterNames(ps)[..i] + [ps[i].name];
      i := i + 1;
    }
    assert !found ==> ParameterNames(ps)[..i] == ParameterNames(ps);
  }

  /** RenameParameter: the reference traversal runs only when the parameter list held the
      name, so a name the controller does not declare leaves the controller untouched. */
  method RenameParameter(c: Controller, from: string, to: string) returns (found: bool, r: Controller)
    ensures found <==> from in ParameterNames(c.parameters)
    ensures !found ==> r == c
    ensures ParameterNames(r.parameters) == ReplaceFirst(ParameterNames(c.parameters), from, to)
    ensures |r.parameters| == |c.parameters|
    ensures forall i :: 0 <= i < |c.parameters| ==> r.parameters[i].parameterType == c.parameters[i].parameterType
    ensures found ==> References(r) == RenameEach(References(c), from, to)
    ensures EraseLayers(r.layers) == EraseLayers(c.layers)
  {
    var ps;
    found, ps := RenameParameterInAnimator(c.parameters, from, to);
    r := c.(parameters := ps);
    if found {
      r := UpdateAllReferences(r, from, to);
    }
  }
}
