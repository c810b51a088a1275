/**
 * The gamepad bindings of the Gamepad section: each binding key names one
 * control of an SDL game controller, as an axis direction or a button. The
 * axis and button numbers are those of SDL2's SDL_GameControllerAxis and
 * SDL_GameControllerButton enumerations.
 */
module Gamepad {
  import opened Wrappers
  import CStrings

  /** TYPE_AXIS_NEG, TYPE_AXIS_POS and TYPE_BUTTON. */
  datatype ControlType = AxisNeg | AxisPos | Button

  const AXIS_LEFTX: nat := 0
  const AXIS_LEFTY: nat := 1
  const AXIS_RIGHTX: nat := 2
  const AXIS_RIGHTY: nat := 3
  const AXIS_TRIGGERLEFT: nat := 4
  const AXIS_TRIGGERRIGHT: nat := 5

  const BUTTON_A: nat := 0
  const BUTTON_B: nat := 1
  const BUTTON_X: nat := 2
  const BUTTON_Y: nat := 3
  const BUTTON_BACK: nat := 4
  const BUTTON_GUIDE: nat := 5
  const BUTTON_START: nat := 6
  const BUTTON_LEFTSTICK: nat := 7
  const BUTTON_RIGHTSTICK: nat := 8
  const BUTTON_LEFTSHOULDER: nat := 9
  const BUTTON_RIGHTSHOULDER: nat := 10
  const BUTTON_DPAD_UP: nat := 11
  const BUTTON_DPAD_DOWN: nat := 12
  const BUTTON_DPAD_LEFT: nat := 13
  const BUTTON_DPAD_RIGHT: nat := 14

  /** The 25 binding keys of the Gamepad section. */
  datatype Binding =
    | LStickXMinus | LStickXPlus | LStickYMinus | LStickYPlus
    | RStickXMinus | RStickXPlus | RStickYMinus | RStickYPlus
    | LTrigger | RTrigger
    | ButtonA | ButtonB | ButtonX | ButtonY
    | ButtonBack | ButtonGuide | ButtonStart
    | ButtonLeftStick | ButtonRightStick
    | ButtonLeftShoulder | ButtonRightShoulder
    | DpadUp | DpadDown | DpadLeft | DpadRight

  /** A bound control: one node of the gamepad_controls list. */
  datatype Control = Control(kind: ControlType, index: nat, repeat: int, labelText: Option<string>, cmd: Option<string>)

  /**
   * The (type, index) pair each binding key passes to add_gamepad_control.
   * Axis bindings use the six SDL axes and button bindings the fifteen SDL
   * buttons; the triggers are bound only in the positive direction.
   */
  function BindingOf(b: Binding): (r: (ControlType, nat))
    ensures r.0 != Button ==> r.1 <= AXIS_TRIGGERRIGHT
    ensures r.0 == Button ==> r.1 <= BUTTON_DPAD_RIGHT
    ensures r.0 == AxisNeg ==> r.1 < AXIS_TRIGGERLEFT
  {
    match b
    case LStickXMinus => (AxisNeg, AXIS_LEFTX)
    case LStickXPlus => (AxisPos, AXIS_LEFTX)
    case LStickYMinus => (AxisNeg, AXIS_LEFTY)
    case LStickYPlus => (AxisPos, AXIS_LEFTY)
    case RStickXMinus => (AxisNeg, AXIS_RIGHTX)
    case RStickXPlus => (AxisPos, AXIS_RIGHTX)
    case RStickYMinus => (AxisNeg, AXIS_RIGHTY)
    case RStickYPlus => (AxisPos, AXIS_RIGHTY)
    case LTrigger => (AxisPos, AXIS_TRIGGERLEFT)
    case RTrigger => (AxisPos, AXIS_TRIGGERRIGHT)
    case ButtonA => (Button, BUTTON_A)
    case ButtonB => (Button, BUTTON_B)
    case ButtonX => (Button, BUTTON_X)
    case ButtonY => (Button, BUTTON_Y)
    case ButtonBack => (Button, BUTTON_BACK)
    case ButtonGuide => (Button, BUTTON_GUIDE)
    case ButtonStart => (Button, BUTTON_START)
    case ButtonLeftStick => (Button, BUTTON_LEFTSTICK)
    case ButtonRightStick => (Button, BUTTON_RIGHTSTICK)
    case ButtonLeftShoulder => (Button, BUTTON_LEFTSHOULDER)
    case ButtonRightShoulder => (Button, BUTTON_RIGHTSHOULDER)
    case DpadUp => (Button, BUTTON_DPAD_UP)
    case DpadDown => (Button, BUTTON_DPAD_DOWN)
    case DpadLeft => (Button, BUTTON_DPAD_LEFT)
    case DpadRight => (Button, BUTTON_DPAD_RIGHT)
  }

  /** The binding key for a (type, index) pair, if any key has it. */
  function BindingFor(kind: ControlType, index: nat): Option<Binding> {
    match kind
    case AxisNeg =>
      if index == AXIS_LEFTX then Some(LStickXMinus)
      else if index == AXIS_LEFTY then Some(LStickYMinus)
      else if index == AXIS_RIGHTX then Some(RStickXMinus)
      else if index == AXIS_RIGHTY then Some(RStickYMinus)
      else None
    case AxisPos =>
      if index == AXIS_LEFTX then Some(LStickXPlus)
      else if index == AXIS_LEFTY then Some(LStickYPlus)
      else if index == AXIS_RIGHTX then Some(RStickXPlus)
      else if index == AXIS_RIGHTY then Some(RStickYPlus)
      else if index == AXIS_TRIGGERLEFT then Some(LTrigger)
      else if index == AXIS_TRIGGERRIGHT then Some(RTrigger)
      else None
    case Button =>
      if index == BUTTON_A then Some(ButtonA)
      else if index == BUTTON_B then Some(ButtonB)
      else if index == BUTTON_X then Some(ButtonX)
      else if index == BUTTON_Y then Some(ButtonY)
      else if index == BUTTON_BACK then Some(ButtonBack)
      else if index == BUTTON_GUIDE then Some(ButtonGuide)
      else if index == BUTTON_START then Some(ButtonStart)
      else if index == BUTTON_LEFTSTICK then Some(ButtonLeftStick)
      else if index == BUTTON_RIGHTSTICK then Some(ButtonRightStick)
      else if index == BUTTON_LEFTSHOULDER then Some(ButtonLeftShoulder)
      else if index == BUTTON_RIGHTSHOULDER then Some(ButtonRightShoulder)
      else if index == BUTTON_DPAD_UP then Some(DpadUp)
      else if index == BUTTON_DPAD_DOWN then Some(DpadDown)
      else if index == BUTTON_DPAD_LEFT then Some(DpadLeft)
      else if index == BUTTON_DPAD_RIGHT then Some(DpadRight)
      else None
  }

  /**
   * Every binding key names its own control: reading the pair back gives
   * the key, so no two keys share a (type, index) pair.
   */
  lemma BindingRoundTrip(b: Binding)
    ensures BindingFor(BindingOf(b).0, BindingOf(b).1) == Some(b)
  {
  }

  lemma BindingsDistinct(b1: Binding, b2: Binding)
    requires BindingOf(b1) == BindingOf(b2)
    ensures b1 == b2
  {
    BindingRoundTrip(b1);
    BindingRoundTrip(b2);
  }

  /**
   * The node add_gamepad_control fills in: repeat 0 and copies of label and
   * command, which read back as the texts given (an empty label is NULL).
   */
  function NewControl(kind: ControlType, index: nat, labelText: string, cmd: string): (c: Control)
    ensures c.kind == kind && c.index == index && c.repeat == 0
    ensures CStrings.TextOf(c.labelText) == labelText && CStrings.TextOf(c.cmd) == cmd
    ensures c.labelText.Some? <==> labelText != ""
    ensures c.cmd.Some? <==> cmd != ""
  {
    Control(kind, index, 0, CStrings.CopyString(labelText), CStrings.CopyString(cmd))
  }

  /**
   * The control list after add_gamepad_control: unchanged for an empty
   * command, otherwise one new node at the tail.
   */
  function AddControl(controls: seq<Control>, kind: ControlType, index: nat, labelText: string, cmd: string): (r: seq<Control>)
    ensures cmd == "" ==> r == controls
    ensures cmd != "" ==> |r| == |controls| + 1 && r[..|controls|] == controls
    ensures cmd != "" ==> r[|controls|].kind == kind && r[|controls|].index == index
    ensures cmd != "" ==> r[|controls|] == NewControl(kind, index, labelText, cmd)
  {
    if cmd == "" then controls else controls + [NewControl(kind, index, labelText, cmd)]
  }

  /** Every bound control has a command and starts with no repeat. */
  predicate Bound(controls: seq<Control>) {
    forall k :: 0 <= k < |controls| ==> controls[k].cmd.Some? && controls[k].repeat == 0
  }

  /** Adding controls keeps every node bound to a command. */
  lemma AddControlKeepsBound(controls: seq<Control>, kind: ControlType, index: nat, labelText: string, cmd: string)
    requires Bound(controls)
    ensures Bound(AddControl(controls, kind, index, labelText, cmd))
    ensures cmd != "" ==> AddControl(controls, kind, index, labelText, cmd)[|controls|].cmd == Some(cmd)
  {
  }
}
