/** Actions (placement rules), their binding to a display, and the geometry
    update an action bound to a display produces. */
module Actions {
  import opened Results
  import opened JsModel
  import opened Positions
  import opened Displays
  import opened Strings

  /** The `Action` class. Absent optional fields are `None`. */
  datatype Action = Action(
    id: string, display: string, column: Option<Position>, row: Option<Position>,
    menuName: Option<string>, shortcutId: Option<int>, comment: Option<string>)

  /** `ActionWithDisplay`: every field of an action plus the display it matched. */
  datatype ActionWithDisplay = ActionWithDisplay(
    id: string, display: string, column: Option<Position>, row: Option<Position>,
    menuName: Option<string>, shortcutId: Option<int>, comment: Option<string>,
    matchedDisplay: Display)
  {
    /** The action this one was built from. */
    function AsAction(): Action {
      Action(id, display, column, row, menuName, shortcutId, comment)
    }
  }

  /** `new ActionWithDisplay(display, action)`: copies the action's fields. */
  function WithDisplay(d: Display, a: Action): (r: ActionWithDisplay)
    ensures r.AsAction() == a
    ensures r.matchedDisplay == d
  {
    ActionWithDisplay(a.id, a.display, a.column, a.row, a.menuName, a.shortcutId, a.comment, d)
  }

  /** A parsed position object; absent keys are `None`. */
  datatype PositionJson = PositionJson(start: Option<JsValue>, end: Option<JsValue>)

  /** A parsed action object. */
  datatype ActionJson = ActionJson(
    id: string, display: string, column: Option<PositionJson>, row: Option<PositionJson>,
    menuName: Option<string>, shortcutId: Option<int>, comment: Option<string>)

  /** A given position object becomes a `Position` keeping its given keys. */
  function PositionOf(p: Option<PositionJson>): (r: Option<Position>)
    ensures r.Some? <==> p.Some?
    ensures p.Some? && p.value.start.Some? ==> r.value.start == p.value.start.value
    ensures p.Some? && p.value.end.Some? ==> r.value.end == p.value.end.value
    ensures p.Some? && p.value.start.None? ==> r.value.start == Num(0)
    ensures p.Some? && p.value.end.None? ==> r.value.end == Str("100%")
  {
    match p case None => None case Some(j) => Some(PositionFrom(j.start, j.end))
  }

  /** `Action.from(json)`: no validation; a given column or row becomes a
      `Position` whose missing `start`/`end` take the defaults 0 and '100%'. */
  function ActionFrom(json: ActionJson): (a: Action)
    ensures a.id == json.id && a.display == json.display
    ensures a.menuName == json.menuName && a.shortcutId == json.shortcutId && a.comment == json.comment
    ensures a.column.Some? <==> json.column.Some?
    ensures a.row.Some? <==> json.row.Some?
    ensures a.column.Some? && json.column.value.start.None? ==> a.column.value.start == Num(0)
    ensures a.column.Some? && json.column.value.end.None? ==> a.column.value.end == Str("100%")
    ensures a.row.Some? && json.row.value.start.None? ==> a.row.value.start == Num(0)
    ensures a.row.Some? && json.row.value.end.None? ==> a.row.value.end == Str("100%")
    ensures a.column.Some? && json.column.value.start.Some? ==> a.column.value.start == json.column.value.start.value
    ensures a.column.Some? && json.column.value.end.Some? ==> a.column.value.end == json.column.value.end.value
    ensures a.row.Some? && json.row.value.start.Some? ==> a.row.value.start == json.row.value.start.value
    ensures a.row.Some? && json.row.value.end.Some? ==> a.row.value.end == json.row.value.end.value
  {
    Action(json.id, json.display, PositionOf(json.column), PositionOf(json.row),
           json.menuName, json.shortcutId, json.comment)
  }

  /** `WindowsUpdate`: the partial update passed to the host; `None` is an
      absent key, meaning "leave unchanged". */
  datatype WindowsUpdate = WindowsUpdate(
    left: Option<int>, top: Option<int>, width: Option<int>, height: Option<int>,
    state: Option<string>, focused: Option<bool>)
  {
    /** `Object.keys(update).length == 0`. */
    predicate IsEmpty() {
      left.None? && top.None? && width.None? && height.None? && state.None? && focused.None?
    }
  }

  /** The empty object `{}`. */
  const NoUpdate := WindowsUpdate(None, None, None, None, None, None)

  /** Offset and length of a window along one axis of the work area. */
  datatype Placement = Placement(offset: int, length: int)

  /** The `offset`/`length` pair an update carries for one axis agrees with
      the position: both absent when the position is, otherwise the resolved
      span shifted by the work area's origin. */
  ghost predicate AxisAgrees(p: Option<Position>, origin: int, size: int, offset: Option<int>, length: Option<int>) {
    match p
    case None => offset.None? && length.None?
    case Some(pos) =>
      Calculate(pos, size).Ok? &&
      offset == Some(origin + Calculate(pos, size).value.start) &&
      length == Some(Calculate(pos, size).value.end - Calculate(pos, size).value.start)
  }

  function OffsetOf(pl: Option<Placement>): Option<int> {
    if pl.Some? then Some(pl.value.offset) else None
  }

  function LengthOf(pl: Option<Placement>): Option<int> {
    if pl.Some? then Some(pl.value.length) else None
  }

  /** One axis of `prepareUpdate`: resolves the position against the work
      area's size and shifts it by the work area's origin. */
  function AxisPlacement(p: Option<Position>, origin: int, size: int): (r: Result<Option<Placement>, PositionError>)
    ensures r.Ok? <==> p.None? || Calculate(p.value, size).Ok?
    ensures r.Err? ==> r.error == Calculate(p.value, size).error
    ensures r.Ok? ==> AxisAgrees(p, origin, size, OffsetOf(r.value), LengthOf(r.value))
  {
    match p
    case None => Ok(None)
    case Some(pos) =>
      var c := Calculate(pos, size);
      if c.Err? then Err(c.error)
      else Ok(Some(Placement(origin + c.value.start, c.value.end - c.value.start)))
  }

  /** `ActionWithDisplay.prepareUpdate`. The update always restores and
      focuses the window; a present column sets `left`/`width` and a present
      row sets `top`/`height` relative to the work area, with no check that the
      length is non-negative. A column error is reported before a row error. */
  function PrepareUpdate(a: ActionWithDisplay): (r: Result<WindowsUpdate, PositionError>)
    ensures var wa := a.matchedDisplay.workArea;
      r.Ok? <==> (a.column.None? || Calculate(a.column.value, wa.width).Ok?) &&
                 (a.row.None? || Calculate(a.row.value, wa.height).Ok?)
    ensures var wa := a.matchedDisplay.workArea;
      r.Err? && a.column.Some? && Calculate(a.column.value, wa.width).Err? ==>
        r.error == Calculate(a.column.value, wa.width).error
    ensures r.Ok? ==> r.value.state == Some("normal") && r.value.focused == Some(true)
    ensures var wa := a.matchedDisplay.workArea;
      r.Ok? ==> AxisAgrees(a.column, wa.left, wa.width, r.value.left, r.value.width)
    ensures var wa := a.matchedDisplay.workArea;
      r.Ok? ==> AxisAgrees(a.row, wa.top, wa.height, r.value.top, r.value.height)
    ensures var wa := a.matchedDisplay.workArea;
      r.Ok? && a.column.Some? && wa.width >= 0 ==> wa.left <= r.value.left.value <= wa.left + wa.width
    ensures var wa := a.matchedDisplay.workArea;
      r.Ok? && a.row.Some? && wa.height >= 0 ==> wa.top <= r.value.top.value <= wa.top + wa.height
  {
    var wa := a.matchedDisplay.workArea;
    var cp := AxisPlacement(a.column, wa.left, wa.width);
    var rp := AxisPlacement(a.row, wa.top, wa.height);
    if cp.Err? then Err(cp.error)
    else if rp.Err? then Err(rp.error)
    else Ok(Assemble(cp.value, rp.value))
  }

  /** The update object built from the placements of the two axes. */
  function Assemble(column: Option<Placement>, row: Option<Placement>): (u: WindowsUpdate)
    ensures u.state == Some("normal") && u.focused == Some(true)
    ensures u.left == OffsetOf(column) && u.width == LengthOf(column)
    ensures u.top == OffsetOf(row) && u.height == LengthOf(row)
  {
    WindowsUpdate(OffsetOf(column), OffsetOf(row), LengthOf(column), LengthOf(row), Some("normal"), Some(true))
  }

  /** The end-to-end example of a left-half action on a 1920x1080 work area at
      the origin: {left: 0, top: 0, width: 960, height: 1080}. */
  lemma LeftHalfExample(d: Display)
    requires d.workArea == Rect(0, 0, 1920, 1080)
    ensures
      var a := Action("left", "primary", Some(LeftHalf), Some(DefaultPosition), None, None, None);
      PrepareUpdate(WithDisplay(d, a)) ==
        Ok(WindowsUpdate(Some(0), Some(0), Some(960), Some(1080), Some("normal"), Some(true)))
  {
    LeftHalfSpan();
    DefaultPositionSpansAxis(1080);
  }

  /** The column {start: 0, end: '50%'}. */
  const LeftHalf := Position(Num(0), Str("50%"))

  lemma LeftHalfSpan()
    ensures Calculate(LeftHalf, 1920) == Ok(Span(0, 960))
  {
    assert PercentText(50) == "50%" by {
      assert NatToString(5) == "5";
      assert NatToString(50) == "50";
    }
    PercentResolves(50, 1920);
    assert ResolveValue(Num(0), 1920) == Ok(0);
    CalculateIsPerValue(Num(0), Str("50%"), 1920);
  }

  /** An action bound to a display, or the original action when its display
      reference did not resolve. */
  datatype Binding = Unbound(action: Action) | Bound(bound: ActionWithDisplay)

  /** The display references of a list of actions. */
  function ReferencedDisplays(actions: seq<Action>): set<string> {
    set i | 0 <= i < |actions| :: actions[i].display
  }

  /** Binds each action through a resolved display map. */
  function BindAll(actions: seq<Action>, displaysMap: map<string, Display>): (r: seq<Binding>)
    ensures |r| == |actions|
    ensures forall i :: 0 <= i < |actions| ==> (r[i].Bound? <==> actions[i].display in displaysMap)
    ensures forall i :: 0 <= i < |actions| && r[i].Bound? ==>
              r[i].bound.AsAction() == actions[i] && r[i].bound.matchedDisplay == displaysMap[actions[i].display]
    ensures forall i :: 0 <= i < |actions| && r[i].Unbound? ==> r[i].action == actions[i]
  {
    if |actions| == 0 then []
    else
      var a := actions[0];
      var b := if a.display in displaysMap then Bound(WithDisplay(displaysMap[a.display], a)) else Unbound(a);
      [b] + BindAll(actions[1..], displaysMap)
  }

  /** `matchActionsToDisplay`: the output has one element per input action;
      an action whose display reference resolves becomes an
      `ActionWithDisplay`, any other stays as it is. `mapDisplays` is the
      display-reference resolver, which is not part of this model. */
  function MatchActionsToDisplay(
    actions: seq<Action>, displays: seq<Display>,
    mapDisplays: (seq<Display>, set<string>) -> map<string, Display>): (r: seq<Binding>)
    ensures |r| == |actions|
    ensures var m := mapDisplays(displays, ReferencedDisplays(actions));
      forall i :: 0 <= i < |actions| ==>
        if actions[i].display in m then r[i] == Bound(WithDisplay(m[actions[i].display], actions[i]))
        else r[i] == Unbound(actions[i])
  {
    var m := mapDisplays(displays, ReferencedDisplays(actions));
    var r := BindAll(actions, m);
    assert forall i :: 0 <= i < |actions| && r[i].Bound? ==> r[i].bound == WithDisplay(m[actions[i].display], actions[i]) by {
      forall i | 0 <= i < |actions| && r[i].Bound?
        ensures r[i].bound == WithDisplay(m[actions[i].display], actions[i])
      {
        BoundIsWithDisplay(r[i].bound);
      }
    }
    r
  }

  /** An `ActionWithDisplay` is determined by its action and display. */
  lemma BoundIsWithDisplay(x: ActionWithDisplay)
    ensures x == WithDisplay(x.matchedDisplay, x.AsAction())
  {
  }

  /** `filterWithDisplay`: the bound actions, in order. */
  function FilterWithDisplay(bs: seq<Binding>): (r: seq<ActionWithDisplay>)
    ensures |r| <= |bs|
    ensures forall x :: x in r <==> Bound(x) in bs
  {
    if |bs| == 0 then []
    else
      var rest := FilterWithDisplay(bs[1..]);
      assert forall x :: Bound(x) in bs <==> Bound(x) == bs[0] || Bound(x) in bs[1..];
      if bs[0].Bound? then [bs[0].bound] + rest else rest
  }

  /** Filtering distributes over concatenation, so the order of the kept actions is the input order. */
  lemma {:induction false} FilterWithDisplayAppend(a: seq<Binding>, b: seq<Binding>)
    ensures FilterWithDisplay(a + b) == FilterWithDisplay(a) + FilterWithDisplay(b)
  {
    if |a| > 0 {
      assert (a + b)[0] == a[0] && (a + b)[1..] == a[1..] + b;
      FilterWithDisplayAppend(a[1..], b);
    } else {
      assert a + b == b;
    }
  }
}
