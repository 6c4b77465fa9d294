/** Persisting a layout: the JSON value it becomes and the validation that reads it back. */
module SplitTreeSerialize {
  import opened Options
  import opened SplitTree

  datatype Number = Finite(value: real) | PositiveInfinity | NegativeInfinity | NaN

  /** A JSON value as the reader sees it. */
  datatype Json =
    | Null
    | Bool(bool)
    | Num(number: Number)
    | Str(text: string)
    | Arr(items: seq<Json>)
    | Obj(fields: map<string, Json>)

  datatype Complaint =
    NotAnObject | UnknownType | PanelIdsNotStrings | SelectedNotString | UnknownOrientation | DividerNotNumber

  /** A rejected value: what is wrong and at which node. */
  datatype Parsed = Accepted(tree: LayoutNode) | Rejected(complaint: Complaint, at: Path)

  /** The named field, or none when the object does not have it. */
  function Get(fields: map<string, Json>, name: string): Option<Json> {
    if name in fields then Some(fields[name]) else None
  }

  // ---------------------------------------------------------------- write

  function Strings(texts: seq<string>): seq<Json> {
    seq(|texts|, i requires 0 <= i < |texts| => Str(texts[i]))
  }

  /** The deep clone that is persisted; dividers are clamped on the way out. */
  function Serialize(tree: LayoutNode): Json {
    match tree
    case Pane(panelIds, selected) =>
      var fields := map["type" := Str("pane"), "panel_ids" := Arr(Strings(panelIds))];
      Obj(if selected.Some? then fields["selected_panel_id" := Str(selected.value)] else fields)
    case Split(orientation, divider, first, second) =>
      Obj(map["type" := Str("split"),
              "orientation" := Str(if orientation == Horizontal then "horizontal" else "vertical"),
              "divider_position" := Num(Finite(ClampDivider(divider))),
              "first" := Serialize(first),
              "second" := Serialize(second)])
  }

  // ---------------------------------------------------------------- read

  function ClampNumber(number: Number): real
    requires !number.NaN?
  {
    match number
    case Finite(value) => ClampDivider(value)
    case PositiveInfinity => DIVIDER_MAX
    case NegativeInfinity => DIVIDER_MIN
  }

  function Deserialize(value: Json): Parsed {
    ParseNode(value, [])
  }

  function ParseNode(value: Json, at: Path): Parsed
    decreases value, 1
  {
    if !value.Obj? then Rejected(NotAnObject, at)
    else
      var tag := Get(value.fields, "type");
      if tag == Some(Str("pane")) then ParsePane(value.fields, at)
      else if tag == Some(Str("split")) then ParseSplit(value, at)
      else Rejected(UnknownType, at)
  }

  function Texts(items: seq<Json>): seq<string>
    requires forall i :: 0 <= i < |items| ==> items[i].Str?
  {
    seq(|items|, i requires 0 <= i < |items| => items[i].text)
  }

  lemma TextsAre(items: seq<Json>, texts: seq<string>)
    requires |items| == |texts| && forall i :: 0 <= i < |items| ==> items[i] == Str(texts[i])
    ensures Texts(items) == texts
  {
  }

  function ParsePane(fields: map<string, Json>, at: Path): Parsed {
    var ids := Get(fields, "panel_ids");
    var selected := Get(fields, "selected_panel_id");
    if ids.None? || !ids.value.Arr? || (exists i :: 0 <= i < |ids.value.items| && !ids.value.items[i].Str?) then
      Rejected(PanelIdsNotStrings, at)
    else
      var items := ids.value.items;
      var texts := Texts(items);
      if selected.None? then Accepted(Pane(texts, None))
      else if !selected.value.Str? then Rejected(SelectedNotString, at)
      else Accepted(Pane(texts, Some(selected.value.text)))
  }

  function ParseSplit(value: Json, at: Path): Parsed
    requires value.Obj?
    decreases value, 0
  {
    var fields := value.fields;
    var orientation := Get(fields, "orientation");
    var divider := Get(fields, "divider_position");
    if orientation != Some(Str("horizontal")) && orientation != Some(Str("vertical")) then
      Rejected(UnknownOrientation, at)
    else if divider.None? || !divider.value.Num? || divider.value.number.NaN? then Rejected(DividerNotNumber, at)
    else if "first" !in fields then Rejected(NotAnObject, at + [First])
    else match ParseNode(fields["first"], at + [First])
      case Rejected(complaint, where) => Rejected(complaint, where)
      case Accepted(left) =>
        if "second" !in fields then Rejected(NotAnObject, at + [Second])
        else match ParseNode(fields["second"], at + [Second])
          case Rejected(complaint, where) => Rejected(complaint, where)
          case Accepted(right) =>
            var o := if orientation == Some(Str("horizontal")) then Horizontal else Vertical;
            Accepted(Split(o, ClampNumber(divider.value.number), left, right))
  }

  // ---------------------------------------------------------------- what the round trip keeps

  function Clamped(tree: LayoutNode): (clamped: LayoutNode)
    ensures Legal(clamped)
    ensures Legal(tree) ==> clamped == tree
  {
    if tree.Pane? then tree
    else Split(tree.orientation, ClampDivider(tree.divider), Clamped(tree.first), Clamped(tree.second))
  }

  lemma PaneRoundTrip(panelIds: seq<string>, selected: Option<string>, at: Path)
    ensures ParseNode(Serialize(Pane(panelIds, selected)), at) == Accepted(Pane(panelIds, selected))
  {
    hide ParseSplit, Texts;
    TextsAre(Strings(panelIds), panelIds);
  }

  lemma SplitRoundTrip(tree: LayoutNode, at: Path)
    requires tree.Split?
    requires ParseNode(Serialize(tree.first), at + [First]) == Accepted(Clamped(tree.first))
    requires ParseNode(Serialize(tree.second), at + [Second]) == Accepted(Clamped(tree.second))
    ensures ParseNode(Serialize(tree), at) == Accepted(Clamped(tree))
  {
    hide ParsePane;
    var value := Serialize(tree);
    assert ParseNode(value, at) == ParseSplit(value, at);
    hide ParseNode;
  }

  /** Reading back what was written gives the tree with every divider clamped. */
  lemma {:induction false} RoundTrip(tree: LayoutNode, at: Path)
    ensures ParseNode(Serialize(tree), at) == Accepted(Clamped(tree))
  {
    match tree
    case Pane(panelIds, selected) =>
      PaneRoundTrip(panelIds, selected, at);
    case Split(orientation, divider, first, second) =>
      RoundTrip(first, at + [First]);
      RoundTrip(second, at + [Second]);
      SplitRoundTrip(tree, at);
  }

  /** The values that describe a layout: any extra fields, any divider that is a number. */
  ghost predicate Describes(value: Json, tree: LayoutNode) {
    && value.Obj?
    && match tree
       case Pane(panelIds, selected) =>
         && Get(value.fields, "type") == Some(Str("pane"))
         && Get(value.fields, "panel_ids") == Some(Arr(Strings(panelIds)))
         && Get(value.fields, "selected_panel_id") == if selected.Some? then Some(Str(selected.value)) else None
       case Split(orientation, divider, first, second) =>
         && Get(value.fields, "type") == Some(Str("split"))
         && Get(value.fields, "orientation") ==
            Some(Str(if orientation == Horizontal then "horizontal" else "vertical"))
         && Get(value.fields, "divider_position").Some?
         && Get(value.fields, "divider_position").value.Num?
         && !Get(value.fields, "divider_position").value.number.NaN?
         && ClampNumber(Get(value.fields, "divider_position").value.number) == ClampDivider(divider)
         && "first" in value.fields && Describes(value.fields["first"], first)
         && "second" in value.fields && Describes(value.fields["second"], second)
  }

  /** Every description is accepted, as the layout it describes with legal dividers. */
  lemma {:induction false} DescriptionsAreAccepted(value: Json, tree: LayoutNode, at: Path)
    requires Describes(value, tree)
    ensures ParseNode(value, at) == Accepted(Clamped(tree))
    decreases tree
  {
    match tree
    case Pane(panelIds, selected) =>
      var items := Strings(panelIds);
      assert seq(|items|, i requires 0 <= i < |items| => items[i].text) == panelIds;
    case Split(orientation, divider, first, second) =>
      DescriptionsAreAccepted(value.fields["first"], first, at + [First]);
      DescriptionsAreAccepted(value.fields["second"], second, at + [Second]);
  }

  /** Nothing else is accepted: whatever comes back is legal and is described by the input. */
  lemma {:induction false} AcceptedIsDescribed(value: Json, at: Path)
    requires ParseNode(value, at).Accepted?
    ensures var tree := ParseNode(value, at).tree; Legal(tree) && Describes(value, tree)
    decreases value
  {
    var tree := ParseNode(value, at).tree;
    if tree.Pane? {
      var items := Get(value.fields, "panel_ids").value.items;
      assert Strings(tree.panelIds) == items;
    } else {
      AcceptedIsDescribed(value.fields["first"], at + [First]);
      AcceptedIsDescribed(value.fields["second"], at + [Second]);
    }
  }

  /** Acceptance decides description, and everything accepted is a fixpoint of the round trip. */
  lemma DeserializeIsExact(value: Json, tree: LayoutNode)
    ensures Deserialize(value) == Accepted(tree) <==> Legal(tree) && Describes(value, tree)
    ensures Deserialize(value) == Accepted(tree) ==> Deserialize(Serialize(tree)) == Accepted(tree)
    ensures Deserialize(Serialize(tree)) == Accepted(Clamped(tree))
  {
    RoundTrip(tree, []);
    if Deserialize(value) == Accepted(tree) {
      AcceptedIsDescribed(value, []);
    }
    if Legal(tree) && Describes(value, tree) {
      DescriptionsAreAccepted(value, tree, []);
    }
  }

  /** A divider beyond all bounds is read as the bound on its side. */
  lemma InfiniteDividersAreCut(value: Json, at: Path)
    requires ParseNode(value, at).Accepted? && ParseNode(value, at).tree.Split?
    ensures value.Obj? && "divider_position" in value.fields && value.fields["divider_position"].Num?
    ensures value.fields["divider_position"].number == PositiveInfinity ==> ParseNode(value, at).tree.divider == 0.9
    ensures value.fields["divider_position"].number == NegativeInfinity ==> ParseNode(value, at).tree.divider == 0.1
  {
  }

  ghost predicate AreTexts(ids: Json) {
    ids.Arr? && forall i :: 0 <= i < |ids.items| ==> ids.items[i].Str?
  }

  /** The first thing that is wrong with a value is what is reported; below it, the first child before the second. */
  lemma ComplaintIsFirst(value: Json, at: Path)
    ensures !value.Obj? ==> ParseNode(value, at) == Rejected(NotAnObject, at)
    ensures value.Obj? ==>
              var fields, r := value.fields, ParseNode(value, at);
              if "type" in fields && fields["type"] == Str("pane") then
                if "panel_ids" !in fields || !AreTexts(fields["panel_ids"]) then r == Rejected(PanelIdsNotStrings, at)
                else if "selected_panel_id" in fields && !fields["selected_panel_id"].Str? then
                  r == Rejected(SelectedNotString, at)
                else r.Accepted?
              else if "type" in fields && fields["type"] == Str("split") then
                if "orientation" !in fields ||
                   (fields["orientation"] != Str("horizontal") && fields["orientation"] != Str("vertical")) then
                  r == Rejected(UnknownOrientation, at)
                else if "divider_position" !in fields || !fields["divider_position"].Num? ||
                        fields["divider_position"].number.NaN? then
                  r == Rejected(DividerNotNumber, at)
                else
                  var first := if "first" in fields then ParseNode(fields["first"], at + [First])
                               else Rejected(NotAnObject, at + [First]);
                  var second := if "second" in fields then ParseNode(fields["second"], at + [Second])
                                else Rejected(NotAnObject, at + [Second]);
                  if first.Rejected? then r == first else if second.Rejected? then r == second else r.Accepted?
              else r == Rejected(UnknownType, at)
  {
  }

  /** The sub-value at a node, following `first` and `second`; none when it is missing. */
  function SubValue(value: Json, path: Path): Option<Json>
    decreases |path|
  {
    if path == [] then Some(value)
    else
      var name := if path[0] == First then "first" else "second";
      if !value.Obj? || name !in value.fields then None else SubValue(value.fields[name], path[1..])
  }

  /** A rejection points at the node at fault: it is missing, or refused on its own for the same reason. */
  lemma {:induction false} RejectionPointsAtFault(value: Json, at: Path)
    requires ParseNode(value, at).Rejected?
    ensures var r := ParseNode(value, at);
            at <= r.at &&
            match SubValue(value, r.at[|at|..])
            case None => r.complaint == NotAnObject
            case Some(part) => ParseNode(part, r.at) == r
    decreases value
  {
    var r := ParseNode(value, at);
    if r.at != at && value.Obj? {
      var fields := value.fields;
      var branch := if "first" !in fields || ParseNode(fields["first"], at + [First]).Rejected? then First else Second;
      var name := if branch == First then "first" else "second";
      if name in fields {
        RejectionPointsAtFault(fields[name], at + [branch]);
      }
      assert at + [branch] <= r.at;
      assert r.at[|at|..][0] == branch;
      assert r.at[|at|..][1..] == r.at[|at + [branch]|..];
    }
  }
}
