/** Layouts as objects on the heap: what is written and what is read back shares nothing with what it came from. */
module SplitTreeHeap {
  import opened Options
  import opened SplitTree
  import opened SplitTreeSerialize

  // ---------------------------------------------------------------- layouts

  datatype Shape =
    | PaneShape(panelIds: array<string>, selected: Option<string>)
    | SplitShape(orientation: Orientation, divider: real, first: Node, second: Node)

  /** A node that the user interface may update in place. */
  class Node {
    var shape: Shape
    ghost var Repr: set<object>

    constructor (shape: Shape, ghost parts: set<object>)
      ensures this.shape == shape && Repr == {this} + parts
    {
      this.shape, Repr := shape, {this} + parts;
    }

    ghost predicate Valid()
      reads this, Repr
      decreases Repr
    {
      && this in Repr
      && match shape
         case PaneShape(panelIds, _) => panelIds in Repr
         case SplitShape(_, _, first, second) =>
           && first in Repr && first.Repr <= Repr - {this} && first.Valid()
           && second in Repr && second.Repr <= Repr - {this} && second.Valid()
    }

    ghost function Tree(): LayoutNode
      requires Valid()
      reads this, Repr
      decreases Repr
    {
      match shape
      case PaneShape(panelIds, selected) => Pane(panelIds[..], selected)
      case SplitShape(orientation, divider, first, second) => Split(orientation, divider, first.Tree(), second.Tree())
    }

    /** No two parts of the layout have anything in common. */
    ghost predicate Unshared()
      requires Valid()
      reads this, Repr
      decreases Repr
    {
      shape.SplitShape? ==>
        shape.first.Repr !! shape.second.Repr && shape.first.Unshared() && shape.second.Unshared()
    }
  }

  method CopyStrings(texts: array<string>) returns (copy: array<string>)
    ensures fresh(copy) && copy[..] == texts[..]
  {
    copy := new string[texts.Length](i requires 0 <= i < texts.Length reads texts => texts[i]);
  }

  method MakeSplit(orientation: Orientation, divider: real, first: Node, second: Node) returns (node: Node)
    requires first.Valid() && first.Unshared() && second.Valid() && second.Unshared() && first.Repr !! second.Repr
    ensures fresh(node) && node.Repr == {node} + first.Repr + second.Repr
    ensures node.Valid() && node.Unshared()
    ensures node.Tree() == Split(orientation, divider, first.Tree(), second.Tree())
  {
    node := new Node(SplitShape(orientation, divider, first, second), first.Repr + second.Repr);
  }

  /** The deep clone that is persisted: clamped, made of new objects only, and a tree. */
  method CloneNode(node: Node) returns (copy: Node)
    requires node.Valid()
    ensures copy.Valid() && copy.Unshared() && fresh(copy.Repr)
    ensures copy.Tree() == Clamped(node.Tree())
    decreases node.Repr
  {
    match node.shape
    case PaneShape(panelIds, selected) =>
      var ids := CopyStrings(panelIds);
      copy := new Node(PaneShape(ids, selected), {ids});
    case SplitShape(orientation, divider, first, second) =>
      var left := CloneNode(first);
      var right := CloneNode(second);
      copy := MakeSplit(orientation, ClampDivider(divider), left, right);
  }

  // ---------------------------------------------------------------- JSON

  datatype JsonShape =
    | Scalar(json: Json)
    | List(items: array<JsonObject>)
    | Record(fields: map<string, JsonObject>)

  /** A JSON value on the heap; parts of it may be shared. */
  class JsonObject {
    var shape: JsonShape
    ghost var Repr: set<object>

    ghost predicate Valid()
      reads this, Repr
      decreases Repr
    {
      && this in Repr
      && match shape
         case Scalar(json) => !json.Arr? && !json.Obj?
         case List(items) =>
           && items in Repr
           && forall i :: 0 <= i < items.Length ==>
                items[i] in Repr && items[i].Repr <= Repr - {this} && items[i].Valid()
         case Record(fields) =>
           forall name :: name in fields ==>
             fields[name] in Repr && fields[name].Repr <= Repr - {this} && fields[name].Valid()
    }

    ghost function Value(): Json
      requires Valid()
      reads this, Repr
      decreases Repr, 0
    {
      match shape
      case Scalar(json) => json
      case List(items) => Arr(Values(items[..]))
      case Record(fields) => Obj(map name | name in fields :: fields[name].Value())
    }

    ghost function Values(items: seq<JsonObject>): (values: seq<Json>)
      requires forall item :: item in items ==>
                 item.Repr <= Repr - {this} && this in Repr && item in Repr && item.Valid()
      reads this, Repr
      ensures |values| == |items| && forall i :: 0 <= i < |items| ==> values[i] == items[i].Value()
      decreases Repr, 0, |items|
    {
      if items == [] then [] else [items[0].Value()] + Values(items[1..])
    }
  }

  /** What is known of the fields of a record. */
  lemma FieldsOf(value: JsonObject)
    requires value.Valid() && value.shape.Record?
    ensures value.Value().Obj? && value.Value().fields.Keys == value.shape.fields.Keys
    ensures forall name :: name in value.shape.fields ==>
              var field := value.shape.fields[name];
              field.Valid() && field.Repr < value.Repr && value.Value().fields[name] == field.Value()
  {
  }

  /** The string that a value is, if it is one. */
  function Text(value: JsonObject): (text: Option<string>)
    reads value
  {
    if value.shape.Scalar? && value.shape.json.Str? then Some(value.shape.json.text) else None
  }

  lemma TextOf(value: JsonObject)
    requires value.Valid()
    ensures Text(value).Some? <==> value.Value().Str?
    ensures Text(value).Some? ==> value.Value() == Str(Text(value).value)
  {
  }

  function NumberOf(value: JsonObject): (number: Option<Number>)
    reads value
  {
    if value.shape.Scalar? && value.shape.json.Num? then Some(value.shape.json.number) else None
  }

  lemma NumberIs(value: JsonObject)
    requires value.Valid()
    ensures NumberOf(value).Some? <==> value.Value().Num?
    ensures NumberOf(value).Some? ==> value.Value() == Num(NumberOf(value).value)
  {
  }

  // ---------------------------------------------------------------- reading

  datatype ParsedNode = AcceptedNode(node: Node) | RejectedNode(complaint: Complaint, at: Path)

  /** What was read on the heap is what is read of the value. */
  ghost predicate Agrees(r: ParsedNode, parsed: Parsed)
    reads if r.AcceptedNode? then {r.node} + r.node.Repr else {}
  {
    match r
    case AcceptedNode(node) => node.Valid() && node.Unshared() && parsed == Accepted(node.Tree())
    case RejectedNode(complaint, at) => parsed == Rejected(complaint, at)
  }

  /** Validates and clones a value of unknown origin: what is accepted is made of new objects only. */
  method ReadNode(value: JsonObject, at: Path) returns (r: ParsedNode)
    requires value.Valid()
    ensures Agrees(r, ParseNode(value.Value(), at))
    ensures r.AcceptedNode? ==> fresh(r.node.Repr)
    decreases value.Repr, 1
  {
    hide ParsePane, ParseSplit;
    if !value.shape.Record? {
      return RejectedNode(NotAnObject, at);
    }
    var fields := value.shape.fields;
    var tag := if "type" in fields then Text(fields["type"]) else None;
    if "type" in fields { TextOf(fields["type"]); }
    if tag == Some("pane") {
      r := ReadPane(value, at);
    } else if tag == Some("split") {
      r := ReadSplit(value, at);
    } else {
      r := RejectedNode(UnknownType, at);
    }
  }

  method ReadStrings(list: JsonObject) returns (texts: Option<seq<string>>)
    requires list.Valid()
    ensures texts.None? <==>
            !list.Value().Arr? || exists i :: 0 <= i < |list.Value().items| && !list.Value().items[i].Str?
    ensures texts.Some? ==> |texts.value| == |list.Value().items|
    ensures texts.Some? ==> forall i :: 0 <= i < |texts.value| ==> list.Value().items[i] == Str(texts.value[i])
  {
    if !list.shape.List? {
      return None;
    }
    var items := list.shape.items;
    ghost var values := list.Value().items;
    assert values == list.Values(items[..]);
    var copied: seq<string> := [];
    for i := 0 to items.Length
      invariant |copied| == i && forall j :: 0 <= j < i ==> values[j] == Str(copied[j])
    {
      assert items[..][i] == items[i];
      assert values[i] == items[i].Value();
      TextOf(items[i]);
      var text := Text(items[i]);
      if text.None? {
        return None;
      }
      copied := copied + [text.value];
    }
    return Some(copied);
  }

  method ReadPane(value: JsonObject, at: Path) returns (r: ParsedNode)
    requires value.Valid() && value.shape.Record?
    ensures Agrees(r, ParsePane(value.Value().fields, at))
    ensures r.AcceptedNode? ==> fresh(r.node.Repr)
  {
    hide ParsePane, JsonObject.Valid, JsonObject.Value, JsonObject.Values;
    FieldsOf(value);
    PaneIsRejected(value.Value().fields, at);
    var fields := value.shape.fields;
    if "panel_ids" !in fields {
      return RejectedNode(PanelIdsNotStrings, at);
    }
    var texts := ReadStrings(fields["panel_ids"]);
    if texts.None? {
      return RejectedNode(PanelIdsNotStrings, at);
    }
    var selected: Option<string> := None;
    if "selected_panel_id" in fields {
      TextOf(fields["selected_panel_id"]);
      selected := Text(fields["selected_panel_id"]);
      if selected.None? {
        return RejectedNode(SelectedNotString, at);
      }
    }
    PaneIsAccepted(value.Value().fields, texts.value, selected, at);
    var ids := new string[|texts.value|](i requires 0 <= i < |texts.value| => texts.value[i]);
    var node := new Node(PaneShape(ids, selected), {ids});
    assert ids[..] == texts.value;
    return AcceptedNode(node);
  }

  lemma PaneIsRejected(fields: map<string, Json>, at: Path)
    ensures "panel_ids" !in fields || !fields["panel_ids"].Arr? ||
            (exists i :: 0 <= i < |fields["panel_ids"].items| && !fields["panel_ids"].items[i].Str?) ==>
            ParsePane(fields, at) == Rejected(PanelIdsNotStrings, at)
    ensures "panel_ids" in fields && fields["panel_ids"].Arr? &&
            (forall i :: 0 <= i < |fields["panel_ids"].items| ==> fields["panel_ids"].items[i].Str?) &&
            "selected_panel_id" in fields && !fields["selected_panel_id"].Str? ==>
            ParsePane(fields, at) == Rejected(SelectedNotString, at)
  {
  }

  lemma PaneIsAccepted(fields: map<string, Json>, texts: seq<string>, selected: Option<string>, at: Path)
    requires "panel_ids" in fields && fields["panel_ids"].Arr? && |fields["panel_ids"].items| == |texts|
    requires forall i :: 0 <= i < |texts| ==> fields["panel_ids"].items[i] == Str(texts[i])
    requires Get(fields, "selected_panel_id") == if selected.Some? then Some(Str(selected.value)) else None
    ensures ParsePane(fields, at) == Accepted(Pane(texts, selected))
  {
    TextsAre(fields["panel_ids"].items, texts);
  }

  method ReadSplit(value: JsonObject, at: Path) returns (r: ParsedNode)
    requires value.Valid() && value.shape.Record?
    ensures Agrees(r, ParseSplit(value.Value(), at))
    ensures r.AcceptedNode? ==> fresh(r.node.Repr)
    decreases value.Repr, 0
  {
    hide ParseNode, JsonObject.Valid, JsonObject.Value, JsonObject.Values, Node.Valid, Node.Tree, Node.Unshared;
    FieldsOf(value);
    var fields := value.shape.fields;
    var orientation := if "orientation" in fields then Text(fields["orientation"]) else None;
    if "orientation" in fields { TextOf(fields["orientation"]); }
    if orientation != Some("horizontal") && orientation != Some("vertical") {
      return RejectedNode(UnknownOrientation, at);
    }
    var divider := if "divider_position" in fields then NumberOf(fields["divider_position"]) else None;
    if "divider_position" in fields { NumberIs(fields["divider_position"]); }
    if divider.None? || divider.value.NaN? {
      return RejectedNode(DividerNotNumber, at);
    }
    if "first" !in fields {
      return RejectedNode(NotAnObject, at + [First]);
    }
    var left := ReadNode(fields["first"], at + [First]);
    if left.RejectedNode? {
      return left;
    }
    if "second" !in fields {
      return RejectedNode(NotAnObject, at + [Second]);
    }
    var right := ReadNode(fields["second"], at + [Second]);
    if right.RejectedNode? {
      return right;
    }
    var o := if orientation == Some("horizontal") then Horizontal else Vertical;
    var node := MakeSplit(o, ClampNumber(divider.value), left.node, right.node);
    return AcceptedNode(node);
  }
}
