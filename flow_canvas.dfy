/**
 * The flow canvas of src/App.jsx: pressing the mouse starts a temporary
 * edge from node '1', moving drags its end, releasing it opens the node-type
 * selector at the release point, and choosing a type appends a node at the
 * selector's position (which the type button's own click moves to the click
 * point). React state updates are taken as sequential field assignments.
 */
module FlowCanvas {
  import opened Wrappers

  datatype Point = Point(x: int, y: int)

  /** A node: `position` is `null` when the selector position was not set. */
  datatype Node = Node(id: string, kind: string, dataLabel: string, position: Option<Point>)

  /** An edge record as `onEdgesChange` receives it. */
  datatype Edge = Edge(id: string, source: string, target: string)

  datatype EdgeStyle = EdgeStyle(stroke: string, strokeWidth: nat)

  /** The temporary edge drawn while a connection is being created. */
  datatype TempEdge = TempEdge(
    id: string, source: string, target: string,
    sourceHandle: string, targetHandle: string,
    animated: bool, style: EdgeStyle, kind: string,
    targetPosition: Option<Point>)

  const InitialNode := Node("1", "default", "初始节点", Some(Point(250, 5)))

  /** The edge `handleMouseDown` creates: it has no target position until the mouse moves. */
  const StartEdge := TempEdge("temp-edge", "1", "temp-target", "a", "b", true, EdgeStyle("#ddd", 2), "smoothstep", None)

  function Digit(d: nat): (c: char)
    requires d < 10
    ensures '0' <= c <= '9' && (c as int) - ('0' as int) == d
  {
    (('0' as int) + d) as char
  }

  /** `${n}`: the decimal digits of n, without leading zeros. */
  function DecimalString(n: nat): (s: string)
    ensures |s| >= 1
    ensures forall i :: 0 <= i < |s| ==> '0' <= s[i] <= '9'
    ensures s[0] == '0' <==> n == 0
    decreases n
  {
    if n < 10 then [Digit(n)] else DecimalString(n / 10) + [Digit(n % 10)]
  }

  /** The number a string of decimal digits stands for. */
  function ParseDecimal(s: string): nat
    requires forall i :: 0 <= i < |s| ==> '0' <= s[i] <= '9'
    decreases |s|
  {
    if s == [] then 0
    else ParseDecimal(s[..|s| - 1]) * 10 + ((s[|s| - 1] as int) - ('0' as int))
  }

  /** Reading a node id back gives the count it was made from, so different counts give different ids. */
  lemma {:induction false} ParseDecimalString(n: nat)
    ensures ParseDecimal(DecimalString(n)) == n
    decreases n
  {
    if n >= 10 {
      ParseDecimalString(n / 10);
      var s := DecimalString(n);
      assert s[..|s| - 1] == DecimalString(n / 10);
    }
  }

  /** `type === 'custom' ? 'custom' : 'default'`. */
  function NodeKind(choice: string): (kind: string)
    ensures kind == "custom" || kind == "default"
    ensures kind == "custom" <==> choice == "custom"
  {
    if choice == "custom" then "custom" else "default"
  }

  /** The label of a new node, by the same choice. */
  function NodeLabel(choice: string): string
  {
    (if choice == "custom" then "自定义" else "默认") + "节点"
  }

  /** `!newNodeType`: no type chosen yet, or the empty string chosen. */
  predicate NoTypeChosen(newNodeType: Option<string>)
  {
    newNodeType.None? || newNodeType == Some("")
  }

  class Canvas {
    var nodes: seq<Node>
    var edges: seq<Edge>
    var isCreating: bool
    var tempEdge: Option<TempEdge>
    var nodeSelectorPos: Option<Point>
    var newNodeType: Option<string>

    /** A temporary edge exists exactly while creating; nodes are only ever appended after the initial one. */
    predicate Valid()
      reads this
    {
      (isCreating <==> tempEdge.Some?) && |nodes| >= 1 && nodes[0] == InitialNode
    }

    /** The type selector is rendered while it has a position and no type was chosen. */
    predicate SelectorVisible()
      reads this
    {
      nodeSelectorPos.Some? && NoTypeChosen(newNodeType)
    }

    constructor()
      ensures Valid()
      ensures nodes == [InitialNode] && edges == []
      ensures !isCreating && tempEdge == None && nodeSelectorPos == None && newNodeType == None
      ensures !SelectorVisible()
    {
      nodes := [InitialNode];
      edges := [];
      isCreating := false;
      tempEdge := None;
      nodeSelectorPos := None;
      newNodeType := None;
    }

    /** `handleMouseDown`: always starts creating, with a fresh temporary edge (the coordinates are not used). */
    method MouseDown(clientX: int, clientY: int)
      requires Valid()
      modifies this
      ensures Valid()
      ensures isCreating && tempEdge == Some(StartEdge)
      ensures nodes == old(nodes) && edges == old(edges)
      ensures nodeSelectorPos == old(nodeSelectorPos) && newNodeType == old(newNodeType)
    {
      isCreating := true;
      tempEdge := Some(StartEdge);
    }

    /** `handleMouseMove`: while creating, only the temporary edge's target point follows the mouse. */
    method MouseMove(clientX: int, clientY: int)
      requires Valid()
      modifies this
      ensures Valid()
      ensures !old(isCreating) ==> tempEdge == old(tempEdge)
      ensures old(isCreating) ==> tempEdge == Some(old(tempEdge).value.(targetPosition := Some(Point(clientX, clientY))))
      ensures isCreating == old(isCreating)
      ensures nodes == old(nodes) && edges == old(edges)
      ensures nodeSelectorPos == old(nodeSelectorPos) && newNodeType == old(newNodeType)
    {
      if !isCreating {
        return;
      }
      tempEdge := Some(tempEdge.value.(targetPosition := Some(Point(clientX, clientY))));
    }

    /** `handleMouseUp`: ends creating, drops the temporary edge and places the selector at the mouse. */
    method MouseUp(clientX: int, clientY: int)
      requires Valid()
      modifies this
      ensures Valid()
      ensures !old(isCreating) ==>
        isCreating == old(isCreating) && tempEdge == old(tempEdge) && nodeSelectorPos == old(nodeSelectorPos)
      ensures old(isCreating) ==>
        !isCreating && tempEdge == None && nodeSelectorPos == Some(Point(clientX, clientY))
      ensures nodes == old(nodes) && edges == old(edges) && newNodeType == old(newNodeType)
    {
      if !isCreating {
        return;
      }
      nodeSelectorPos := Some(Point(clientX, clientY));
      isCreating := false;
      tempEdge := None;
    }

    /**
     * `handleNodeTypeSelect(type)`: records the choice and appends one node,
     * numbered after the current nodes, at the selector position (which may
     * be unset), then hides the selector.
     */
    method NodeTypeSelect(choice: string)
      requires Valid()
      modifies this
      ensures Valid()
      ensures newNodeType == Some(choice)
      ensures nodes == old(nodes) + [Node(DecimalString(|old(nodes)| + 1), NodeKind(choice), NodeLabel(choice), old(nodeSelectorPos))]
      ensures nodeSelectorPos == None
      ensures !SelectorVisible()
      ensures edges == old(edges) && isCreating == old(isCreating) && tempEdge == old(tempEdge)
    {
      newNodeType := Some(choice);
      var newNode := Node(DecimalString(|nodes| + 1), NodeKind(choice), NodeLabel(choice), nodeSelectorPos);
      nodes := nodes + [newNode];
      nodeSelectorPos := None;
    }

    /** `onNodesChange(changes)`: the change records are appended after the existing nodes. */
    method OnNodesChange(changes: seq<Node>)
      requires Valid()
      modifies this
      ensures Valid()
      ensures nodes == old(nodes) + changes
      ensures edges == old(edges) && isCreating == old(isCreating) && tempEdge == old(tempEdge)
      ensures nodeSelectorPos == old(nodeSelectorPos) && newNodeType == old(newNodeType)
    {
      nodes := nodes + changes;
    }

    /** `onEdgesChange(changes)`: the change records are appended after the existing edges. */
    method OnEdgesChange(changes: seq<Edge>)
      requires Valid()
      modifies this
      ensures Valid()
      ensures edges == old(edges) + changes
      ensures nodes == old(nodes) && isCreating == old(isCreating) && tempEdge == old(tempEdge)
      ensures nodeSelectorPos == old(nodeSelectorPos) && newNodeType == old(newNodeType)
    {
      edges := edges + changes;
    }

    /**
     * A whole gesture: press, drag and release on the canvas open the
     * selector, then a click on a type button at `click` chooses the type.
     * The selector is rendered inside the canvas div, so the button's
     * mousedown and mouseup reach `handleMouseDown` and `handleMouseUp`
     * first: the selector moves to the click point, and the one node added
     * is placed there, not at the release point. Once a non-empty type has
     * been chosen, the selector stays hidden.
     */
    method CreateNode(down: Point, move: Point, up: Point, click: Point, choice: string)
      requires Valid()
      modifies this
      ensures Valid()
      ensures nodes == old(nodes) + [Node(DecimalString(|old(nodes)| + 1), NodeKind(choice), NodeLabel(choice), Some(click))]
      ensures edges == old(edges) && !isCreating && tempEdge == None
      ensures choice != "" ==> !SelectorVisible()
    {
      MouseDown(down.x, down.y);
      MouseMove(move.x, move.y);
      MouseUp(up.x, up.y);
      MouseDown(click.x, click.y);
      MouseUp(click.x, click.y);
      NodeTypeSelect(choice);
    }

    /** After a non-empty type was chosen, no mouse event can show the selector again. */
    method PressDragRelease(down: Point, move: Point, up: Point)
      requires Valid()
      requires newNodeType.Some? && newNodeType != Some("")
      modifies this
      ensures Valid()
      ensures nodeSelectorPos == Some(up) || nodeSelectorPos == old(nodeSelectorPos)
      ensures newNodeType == old(newNodeType)
      ensures !SelectorVisible()
    {
      MouseDown(down.x, down.y);
      MouseMove(move.x, move.y);
      MouseUp(up.x, up.y);
    }
  }
}
