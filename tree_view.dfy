/** The side-panel tree of the `oreore` view: two collapsed roots with two
    leaves each, every leaf running the "say hello" command. */
module TreeView {
  import Wrappers

  datatype CollapsibleState = None | Collapsed | Expanded

  /** A command a tree item runs when it is activated. */
  datatype Command = Command(command: string, title: string, arguments: seq<string>)

  /** A tree item. A property the item does not have (`children` on a leaf,
      `command` on a root) is `Wrappers.None`. */
  datatype TreeNode = TreeNode(
    labelText: string,
    collapsibleState: CollapsibleState,
    children: Wrappers.Option<seq<TreeNode>>,
    command: Wrappers.Option<Command>)

  const SayHello: Command := Command("oreore.helloWorld", "say hello", [])

  /** A leaf of the tree: not collapsible, runs "say hello". */
  function Leaf(labelText: string): TreeNode
  {
    TreeNode(labelText, None, Wrappers.None, Wrappers.Some(SayHello))
  }

  /** A root of the tree: collapsed, with two leaves under it. */
  function Root(labelText: string): TreeNode
  {
    TreeNode(labelText, Collapsed,
      Wrappers.Some([Leaf(labelText + "/child1"), Leaf(labelText + "/child2")]),
      Wrappers.None)
  }

  const TreeData: seq<TreeNode> := [Root("root1"), Root("root2")]

  /** `getChildren`: the roots when no element is given, otherwise the
      element's own `children`. */
  function GetChildren(element: Wrappers.Option<TreeNode>): (r: Wrappers.Option<seq<TreeNode>>)
    ensures element.None? ==> r == Wrappers.Some(TreeData)
    ensures element.Some? ==> r == element.value.children
  {
    match element
    case None => Wrappers.Some(TreeData)
    case Some(node) => node.children
  }

  /** The roots: `root1` and `root2`, both collapsed and without a command. */
  lemma RootsOfTree()
    ensures GetChildren(Wrappers.None) == Wrappers.Some(TreeData)
    ensures |TreeData| == 2
    ensures TreeData[0].labelText == "root1" && TreeData[1].labelText == "root2"
    ensures forall i :: 0 <= i < 2 ==>
      TreeData[i].collapsibleState == Collapsed && TreeData[i].command.None?
  {
  }

  /** Each root expands to two leaves named after it, `<root>/child1` and
      `<root>/child2`; each leaf is not collapsible, runs "say hello" and
      has no `children` to expand. */
  lemma ChildrenOfRoot(i: nat)
    requires i < |TreeData|
    ensures GetChildren(Wrappers.Some(TreeData[i])).Some?
    ensures var kids := GetChildren(Wrappers.Some(TreeData[i])).value;
      && |kids| == 2
      && kids[0].labelText == TreeData[i].labelText + "/child1"
      && kids[1].labelText == TreeData[i].labelText + "/child2"
      && forall j :: 0 <= j < 2 ==>
           && kids[j].collapsibleState == None
           && kids[j].command == Wrappers.Some(SayHello)
           && GetChildren(Wrappers.Some(kids[j])).None?
  {
  }

  /** Throughout the tree, a node offers children exactly when it is
      collapsible, so the view only ever asks a node with children for them. */
  lemma ExpandableExactlyWithChildren(i: nat, j: nat)
    requires i < |TreeData| && j < 2
    ensures TreeData[i].children.Some? <==> TreeData[i].collapsibleState != None
    ensures var kid := TreeData[i].children.value[j];
      kid.children.Some? <==> kid.collapsibleState != None
  {
  }
}
