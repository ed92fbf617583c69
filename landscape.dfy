/**
 * The part of the landscape object graph LandscapePreparer touches: systems hold node
 * groups, node groups hold nodes, nodes hold applications, applications hold their
 * top-level components, and components hold their children. The preparer only writes
 * the `opened` flags of components and node groups and the outgoing communication lists
 * of applications; the links it merely follows are `const` here.
 */
module Landscapes {
  import opened OpeningRule

  class Component {
    var name: string
    var fullQualifiedName: string
    var isOpened: bool
    var foundation: bool
    var belongingApplication: Application?
    const children: seq<Component>
    /** This component and every component below it. */
    ghost const repr: set<Component>

    /** The children form a tree below this component: no sharing, no cycles. */
    ghost predicate Valid()
      decreases repr
    {
      && this in repr
      && (forall k :: 0 <= k < |children| ==>
            && children[k].repr < repr
            && this !in children[k].repr
            && children[k].Valid())
      && (forall j, k :: 0 <= j < k < |children| ==> children[j].repr !! children[k].repr)
    }

    /** The flags of the subtree below this component, as a tree value. */
    ghost function Shape(): (t: Tree)
      requires Valid()
      reads repr`isOpened
      ensures t.isOpened == isOpened && |t.children| == |children|
      decreases repr, 1
    {
      Tree(isOpened, ChildShapes(|children|))
    }

    /** The shapes of the first `n` children. */
    ghost function ChildShapes(n: nat): (ts: seq<Tree>)
      requires Valid() && n <= |children|
      reads repr`isOpened
      ensures |ts| == n
      decreases repr, 0, n
    {
      if n == 0 then [] else ChildShapes(n - 1) + [children[n - 1].Shape()]
    }

    /**
     * The component LandscapePreparer builds on top of an application: a foundation,
     * opened, named after the application, belonging to it, with the application's
     * top-level components as its children, which makes it the root of a tree over them.
     */
    constructor Foundation(application: Application)
      requires forall k :: 0 <= k < |application.components| ==> application.components[k].Valid()
      requires forall j, k :: 0 <= j < k < |application.components| ==>
        application.components[j].repr !! application.components[k].repr
      ensures Valid()
      ensures foundation && isOpened
      ensures name == application.name && fullQualifiedName == application.name
      ensures belongingApplication == application
      ensures children == application.components
    {
      name := application.name;
      fullQualifiedName := application.name;
      isOpened := true;
      foundation := true;
      belongingApplication := application;
      children := application.components;
      repr := {this} + set k, o | 0 <= k < |application.components| && o in application.components[k].repr :: o;
    }
  }

  /** Child `k`'s shape is the `k`-th child of the parent's shape. */
  lemma ShapeChild(c: Component, k: nat)
    requires c.Valid() && k < |c.children|
    ensures c.Shape().children[k] == c.children[k].Shape()
  {
    ChildShapesAt(c, |c.children|, k);
  }

  lemma {:induction false} ChildShapesAt(c: Component, n: nat, k: nat)
    requires c.Valid() && k < n <= |c.children|
    ensures c.ChildShapes(n)[k] == c.children[k].Shape()
    decreases n
  {
    if k < n - 1 {
      ChildShapesAt(c, n - 1, k);
    }
  }

  class Application {
    const name: string
    const components: seq<Component>
    var outgoingApplicationCommunications: seq<ApplicationCommunication>
  }

  class ApplicationCommunication {
    const sourceApplication: Application?
  }

  datatype Node = Node(applications: seq<Application>)

  class NodeGroup {
    const nodes: seq<Node>
    var isOpened: bool
  }

  datatype System = System(nodeGroups: seq<NodeGroup>)

  class Landscape {
    const systems: seq<System>
    const outgoingApplicationCommunication: seq<ApplicationCommunication>

    /** `new Landscape()`: no systems and no communication. */
    constructor ()
      ensures systems == [] && outgoingApplicationCommunication == []
    {
      systems := [];
      outgoingApplicationCommunication := [];
    }
  }

  /** The lists `f` gives for the elements of `xs`, one after the other. */
  function Concat<T, U>(xs: seq<T>, f: T -> seq<U>): (r: seq<U>)
  {
    if xs == [] then [] else Concat(xs[..|xs| - 1], f) + f(xs[|xs| - 1])
  }

  /** Stretch `i` of `c`, between the offsets `starts[i]` and `starts[i + 1]`, is `part`. */
  ghost predicate Segmented<U>(c: seq<U>, starts: seq<nat>, i: nat, part: seq<U>)
  {
    i + 1 < |starts| && starts[i] <= starts[i + 1] <= |c| && c[starts[i]..starts[i + 1]] == part
  }

  /** Where the part each element of `xs` contributes to `Concat(xs, f)` starts, and where the last ends. */
  ghost function Offsets<T, U>(xs: seq<T>, f: T -> seq<U>): (starts: seq<nat>)
    ensures |starts| == |xs| + 1 && starts[0] == 0 && starts[|xs|] == |Concat(xs, f)|
  {
    if xs == [] then [0] else Offsets(xs[..|xs| - 1], f) + [|Concat(xs, f)|]
  }

  /** Element `i` contributes the stretch of `Concat(xs, f)` between offsets `i` and `i + 1`. */
  lemma {:induction false} OffsetsAt<T, U>(xs: seq<T>, f: T -> seq<U>, i: nat)
    requires i < |xs|
    ensures Segmented(Concat(xs, f), Offsets(xs, f), i, f(xs[i]))
    decreases |xs|
  {
    var n := |xs| - 1;
    var front, last := Concat(xs[..n], f), f(xs[n]);
    var init := Offsets(xs[..n], f);
    assert Concat(xs, f) == front + last;
    assert Offsets(xs, f) == init + [|front + last|];
    if i < n {
      OffsetsAt(xs[..n], f, i);
      assert xs[..n][i] == xs[i];
      assert (front + last)[init[i]..init[i + 1]] == front[init[i]..init[i + 1]];
    } else {
      assert (front + last)[|front|..] == last;
    }
  }

  function ComponentsOfApplication(application: Application): seq<Component>
  {
    application.components
  }

  /** The top-level components of the applications on a node, in loop order. */
  function TopsOfNode(node: Node): seq<Component>
  {
    Concat(node.applications, ComponentsOfApplication)
  }

  function TopsOfNodeGroup(nodeGroup: NodeGroup): seq<Component>
  {
    Concat(nodeGroup.nodes, TopsOfNode)
  }

  function TopsOfSystem(system: System): seq<Component>
  {
    Concat(system.nodeGroups, TopsOfNodeGroup)
  }

  function TopsOfSystems(systems: seq<System>): seq<Component>
  {
    Concat(systems, TopsOfSystem)
  }
}
