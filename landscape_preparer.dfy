/**
 * LandscapePreparer: readies a landscape for display. Every application gets a
 * foundation component, its component trees get their initial `opened` flags, every
 * node group is opened exactly when it has one node, and every outgoing communication
 * is attached to its source application.
 */
module LandscapePreparation {
  import opened OpeningRule
  import opened Landscapes

  /**
   * `setComponentAttributes`: open or close `component` and, recursively, its subtree.
   * The flags that result are those of the opening rule; `index`, the depth of the
   * recursion, has no influence on them.
   */
  method SetComponentAttributes(component: Component, index: int, shouldBeOpened: bool)
    requires component.Valid()
    modifies component.repr`isOpened
    ensures component.Shape() == Opened(old(component.Shape()), shouldBeOpened)
    decreases component.repr, 1
  {
    ghost var before := component.Shape().children;
    forall k | 0 <= k < |component.children|
      ensures before[k] == component.children[k].Shape()
    {
      ShapeChild(component, k);
    }
    var openNextLevel := shouldBeOpened;
    if !openNextLevel {
      component.isOpened := false;
    } else if |component.children| == 1 {
      component.isOpened := true;
    } else {
      component.isOpened := true;
      openNextLevel := false;
    }
    SetChildrenAttributes(component, index, openNextLevel);
    forall k | 0 <= k < |component.children|
      ensures component.Shape().children[k] == Opened(old(component.Shape()), shouldBeOpened).children[k]
    {
      ShapeChild(component, k);
    }
  }

  /** The loop of `setComponentAttributes` over the children of `component`. */
  method SetChildrenAttributes(component: Component, index: int, openNextLevel: bool)
    requires component.Valid()
    modifies (component.repr - {component})`isOpened
    ensures forall k :: 0 <= k < |component.children| ==>
      component.children[k].Shape() == Opened(old(component.children[k].Shape()), openNextLevel)
    decreases component.repr, 0
  {
    var children := component.children;
    var i := 0;
    while i < |children|
      invariant 0 <= i <= |children|
      invariant forall k :: 0 <= k < i ==> children[k].Shape() == Opened(old(children[k].Shape()), openNextLevel)
      invariant forall k :: i <= k < |children| ==> children[k].Shape() == old(children[k].Shape())
    {
      label BeforeCall:
      SetComponentAttributes(children[i], index + 1, openNextLevel);
      assert forall k :: 0 <= k < |children| && k != i ==>
        children[k].Shape() == old@BeforeCall(children[k].Shape());
      i := i + 1;
    }
  }

  /** Component trees, each well formed, no two sharing a component. */
  ghost predicate Forest(trees: seq<Component>)
  {
    && (forall k :: 0 <= k < |trees| ==> trees[k].Valid())
    && (forall j, k :: 0 <= j < |trees| && 0 <= k < |trees| && j != k ==> trees[j].repr !! trees[k].repr)
  }

  /** Every component of the given trees. */
  ghost function Reprs(trees: seq<Component>): set<Component>
  {
    set k, o | 0 <= k < |trees| && o in trees[k].repr :: o
  }

  /**
   * The body of the innermost loop of `prepareLandscape`: a foundation component for the
   * application, then every top-level component opened by the rule.
   */
  method PrepareApplication(application: Application) returns (foundationComponent: Component)
    requires Forest(application.components)
    modifies Reprs(application.components)`isOpened
    ensures fresh(foundationComponent)
    ensures foundationComponent.foundation && foundationComponent.isOpened
    ensures foundationComponent.name == application.name
    ensures foundationComponent.fullQualifiedName == application.name
    ensures foundationComponent.belongingApplication == application
    ensures foundationComponent.children == application.components
    ensures foundationComponent.Valid()
    ensures forall k :: 0 <= k < |application.components| ==>
      application.components[k].Shape() == Opened(old(application.components[k].Shape()), true)
  {
    ghost var before := Shapes(application.components);
    foundationComponent := new Component.Foundation(application);
    var children := foundationComponent.children;
    var i := 0;
    while i < |children|
      modifies Reprs(children)`isOpened
      invariant 0 <= i <= |children|
      invariant OpenedUpTo(children, before, i)
    {
      SetComponentAttributesAt(children, i, before);
      i := i + 1;
    }
  }

  /** One round of the loop over the top-level components of an application. */
  method SetComponentAttributesAt(children: seq<Component>, i: nat, ghost before: seq<Tree>)
    requires i < |children| && Forest(children)
    requires OpenedUpTo(children, before, i)
    modifies Reprs(children)`isOpened
    ensures OpenedUpTo(children, before, i + 1)
  {
    ForestPart(children, i, i + 1);
    ReprsOfOne(children, i);
    SetComponentAttributes(children[i], 0, true);
    Advance(Stretch(children, before, i, i + 1));
  }

  /** The components of a one-tree stretch are those of its tree. */
  lemma ReprsOfOne(trees: seq<Component>, i: nat)
    requires i < |trees|
    ensures Reprs(trees[i..i + 1]) == trees[i].repr
  {
    assert trees[i..i + 1][0] == trees[i];
  }

  /** A stretch of a forest is a forest over part of its components. */
  lemma ForestPart(trees: seq<Component>, from: nat, to: nat)
    requires Forest(trees) && from <= to <= |trees|
    ensures Forest(trees[from..to])
    ensures Reprs(trees[from..to]) <= Reprs(trees)
  {
    var part := trees[from..to];
    forall o | o in Reprs(part)
      ensures o in Reprs(trees)
    {
      var k :| 0 <= k < |part| && o in part[k].repr;
      assert part[k] == trees[from + k];
    }
  }

  /** No tree outside a stretch of a forest shares a component with the stretch. */
  lemma OutsidePart(trees: seq<Component>, from: nat, to: nat)
    requires Forest(trees) && from <= to <= |trees|
    ensures forall k :: 0 <= k < |trees| && !(from <= k < to) ==> trees[k].repr !! Reprs(trees[from..to])
  {
    var part := trees[from..to];
    forall k, j | 0 <= k < |trees| && !(from <= k < to) && 0 <= j < |part|
      ensures trees[k].repr !! part[j].repr
    {
      assert part[j] == trees[from + j];
    }
  }

  /** The loop over the applications of a node. */
  method PrepareNode(node: Node)
    requires Forest(TopsOfNode(node))
    modifies Reprs(TopsOfNode(node))`isOpened
    ensures forall k :: 0 <= k < |TopsOfNode(node)| ==>
      TopsOfNode(node)[k].Shape() == Opened(old(TopsOfNode(node)[k].Shape()), true)
  {
    ghost var tops := TopsOfNode(node);
    ghost var before := Shapes(tops);
    var applications := node.applications;
    ghost var starts := Offsets(applications, ComponentsOfApplication);
    var i := 0;
    while i < |applications|
      invariant 0 <= i <= |applications|
      invariant OpenedUpTo(tops, before, starts[i])
    {
      PrepareApplicationAt(applications, i, tops, before, starts);
      i := i + 1;
    }
  }

  /** One round of the loop over the applications of a node. */
  method PrepareApplicationAt(applications: seq<Application>, i: nat,
                              ghost tops: seq<Component>, ghost before: seq<Tree>, ghost starts: seq<nat>)
    requires i < |applications| && tops == Concat(applications, ComponentsOfApplication) && Forest(tops)
    requires starts == Offsets(applications, ComponentsOfApplication)
    requires OpenedUpTo(tops, before, starts[i])
    modifies Reprs(tops)`isOpened
    ensures OpenedUpTo(tops, before, starts[i + 1])
  {
    OffsetsAt(applications, ComponentsOfApplication, i);
    assert ComponentsOfApplication(applications[i]) == tops[starts[i]..starts[i + 1]];
    ForestPart(tops, starts[i], starts[i + 1]);
    var _ := PrepareApplication(applications[i]);
    Advance(Stretch(tops, before, starts[i], starts[i + 1]));
  }

  /** The loop over the nodes of a node group, then its `opened` flag: set exactly when it has one node. */
  method PrepareNodeGroup(nodeGroup: NodeGroup)
    requires Forest(TopsOfNodeGroup(nodeGroup))
    modifies Reprs(TopsOfNodeGroup(nodeGroup))`isOpened, nodeGroup`isOpened
    ensures nodeGroup.isOpened <==> |nodeGroup.nodes| == 1
    ensures forall k :: 0 <= k < |TopsOfNodeGroup(nodeGroup)| ==>
      TopsOfNodeGroup(nodeGroup)[k].Shape() == Opened(old(TopsOfNodeGroup(nodeGroup)[k].Shape()), true)
  {
    ghost var tops := TopsOfNodeGroup(nodeGroup);
    ghost var before := Shapes(tops);
    var nodes := nodeGroup.nodes;
    ghost var starts := Offsets(nodes, TopsOfNode);
    var i := 0;
    while i < |nodes|
      invariant 0 <= i <= |nodes|
      invariant OpenedUpTo(tops, before, starts[i])
    {
      PrepareNodeAt(nodes, i, tops, before, starts);
      i := i + 1;
    }
    if |nodes| == 1 {
      nodeGroup.isOpened := true;
    } else {
      nodeGroup.isOpened := false;
    }
  }

  /** One round of the loop over the nodes of a node group. */
  method PrepareNodeAt(nodes: seq<Node>, i: nat,
                       ghost tops: seq<Component>, ghost before: seq<Tree>, ghost starts: seq<nat>)
    requires i < |nodes| && tops == Concat(nodes, TopsOfNode) && Forest(tops)
    requires starts == Offsets(nodes, TopsOfNode)
    requires OpenedUpTo(tops, before, starts[i])
    modifies Reprs(tops)`isOpened
    ensures OpenedUpTo(tops, before, starts[i + 1])
  {
    OffsetsAt(nodes, TopsOfNode, i);
    assert TopsOfNode(nodes[i]) == tops[starts[i]..starts[i + 1]];
    ForestPart(tops, starts[i], starts[i + 1]);
    PrepareNode(nodes[i]);
    Advance(Stretch(tops, before, starts[i], starts[i + 1]));
  }

  /** The loop over the node groups of a system. */
  method PrepareSystem(system: System)
    requires Forest(TopsOfSystem(system))
    modifies Reprs(TopsOfSystem(system))`isOpened, (set g | g in system.nodeGroups)`isOpened
    ensures forall g :: g in system.nodeGroups ==> (g.isOpened <==> |g.nodes| == 1)
    ensures forall k :: 0 <= k < |TopsOfSystem(system)| ==>
      TopsOfSystem(system)[k].Shape() == Opened(old(TopsOfSystem(system)[k].Shape()), true)
  {
    ghost var tops := TopsOfSystem(system);
    ghost var before := Shapes(tops);
    var nodeGroups := system.nodeGroups;
    ghost var starts := Offsets(nodeGroups, TopsOfNodeGroup);
    var i := 0;
    while i < |nodeGroups|
      invariant 0 <= i <= |nodeGroups|
      invariant FlagsSet(nodeGroups, i)
      invariant OpenedUpTo(tops, before, starts[i])
    {
      PrepareNodeGroupAt(nodeGroups, i, tops, before, starts);
      i := i + 1;
    }
  }

  /** One round of the loop over the node groups of a system. */
  method PrepareNodeGroupAt(nodeGroups: seq<NodeGroup>, i: nat,
                            ghost tops: seq<Component>, ghost before: seq<Tree>, ghost starts: seq<nat>)
    requires i < |nodeGroups| && tops == Concat(nodeGroups, TopsOfNodeGroup) && Forest(tops)
    requires starts == Offsets(nodeGroups, TopsOfNodeGroup)
    requires FlagsSet(nodeGroups, i) && OpenedUpTo(tops, before, starts[i])
    modifies Reprs(tops)`isOpened, (set g | g in nodeGroups)`isOpened
    ensures FlagsSet(nodeGroups, i + 1) && OpenedUpTo(tops, before, starts[i + 1])
  {
    OffsetsAt(nodeGroups, TopsOfNodeGroup, i);
    var part := TopsOfNodeGroup(nodeGroups[i]);
    assert part == tops[starts[i]..starts[i + 1]];
    ForestPart(tops, starts[i], starts[i + 1]);
    PrepareNodeGroup(nodeGroups[i]);
    Advance(Stretch(tops, before, starts[i], starts[i + 1]));
    FlagsKept(Round(nodeGroups, i));
  }

  /** The first `n` node groups are opened exactly when they have one node. */
  ghost predicate FlagsSet(nodeGroups: seq<NodeGroup>, n: nat)
    requires n <= |nodeGroups|
    reads set j | 0 <= j < n :: nodeGroups[j]
  {
    forall j :: 0 <= j < n ==> (nodeGroups[j].isOpened <==> |nodeGroups[j].nodes| == 1)
  }

  /**
   * Round `i` of a loop over `items`. The twostate lemmas below take their arguments packed
   * in one value: with several parameters, Dafny 4.11 under --warn-contradictory-assumptions
   * emits their allocation checks under one name and the solver rejects the query.
   */
  datatype Round<T> = Round(items: seq<T>, i: nat)

  /** Setting the flag of node group `i` and no other extends the groups whose flag is set. */
  twostate lemma FlagsKept(r: Round<NodeGroup>)
    requires r.i < |r.items|
    requires old(FlagsSet(r.items, r.i))
    requires r.items[r.i].isOpened <==> |r.items[r.i].nodes| == 1
    requires forall j :: 0 <= j < r.i && r.items[j] != r.items[r.i] ==> r.items[j].isOpened == old(r.items[j].isOpened)
    ensures FlagsSet(r.items, r.i + 1)
  {
  }

  /** The shapes of the trees of a forest. */
  ghost function Shapes(trees: seq<Component>): (ts: seq<Tree>)
    requires Forest(trees)
    reads Reprs(trees)`isOpened
    ensures |ts| == |trees| && forall k :: 0 <= k < |trees| ==> ts[k] == trees[k].Shape()
  {
    if trees == [] then []
    else
      var n := |trees| - 1;
      ForestPart(trees, 0, n);
      assert trees[n].repr <= Reprs(trees);
      Shapes(trees[..n]) + [trees[n].Shape()]
  }

  /**
   * The trees before `done` have the shapes the rule gives `before`, those from `done` on
   * still have the shapes in `before`.
   */
  ghost predicate OpenedUpTo(trees: seq<Component>, before: seq<Tree>, done: nat)
    requires Forest(trees)
    reads Reprs(trees)`isOpened
  {
    && |before| == |trees| && done <= |trees|
    && (forall k :: 0 <= k < done ==> trees[k].Shape() == Opened(before[k], true))
    && (forall k :: done <= k < |trees| ==> trees[k].Shape() == before[k])
  }

  /**
   * The trees `from` up to `to` of a forest whose trees had the shapes `before` when its loop
   * began; packed in one value for the same reason as `Round`.
   */
  datatype Stretch = Stretch(trees: seq<Component>, before: seq<Tree>, from: nat, to: nat)

  /**
   * One step of the loops over a forest: when the rule has just been applied to a stretch
   * and nothing outside it has changed, the trees opened so far extend to its end.
   */
  twostate lemma Advance(st: Stretch)
    requires Forest(st.trees) && st.from <= st.to <= |st.trees|
    requires old(OpenedUpTo(st.trees, st.before, st.from))
    requires forall k :: 0 <= k < st.to - st.from ==>
      st.trees[st.from..st.to][k].Shape() == Opened(old(st.trees[st.from..st.to][k].Shape()), true)
    requires forall o :: o in Reprs(st.trees) && o !in Reprs(st.trees[st.from..st.to]) ==> o.isOpened == old(o.isOpened)
    ensures OpenedUpTo(st.trees, st.before, st.to)
  {
    var trees, from, to := st.trees, st.from, st.to;
    OutsidePart(trees, from, to);
    forall k | from <= k < to
      ensures trees[k].Shape() == Opened(st.before[k], true)
    {
      assert trees[k] == trees[from..to][k - from];
    }
  }

  /** The node groups of a list of systems. */
  ghost function NodeGroupsOf(systems: seq<System>): set<NodeGroup>
  {
    set s, g | s in systems && g in s.nodeGroups :: g
  }

  /** The node groups of the first `n` systems are opened exactly when they have one node. */
  ghost predicate SystemFlagsSet(systems: seq<System>, n: nat)
    requires n <= |systems|
    reads NodeGroupsOf(systems[..n])
  {
    forall s, g :: 0 <= s < n && g in systems[s].nodeGroups ==> (g.isOpened <==> |g.nodes| == 1)
  }

  /** Setting the flags of the node groups of system `i` extends the systems whose flags are set. */
  twostate lemma SystemFlagsKept(r: Round<System>)
    requires r.i < |r.items|
    requires old(SystemFlagsSet(r.items, r.i))
    requires forall g :: g in r.items[r.i].nodeGroups ==> (g.isOpened <==> |g.nodes| == 1)
    requires forall s, g :: 0 <= s < r.i && g in r.items[s].nodeGroups && g !in r.items[r.i].nodeGroups ==>
      g.isOpened == old(g.isOpened)
    ensures SystemFlagsSet(r.items, r.i + 1)
  {
    var systems, i := r.items, r.i;
    forall s, g | 0 <= s < i + 1 && g in systems[s].nodeGroups
      ensures g.isOpened <==> |g.nodes| == 1
    {
      if s < i && g !in systems[i].nodeGroups {
        assert systems[..i][s] == systems[s];
      }
    }
  }

  /** The loop over the systems of a landscape. */
  method PrepareSystems(systems: seq<System>)
    requires Forest(TopsOfSystems(systems))
    modifies Reprs(TopsOfSystems(systems))`isOpened, NodeGroupsOf(systems)`isOpened
    ensures forall g :: g in NodeGroupsOf(systems) ==> (g.isOpened <==> |g.nodes| == 1)
    ensures forall k :: 0 <= k < |TopsOfSystems(systems)| ==>
      TopsOfSystems(systems)[k].Shape() == Opened(old(TopsOfSystems(systems)[k].Shape()), true)
  {
    ghost var tops := TopsOfSystems(systems);
    ghost var before := Shapes(tops);
    ghost var starts := Offsets(systems, TopsOfSystem);
    var i := 0;
    while i < |systems|
      invariant 0 <= i <= |systems|
      invariant SystemFlagsSet(systems, i)
      invariant OpenedUpTo(tops, before, starts[i])
    {
      PrepareSystemAt(systems, i, tops, before, starts);
      i := i + 1;
    }
    AllFlagsSet(systems);
  }

  /** One round of the loop over the systems of a landscape. */
  method PrepareSystemAt(systems: seq<System>, i: nat,
                         ghost tops: seq<Component>, ghost before: seq<Tree>, ghost starts: seq<nat>)
    requires i < |systems| && tops == Concat(systems, TopsOfSystem) && Forest(tops)
    requires starts == Offsets(systems, TopsOfSystem)
    requires SystemFlagsSet(systems, i) && OpenedUpTo(tops, before, starts[i])
    modifies Reprs(tops)`isOpened, NodeGroupsOf(systems)`isOpened
    ensures SystemFlagsSet(systems, i + 1) && OpenedUpTo(tops, before, starts[i + 1])
  {
    OffsetsAt(systems, TopsOfSystem, i);
    assert TopsOfSystem(systems[i]) == tops[starts[i]..starts[i + 1]];
    ForestPart(tops, starts[i], starts[i + 1]);
    PrepareSystem(systems[i]);
    Advance(Stretch(tops, before, starts[i], starts[i + 1]));
    SystemFlagsKept(Round(systems, i));
  }

  lemma AllFlagsSet(systems: seq<System>)
    requires SystemFlagsSet(systems, |systems|)
    ensures forall g :: g in NodeGroupsOf(systems) ==> (g.isOpened <==> |g.nodes| == 1)
  {
    assert systems[..|systems|] == systems;
    forall g | g in NodeGroupsOf(systems)
      ensures g.isOpened <==> |g.nodes| == 1
    {
      var s :| s in systems && g in s.nodeGroups;
      var k :| 0 <= k < |systems| && systems[k] == s;
    }
  }

  /** The communications of `cs` whose source is `a`, in their order in `cs`. */
  function CommsFrom(cs: seq<ApplicationCommunication>, a: Application): (r: seq<ApplicationCommunication>)
    ensures |r| <= |cs|
  {
    if cs == [] then []
    else
      var last := cs[|cs| - 1];
      CommsFrom(cs[..|cs| - 1], a) + (if last.sourceApplication == a then [last] else [])
  }

  /** `CommsFrom` keeps exactly the communications of `cs` that start from `a`. */
  lemma {:induction false} CommsFromMembers(cs: seq<ApplicationCommunication>, a: Application)
    ensures forall x :: x in CommsFrom(cs, a) ==> x in cs && x.sourceApplication == a
    ensures forall k :: 0 <= k < |cs| && cs[k].sourceApplication == a ==> cs[k] in CommsFrom(cs, a)
  {
    if cs != [] {
      var init := cs[..|cs| - 1];
      CommsFromMembers(init, a);
      forall k | 0 <= k < |cs| - 1
        ensures cs[k] == init[k]
      {
      }
    }
  }

  /** Taking one more communication into account appends it to the list of its source only. */
  lemma CommsFromNext(cs: seq<ApplicationCommunication>, i: nat)
    requires i < |cs|
    ensures forall a ::
      CommsFrom(cs[..i + 1], a) == CommsFrom(cs[..i], a) + (if cs[i].sourceApplication == a then [cs[i]] else [])
  {
    assert cs[..i + 1][..i] == cs[..i];
  }

  /** Every communication from `a` is kept as often as it occurs: duplicates are not merged. */
  lemma {:induction false} CommsFromCount(cs: seq<ApplicationCommunication>, a: Application, x: ApplicationCommunication)
    ensures multiset(CommsFrom(cs, a))[x] == if x.sourceApplication == a then multiset(cs)[x] else 0
  {
    if cs != [] {
      var init := cs[..|cs| - 1];
      CommsFromCount(init, a, x);
      assert cs == init + [cs[|cs| - 1]];
    }
  }

  /** The application a communication starts from, if it has one. */
  ghost function SourceOf(c: ApplicationCommunication): set<Application>
  {
    if c.sourceApplication == null then {} else {c.sourceApplication}
  }

  /** The applications some communication of `cs` starts from. */
  ghost function SourcesOf(cs: seq<ApplicationCommunication>): (r: set<Application>)
  {
    set c | c in cs && c.sourceApplication != null :: c.sourceApplication as Application
  }

  /**
   * `createOutgoingApplicationCommunication`: a communication with a source application is
   * appended to that application's outgoing list; one without a source is dropped.
   */
  method CreateOutgoingApplicationCommunication(communication: ApplicationCommunication)
    modifies SourceOf(communication)`outgoingApplicationCommunications
    ensures communication.sourceApplication != null ==>
      communication.sourceApplication.outgoingApplicationCommunications ==
        old(communication.sourceApplication.outgoingApplicationCommunications) + [communication]
  {
    var sourceApp := communication.sourceApplication;
    if sourceApp != null {
      sourceApp.outgoingApplicationCommunications := sourceApp.outgoingApplicationCommunications + [communication];
    }
  }

  /**
   * The loop of `prepareLandscape` over the landscape's outgoing communications: each
   * source application's list grows by that application's communications, in order.
   */
  method ConnectCommunications(comms: seq<ApplicationCommunication>)
    modifies SourcesOf(comms)`outgoingApplicationCommunications
    ensures forall a :: a in SourcesOf(comms) ==>
      a.outgoingApplicationCommunications == old(a.outgoingApplicationCommunications) + CommsFrom(comms, a)
  {
    ghost var initial := map a | a in SourcesOf(comms) :: a.outgoingApplicationCommunications;
    var i := 0;
    while i < |comms|
      invariant 0 <= i <= |comms|
      invariant Connected(comms, i, initial)
    {
      ConnectAt(comms, i, initial);
      i := i + 1;
    }
    assert comms[..|comms|] == comms;
  }

  /** The source applications' lists, from `initial` on, hold their communications among the first `n`. */
  ghost predicate Connected(comms: seq<ApplicationCommunication>, n: nat,
                            initial: map<Application, seq<ApplicationCommunication>>)
    requires n <= |comms|
    reads SourcesOf(comms)`outgoingApplicationCommunications
  {
    forall a :: a in SourcesOf(comms) ==>
      a in initial && a.outgoingApplicationCommunications == initial[a] + CommsFrom(comms[..n], a)
  }

  /** One round of the loop over the outgoing communications. */
  method ConnectAt(comms: seq<ApplicationCommunication>, i: nat,
                   ghost initial: map<Application, seq<ApplicationCommunication>>)
    requires i < |comms| && Connected(comms, i, initial)
    modifies SourcesOf(comms)`outgoingApplicationCommunications
    ensures Connected(comms, i + 1, initial)
  {
    var c := comms[i];
    CommsFromNext(comms, i);
    assert SourceOf(c) <= SourcesOf(comms);
    CreateOutgoingApplicationCommunication(c);
  }

  /** The components of a landscape's trees; none when there is no landscape. */
  ghost function ComponentsOf(landscape: Landscape?): set<Component>
  {
    if landscape == null then {} else Reprs(TopsOfSystems(landscape.systems))
  }

  /** The node groups of a landscape; none when there is no landscape. */
  ghost function NodeGroupsOfLandscape(landscape: Landscape?): set<NodeGroup>
  {
    if landscape == null then {} else NodeGroupsOf(landscape.systems)
  }

  /** The applications the landscape's outgoing communications start from. */
  ghost function SourcesOfLandscape(landscape: Landscape?): set<Application>
  {
    if landscape == null then {} else SourcesOf(landscape.outgoingApplicationCommunication)
  }

  /**
   * `prepareLandscape`. Without a landscape it returns a new, empty one; otherwise it
   * prepares the landscape in place and returns it.
   */
  method PrepareLandscape(landscape: Landscape?) returns (r: Landscape)
    requires landscape != null ==> Forest(TopsOfSystems(landscape.systems))
    modifies ComponentsOf(landscape)`isOpened, NodeGroupsOfLandscape(landscape)`isOpened
    modifies SourcesOfLandscape(landscape)`outgoingApplicationCommunications
    ensures landscape == null ==> fresh(r) && r.systems == [] && r.outgoingApplicationCommunication == []
    ensures landscape != null ==> r == landscape && Prepared(landscape)
    ensures forall a :: a in SourcesOfLandscape(landscape) ==>
      a.outgoingApplicationCommunications ==
        old(a.outgoingApplicationCommunications) + CommsFrom(landscape.outgoingApplicationCommunication, a)
  {
    if landscape == null {
      r := new Landscape();
      return;
    }
    PrepareExisting(landscape);
    r := landscape;
  }

  /** The node groups of the landscape are opened exactly when they have one node. */
  ghost predicate Prepared(landscape: Landscape)
    reads NodeGroupsOf(landscape.systems)
  {
    forall g :: g in NodeGroupsOf(landscape.systems) ==> (g.isOpened <==> |g.nodes| == 1)
  }

  /**
   * `prepareLandscape` on an existing landscape: every node group opened exactly when it has
   * one node, every component tree flagged by the opening rule from "should be opened", and
   * every outgoing communication appended to its source application's list.
   */
  method PrepareExisting(landscape: Landscape)
    requires Forest(TopsOfSystems(landscape.systems))
    modifies Reprs(TopsOfSystems(landscape.systems))`isOpened, NodeGroupsOf(landscape.systems)`isOpened
    modifies SourcesOf(landscape.outgoingApplicationCommunication)`outgoingApplicationCommunications
    ensures Prepared(landscape)
    ensures forall k :: 0 <= k < |TopsOfSystems(landscape.systems)| ==>
      TopsOfSystems(landscape.systems)[k].Shape() == Opened(old(TopsOfSystems(landscape.systems)[k].Shape()), true)
    ensures forall a :: a in SourcesOf(landscape.outgoingApplicationCommunication) ==>
      a.outgoingApplicationCommunications ==
        old(a.outgoingApplicationCommunications) + CommsFrom(landscape.outgoingApplicationCommunication, a)
  {
    ghost var tops := TopsOfSystems(landscape.systems);
    PrepareSystems(landscape.systems);
    ghost var after := Shapes(tops);
    ConnectCommunications(landscape.outgoingApplicationCommunication);
    assert Shapes(tops) == after;
  }
}
