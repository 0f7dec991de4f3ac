/** The call tree of a multi-contract trace (src/call_tree.rs): what the path-addressed tree
    records about the enter and exit events that built it. */
module CallTree {
  import opened Basics

  datatype CallType = Call | DelegateCall | StaticCall | Create | Create2 | Transaction

  /** `children` is owned by its node, so a node is a value. The end step is 0 until the frame exits. */
  datatype CallNode = CallNode(
    address: Address,
    functionName: string,
    callType: CallType,
    children: seq<CallNode>,
    startStep: nat,
    endStep: nat)

  datatype Tree = Tree(root: CallNode, path: seq<nat>)

  datatype Event = Enter(address: Address, callType: CallType, step: nat) | Exit(step: nat)

  function NewNode(address: Address, callType: CallType, step: nat): CallNode {
    CallNode(address, "", callType, [], step, 0)
  }

  // ---- addressing -----------------------------------------------------------------------------

  predicate ValidPath(node: CallNode, path: seq<nat>) {
    path == [] || (path[0] < |node.children| && ValidPath(node.children[path[0]], path[1..]))
  }

  function At(node: CallNode, path: seq<nat>): CallNode
    requires ValidPath(node, path)
  {
    if path == [] then node else At(node.children[path[0]], path[1..])
  }

  /** The tree with the node at `path` exchanged, all other nodes as they were. */
  function Replaced(node: CallNode, path: seq<nat>, replacement: CallNode): CallNode
    requires ValidPath(node, path)
    decreases |path|
  {
    if path == [] then replacement
    else node.(children := node.children[path[0] := Replaced(node.children[path[0]], path[1..], replacement)])
  }

  function Entered(t: Tree, address: Address, callType: CallType, step: nat): Tree
    requires ValidPath(t.root, t.path)
  {
    var parent := At(t.root, t.path);
    Tree(Replaced(t.root, t.path, parent.(children := parent.children + [NewNode(address, callType, step)])),
         t.path + [|parent.children|])
  }

  function Exited(t: Tree, step: nat): Tree
    requires ValidPath(t.root, t.path)
  {
    if t.path == [] then t
    else Tree(Replaced(t.root, t.path, At(t.root, t.path).(endStep := step)), t.path[..|t.path| - 1])
  }

  class CallTree {
    var root: CallNode
    var path: seq<nat>

    predicate Valid()
      reads this
    {
      ValidPath(root, path)
    }

    function State(): Tree
      reads this
    {
      Tree(root, path)
    }

    constructor (rootAddress: Address)
      ensures State() == NewTree(rootAddress) && Valid()
    {
      root := NewNode(rootAddress, Transaction, 0);
      path := [];
    }

    /** The currently executing node, found by walking down from the root. */
    method Current() returns (node: CallNode)
      requires Valid()
      ensures node == At(root, path)
    {
      node := root;
      for i := 0 to |path|
        invariant ValidPath(node, path[i..]) && At(node, path[i..]) == At(root, path)
      {
        assert path[i..][1..] == path[i + 1..];
        node := node.children[path[i]];
      }
    }

    method EnterCall(address: Address, callType: CallType, step: nat)
      requires Valid()
      modifies this
      ensures Valid() && State() == Entered(old(State()), address, callType, step)
    {
      var child := NewNode(address, callType, step);
      var parent := Current();
      var childIdx := |parent.children|;
      var grown := parent.(children := parent.children + [child]);
      ReplacedPaths(root, path, grown);
      root := Replaced(root, path, grown);
      ExtendedPath(root, path, childIdx);
      path := path + [childIdx];
    }

    method ExitCall(step: nat)
      requires Valid()
      modifies this
      ensures Valid() && State() == Exited(old(State()), step)
    {
      if path == [] {
        return;
      }
      var node := Current();
      ReplacedPaths(root, path, node.(endStep := step));
      root := Replaced(root, path, node.(endStep := step));
      PrefixPath(root, path, |path| - 1);
      path := path[..|path| - 1];
    }
  }

  lemma {:induction false} ReplacedPaths(node: CallNode, path: seq<nat>, replacement: CallNode)
    requires ValidPath(node, path)
    ensures ValidPath(Replaced(node, path, replacement), path)
            && At(Replaced(node, path, replacement), path) == replacement
    decreases |path|
  {
    if path == [] {
    } else {
      ReplacedPaths(node.children[path[0]], path[1..], replacement);
    }
  }

  lemma {:induction false} ExtendedPath(node: CallNode, path: seq<nat>, k: nat)
    requires ValidPath(node, path) && k < |At(node, path).children|
    ensures ValidPath(node, path + [k])
    decreases |path|
  {
    if path == [] {
      assert ([] + [k])[1..] == [];
    } else {
      ExtendedPath(node.children[path[0]], path[1..], k);
      assert (path + [k])[1..] == path[1..] + [k];
    }
  }

  lemma {:induction false} PrefixPath(node: CallNode, path: seq<nat>, n: nat)
    requires ValidPath(node, path) && n <= |path|
    ensures ValidPath(node, path[..n])
    decreases |path|
  {
    if n == 0 {
    } else {
      PrefixPath(node.children[path[0]], path[1..], n - 1);
      assert path[..n][1..] == path[1..][..n - 1];
    }
  }

  // ---- runs of events -------------------------------------------------------------------------

  function NewTree(rootAddress: Address): Tree {
    Tree(NewNode(rootAddress, Transaction, 0), [])
  }

  /** The path always addresses the last child of each parent: the open frames are the right spine. */
  predicate RightSpine(node: CallNode, path: seq<nat>)
    ensures RightSpine(node, path) ==> ValidPath(node, path)
    decreases |path|
  {
    path == [] || (path[0] + 1 == |node.children| && RightSpine(node.children[path[0]], path[1..]))
  }

  /** The tree left by a sequence of calls on a new tree. */
  function Built(rootAddress: Address, events: seq<Event>): (t: Tree)
    ensures RightSpine(t.root, t.path)
  {
    if events == [] then NewTree(rootAddress)
    else
      var t := Built(rootAddress, events[..|events| - 1]);
      match events[|events| - 1]
      case Enter(a, c, s) =>
        EnteredAppends(t.root, t.path, NewNode(a, c, s));
        Entered(t, a, c, s)
      case Exit(s) =>
        if t.path == [] then Exited(t, s)
        else
          ExitedAppends(t.root, t.path, s);
          Exited(t, s)
  }

  /** The frames that are open after the events. */
  function OpenFrames(events: seq<Event>): nat {
    if events == [] then 0
    else
      var n := OpenFrames(events[..|events| - 1]);
      if events[|events| - 1].Enter? then n + 1 else Max(0, n - 1)
  }

  /** The events that have an effect: exits at the root are dropped. */
  function Effective(events: seq<Event>): seq<Event> {
    if events == [] then []
    else
      var init, last := events[..|events| - 1], events[|events| - 1];
      if last.Exit? && OpenFrames(init) == 0 then Effective(init) else Effective(init) + [last]
  }

  lemma {:induction false} EffectiveSnoc(events: seq<Event>, e: Event)
    ensures OpenFrames(events + [e]) == if e.Enter? then OpenFrames(events) + 1 else Max(0, OpenFrames(events) - 1)
    ensures Effective(events + [e])
            == Effective(events) + if e.Exit? && OpenFrames(events) == 0 then [] else [e]
  {
    assert (events + [e])[..|events|] == events;
  }

  /** Exits of open frames all have an effect. */
  lemma {:induction false} ExitsClose(events: seq<Event>, exits: seq<Event>)
    requires (forall k :: 0 <= k < |exits| ==> exits[k].Exit?) && |exits| <= OpenFrames(events)
    ensures OpenFrames(events + exits) == OpenFrames(events) - |exits|
    ensures Effective(events + exits) == Effective(events) + exits
    decreases |exits|
  {
    if exits == [] {
      assert events + exits == events;
    } else {
      var init, last := exits[..|exits| - 1], exits[|exits| - 1];
      ExitsClose(events, init);
      assert last.Exit?;
      EffectiveSnoc(events + init, last);
      assert events + exits == events + init + [last] && init + [last] == exits;
    }
  }

  /** Preorder reading of finished frames. */
  function Forest(nodes: seq<CallNode>): seq<Event> {
    if nodes == [] then []
    else Forest(nodes[..|nodes| - 1]) + Closed(nodes[|nodes| - 1])
  }

  function Closed(n: CallNode): seq<Event> {
    [Enter(n.address, n.callType, n.startStep)] + Forest(n.children) + [Exit(n.endStep)]
  }

  /** Preorder reading below `node`, where the frames along `path` are still open. */
  function History(node: CallNode, path: seq<nat>): seq<Event>
    requires RightSpine(node, path)
    decreases |path|
  {
    if path == [] then Forest(node.children)
    else
      var last := node.children[path[0]];
      Forest(node.children[..path[0]]) + [Enter(last.address, last.callType, last.startStep)] + History(last, path[1..])
  }

  lemma {:induction false} EnteredAppends(node: CallNode, path: seq<nat>, child: CallNode)
    requires RightSpine(node, path) && child.children == []
    ensures var parent := At(node, path);
            var node', path' := Replaced(node, path, parent.(children := parent.children + [child])),
              path + [|parent.children|];
            RightSpine(node', path')
              && History(node', path') == History(node, path) + [Enter(child.address, child.callType, child.startStep)]
    decreases |path|
  {
    var parent := At(node, path);
    var grown := parent.(children := parent.children + [child]);
    var node', path' := Replaced(node, path, grown), path + [|parent.children|];
    if path == [] {
      assert path'[1..] == [];
      assert node'.children[..path'[0]] == node.children;
    } else {
      var k := path[0];
      EnteredAppends(node.children[k], path[1..], child);
      assert path'[0] == k && path'[1..] == path[1..] + [|parent.children|];
      assert node'.children[..k] == node.children[..k];
    }
  }

  lemma {:induction false} ExitedAppends(node: CallNode, path: seq<nat>, step: nat)
    requires RightSpine(node, path) && path != []
    ensures var node', path' := Replaced(node, path, At(node, path).(endStep := step)), path[..|path| - 1];
            RightSpine(node', path') && History(node', path') == History(node, path) + [Exit(step)]
    decreases |path|
  {
    var closed := At(node, path).(endStep := step);
    var node', path' := Replaced(node, path, closed), path[..|path| - 1];
    var k := path[0];
    assert node'.children[..k] == node.children[..k];
    if |path| == 1 {
      assert path[1..] == [];
      assert Replaced(node.children[k], path[1..], closed) == closed;
      assert node'.children[k] == closed;
      assert node'.children[..|node'.children| - 1] == node.children[..k];
      calc {
        History(node', path');
        Forest(node'.children);
        Forest(node.children[..k]) + Closed(closed);
        { assert At(node.children[k], path[1..]) == node.children[k];
          assert History(node.children[k], path[1..]) == Forest(closed.children); }
        History(node, path) + [Exit(step)];
      }
    } else {
      ExitedAppends(node.children[k], path[1..], step);
      assert path'[0] == k && path'[1..] == path[1..][..|path| - 2];
    }
  }


  /** Faithful history: reading the tree in preorder, with the path as the open spine, gives back
      exactly the effective events, with all their addresses, kinds and steps. */
  lemma {:induction false} FaithfulHistory(rootAddress: Address, events: seq<Event>)
    ensures var t := Built(rootAddress, events);
            && History(t.root, t.path) == Effective(events)
            && |t.path| == OpenFrames(events)
            && t.root.address == rootAddress && t.root.endStep == 0
  {
    if events == [] {
    } else {
      var init := events[..|events| - 1];
      FaithfulHistory(rootAddress, init);
      var t := Built(rootAddress, init);
      match events[|events| - 1]
      case Enter(a, c, s) =>
        EnteredAppends(t.root, t.path, NewNode(a, c, s));
      case Exit(s) =>
        if t.path != [] {
          ExitedAppends(t.root, t.path, s);
        }
    }
  }

  lemma {:induction false} BuiltFromEffective(rootAddress: Address, events: seq<Event>)
    ensures Built(rootAddress, Effective(events)) == Built(rootAddress, events)
  {
    if events == [] {
    } else {
      var init, last := events[..|events| - 1], events[|events| - 1];
      BuiltFromEffective(rootAddress, init);
      FaithfulHistory(rootAddress, init);
      if !(last.Exit? && OpenFrames(init) == 0) {
        assert (Effective(init) + [last])[..|Effective(init)|] == Effective(init);
      }
    }
  }

  /** Tree and history determine each other: two runs leave the same tree exactly when they
      differ only in exits at the root. */
  lemma {:induction false} SameTreeIff(rootAddress: Address, a: seq<Event>, b: seq<Event>)
    ensures Built(rootAddress, a) == Built(rootAddress, b) <==> Effective(a) == Effective(b)
  {
    FaithfulHistory(rootAddress, a);
    FaithfulHistory(rootAddress, b);
    BuiltFromEffective(rootAddress, a);
    BuiltFromEffective(rootAddress, b);
  }

  // ---- step ranges ------------------------------------------------------------------------------

  /** Finished sibling frames lie one after the other inside [lo, hi], each properly nested. */
  predicate InOrder(nodes: seq<CallNode>, lo: nat, hi: nat) {
    if nodes == [] then lo <= hi
    else
      var last := nodes[|nodes| - 1];
      InOrder(nodes[..|nodes| - 1], lo, last.startStep) && Nested(last) && last.endStep <= hi
  }

  predicate Nested(n: CallNode) {
    n.startStep <= n.endStep && InOrder(n.children, n.startStep, n.endStep)
  }

  /** The same for a tree whose frames along `path` are open at step `now`. */
  predicate NestedSoFar(node: CallNode, path: seq<nat>, now: nat)
    requires RightSpine(node, path)
    decreases |path|
  {
    && node.endStep == 0
    && if path == [] then InOrder(node.children, node.startStep, now)
       else
         var last := node.children[path[0]];
         InOrder(node.children[..path[0]], node.startStep, last.startStep) && NestedSoFar(last, path[1..], now)
  }

  /** Step arguments start at 1 and never decrease, as the log index that the recorder passes. */
  predicate Increasing(events: seq<Event>) {
    && (forall i :: 0 <= i < |events| ==> 1 <= events[i].step)
    && (forall i, j :: 0 <= i < j < |events| ==> events[i].step <= events[j].step)
  }

  function Now(events: seq<Event>): nat {
    if events == [] then 0 else events[|events| - 1].step
  }

  lemma {:induction false} InOrderLater(nodes: seq<CallNode>, lo: nat, hi: nat, later: nat)
    requires InOrder(nodes, lo, hi) && hi <= later
    ensures InOrder(nodes, lo, later) && lo <= hi
  {
    if nodes == [] {
    } else {
      InOrderLater(nodes[..|nodes| - 1], lo, nodes[|nodes| - 1].startStep, nodes[|nodes| - 1].startStep);
    }
  }

  lemma {:induction false} EnteredNested(node: CallNode, path: seq<nat>, now: nat, child: CallNode)
    requires RightSpine(node, path) && NestedSoFar(node, path, now)
    requires child.children == [] && now <= child.startStep && child.endStep == 0
    ensures var parent := At(node, path);
            var node', path' := Replaced(node, path, parent.(children := parent.children + [child])),
              path + [|parent.children|];
            RightSpine(node', path') && NestedSoFar(node', path', child.startStep)
    decreases |path|
  {
    var parent := At(node, path);
    var grown := parent.(children := parent.children + [child]);
    var node', path' := Replaced(node, path, grown), path + [|parent.children|];
    EnteredAppends(node, path, child);
    if path == [] {
      InOrderLater(node.children, node.startStep, now, child.startStep);
      assert path'[1..] == [];
      assert node'.children[..path'[0]] == node.children;
    } else {
      var k := path[0];
      EnteredNested(node.children[k], path[1..], now, child);
      assert path'[0] == k && path'[1..] == path[1..] + [|parent.children|];
      assert node'.children[..k] == node.children[..k];
      ReplacedStart(node.children[k], path[1..], grown);
    }
  }

  lemma {:induction false} ReplacedStart(node: CallNode, path: seq<nat>, replacement: CallNode)
    requires ValidPath(node, path) && At(node, path).startStep == replacement.startStep
    ensures Replaced(node, path, replacement).startStep == node.startStep
  {
  }

  lemma {:induction false} ExitedNested(node: CallNode, path: seq<nat>, now: nat, step: nat)
    requires RightSpine(node, path) && path != [] && NestedSoFar(node, path, now) && now <= step
    ensures var node', path' := Replaced(node, path, At(node, path).(endStep := step)), path[..|path| - 1];
            RightSpine(node', path') && NestedSoFar(node', path', step)
    decreases |path|
  {
    var closed := At(node, path).(endStep := step);
    var node', path' := Replaced(node, path, closed), path[..|path| - 1];
    var k := path[0];
    ExitedAppends(node, path, step);
    assert node'.children[..k] == node.children[..k];
    if |path| == 1 {
      InOrderLater(closed.children, closed.startStep, now, step);
      assert node'.children == node.children[..k] + [closed];
    } else {
      ExitedNested(node.children[k], path[1..], now, step);
      assert path'[0] == k && path'[1..] == path[1..][..|path| - 2];
      ReplacedStart(node.children[k], path[1..], closed);
    }
  }

  lemma {:induction false} BuiltNested(rootAddress: Address, events: seq<Event>)
    requires Increasing(events)
    ensures var t := Built(rootAddress, events); NestedSoFar(t.root, t.path, Now(events))
  {
    if events == [] {
    } else {
      var init := events[..|events| - 1];
      BuiltNested(rootAddress, init);
      var t := Built(rootAddress, init);
      match events[|events| - 1]
      case Enter(a, c, s) =>
        EnteredNested(t.root, t.path, Now(init), NewNode(a, c, s));
      case Exit(s) =>
        if t.path != [] {
          ExitedNested(t.root, t.path, Now(init), s);
        } else {
          InOrderLater(t.root.children, t.root.startStep, Now(init), s);
        }
    }
  }

  /** What InOrder says of any two siblings. */
  lemma {:induction false} SiblingsInOrder(nodes: seq<CallNode>, lo: nat, hi: nat, i: nat)
    requires InOrder(nodes, lo, hi) && i < |nodes|
    ensures lo <= nodes[i].startStep <= nodes[i].endStep <= hi && Nested(nodes[i])
    ensures forall j :: i < j < |nodes| ==> nodes[i].endStep <= nodes[j].startStep
  {
    var last := |nodes| - 1;
    InOrderLater(nodes[..last], lo, nodes[last].startStep, nodes[last].startStep);
    if i == last {
    } else {
      SiblingsInOrder(nodes[..last], lo, nodes[last].startStep, i);
    }
  }

  /** Everywhere below a finished frame, frames are finished and nested. */
  lemma {:induction false} NestedBelow(n: CallNode, q: seq<nat>)
    requires Nested(n) && ValidPath(n, q)
    ensures Nested(At(n, q)) && n.startStep <= At(n, q).startStep && At(n, q).endStep <= n.endStep
    decreases |q|
  {
    if q == [] {
    } else {
      SiblingsInOrder(n.children, n.startStep, n.endStep, q[0]);
      NestedBelow(n.children[q[0]], q[1..]);
    }
  }

  lemma {:induction false} ClosedIffOffSpine(node: CallNode, path: seq<nat>, now: nat, q: seq<nat>)
    requires RightSpine(node, path) && NestedSoFar(node, path, now) && ValidPath(node, q)
    ensures if q <= path then At(node, q).endStep == 0
            else Nested(At(node, q)) && node.startStep <= At(node, q).startStep
    decreases |q|
  {
    if q == [] {
    } else {
      if path == [] {
        SiblingsInOrder(node.children, node.startStep, now, q[0]);
        NestedBelow(node.children[q[0]], q[1..]);
      } else if q[0] < path[0] {
        var before := node.children[..path[0]];
        SiblingsInOrder(before, node.startStep, node.children[path[0]].startStep, q[0]);
        assert before[q[0]] == node.children[q[0]];
        NestedBelow(node.children[q[0]], q[1..]);
      } else {
        InOrderLater(node.children[..path[0]], node.startStep, node.children[path[0]].startStep,
          node.children[path[0]].startStep);
        ClosedIffOffSpine(node.children[path[0]], path[1..], now, q[1..]);
        assert q <= path <==> q[1..] <= path[1..] by {
          assert q == [q[0]] + q[1..] && path == [path[0]] + path[1..];
        }
      }
    }
  }

  lemma {:induction false} StartsPositive(node: CallNode, path: seq<nat>, q: seq<nat>)
    requires RightSpine(node, path) && ValidPath(node, q)
    requires forall e :: e in History(node, path) ==> 1 <= e.step
    ensures q != [] ==> 1 <= At(node, q).startStep
    decreases |q|
  {
    if q == [] {
    } else {
      var k := q[0];
      if path == [] || k < path[0] {
        var nodes := if path == [] then node.children else node.children[..path[0]];
        ForestMember(nodes, k);
        assert forall e :: e in Closed(nodes[k]) ==> e in History(node, path);
        ClosedStarts(nodes[k], q[1..]);
      } else {
        var last := node.children[k];
        assert Enter(last.address, last.callType, last.startStep) in History(node, path);
        StartsPositive(last, path[1..], q[1..]);
      }
    }
  }

  lemma {:induction false} ForestMember(nodes: seq<CallNode>, k: nat)
    requires k < |nodes|
    ensures forall e :: e in Closed(nodes[k]) ==> e in Forest(nodes)
  {
    if k == |nodes| - 1 {
    } else {
      ForestMember(nodes[..|nodes| - 1], k);
    }
  }

  lemma {:induction false} ClosedStarts(n: CallNode, q: seq<nat>)
    requires ValidPath(n, q) && forall e :: e in Closed(n) ==> 1 <= e.step
    ensures 1 <= At(n, q).startStep
    decreases |q|
  {
    if q == [] {
      assert Enter(n.address, n.callType, n.startStep) in Closed(n);
    } else {
      ForestMember(n.children, q[0]);
      ClosedStarts(n.children[q[0]], q[1..]);
    }
  }

  lemma {:induction false} EffectiveMembers(events: seq<Event>)
    ensures forall e :: e in Effective(events) ==> e in events
  {
    if events == [] {
    } else {
      EffectiveMembers(events[..|events| - 1]);
    }
  }

  /** Step ranges nest: with increasing steps, a frame has no end exactly when it is on the open
      path (the root always is); every other frame has start <= end, contains the ranges of its
      children, and its children follow one another without overlap. */
  lemma {:induction false} StepRangesNest(rootAddress: Address, events: seq<Event>, q: seq<nat>)
    requires Increasing(events) && ValidPath(Built(rootAddress, events).root, q)
    ensures var t := Built(rootAddress, events);
            var n := At(t.root, q);
            && (n.endStep == 0 <==> q <= t.path)
            && (n.endStep != 0 ==>
                  && n.startStep <= n.endStep
                  && (forall i :: 0 <= i < |n.children| ==>
                        n.startStep <= n.children[i].startStep <= n.children[i].endStep <= n.endStep)
                  && (forall i, j :: 0 <= i < j < |n.children| ==> n.children[i].endStep <= n.children[j].startStep))
  {
    var t := Built(rootAddress, events);
    var n := At(t.root, q);
    BuiltNested(rootAddress, events);
    FaithfulHistory(rootAddress, events);
    EffectiveMembers(events);
    ClosedIffOffSpine(t.root, t.path, Now(events), q);
    StartsPositive(t.root, t.path, q);
    if !(q <= t.path) {
      forall i | 0 <= i < |n.children|
        ensures n.startStep <= n.children[i].startStep <= n.children[i].endStep <= n.endStep
        ensures forall j :: i < j < |n.children| ==> n.children[i].endStep <= n.children[j].startStep
      {
        SiblingsInOrder(n.children, n.startStep, n.endStep, i);
      }
    }
  }

  // ---- what never changes -----------------------------------------------------------------------------

  /** No node of the tree has been given a function name. */
  predicate Unnamed(n: CallNode) {
    n.functionName == "" && forall k :: 0 <= k < |n.children| ==> Unnamed(n.children[k])
  }

  lemma {:induction false} ReplacedUnnamed(node: CallNode, path: seq<nat>, replacement: CallNode)
    requires ValidPath(node, path) && Unnamed(node) && Unnamed(replacement)
    ensures Unnamed(Replaced(node, path, replacement))
    decreases |path|
  {
    if path == [] {
    } else {
      ReplacedUnnamed(node.children[path[0]], path[1..], replacement);
    }
  }

  lemma {:induction false} AddressedUnnamed(node: CallNode, path: seq<nat>)
    requires ValidPath(node, path) && Unnamed(node)
    ensures Unnamed(At(node, path))
    decreases |path|
  {
    if path == [] {
    } else {
      AddressedUnnamed(node.children[path[0]], path[1..]);
    }
  }

  predicate SameHead(a: CallNode, b: CallNode) {
    a.address == b.address && a.callType == b.callType && a.startStep == b.startStep
  }

  lemma {:induction false} ReplacedRoot(node: CallNode, path: seq<nat>, replacement: CallNode)
    requires ValidPath(node, path)
    requires SameHead(replacement, At(node, path)) && (path == [] ==> replacement.endStep == node.endStep)
    ensures SameHead(Replaced(node, path, replacement), node)
    ensures Replaced(node, path, replacement).endStep == node.endStep
  {
  }

  /** Whatever the events, the root stays the transaction's node: its address, kind and steps never change; and
      nodes have no function name. */
  lemma {:induction false} RootIsTransaction(rootAddress: Address, events: seq<Event>)
    ensures var t := Built(rootAddress, events);
            && t.root.address == rootAddress && t.root.callType == Transaction
            && t.root.startStep == 0 && t.root.endStep == 0 && Unnamed(t.root)
  {
    if events == [] {
    } else {
      var before, e := Built(rootAddress, events[..|events| - 1]), events[|events| - 1];
      RootIsTransaction(rootAddress, events[..|events| - 1]);
      AddressedUnnamed(before.root, before.path);
      var node := At(before.root, before.path);
      if e.Enter? {
        var grown := node.(children := node.children + [NewNode(e.address, e.callType, e.step)]);
        ReplacedUnnamed(before.root, before.path, grown);
        ReplacedRoot(before.root, before.path, grown);
      } else if before.path != [] {
        ReplacedUnnamed(before.root, before.path, node.(endStep := e.step));
        ReplacedRoot(before.root, before.path, node.(endStep := e.step));
      }
    }
  }
}
