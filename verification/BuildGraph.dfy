/**
 The build scheduler: depth-first expansion of the target graph, then execution of the
 targets whose dependencies are built.  Targets are identified by their keys; the
 configurations they refer to are known.
 */
module BuildGraph {
  import opened Prelude

  type Key = nat

  // The dependencies of every target that can be looked up.
  type Workspace = map<Key, set<Key>>

  datatype BuildError = Recursion | LookupFailed | AlreadyBuilt | MissingNode | MissingTarget | BeforeDependencies | BuildFailed | NotBuilt

  // A node has a target once its dependencies have been expanded.
  datatype Node = Node(target: bool, deps: set<Key>, expanding: bool, usages: set<Key>)

  type Nodes = map<Key, Node>

  // ---- Paths in the dependency graph ----

  ghost predicate IsPath(ws: Workspace, p: seq<Key>) {
    p != [] && forall i :: 0 <= i < |p| - 1 ==> p[i] in ws && p[i + 1] in ws[p[i]]
  }

  ghost predicate Reaches(ws: Workspace, a: Key, b: Key) {
    exists p :: IsPath(ws, p) && p[0] == a && p[|p| - 1] == b
  }

  // Every key reachable from root can be looked up.
  ghost predicate Known(ws: Workspace, root: Key) {
    forall k :: Reaches(ws, root, k) ==> k in ws
  }

  // Some path from root visits a key twice.
  ghost predicate Cyclic(ws: Workspace, root: Key) {
    exists p, i, j :: IsPath(ws, p) && p[0] == root && 0 <= i < j < |p| && p[i] == p[j]
  }

  lemma PathExtends(ws: Workspace, p: seq<Key>, k: Key)
    requires IsPath(ws, p) && p[|p| - 1] in ws && k in ws[p[|p| - 1]]
    ensures IsPath(ws, p + [k])
  {
  }

  // A list in which every key comes after all its dependencies.
  ghost predicate Ordered(ws: Workspace, order: seq<Key>) {
    forall i :: 0 <= i < |order| ==> order[i] in ws && forall d :: d in ws[order[i]] ==> d in order[..i]
  }

  // Along a path, keys move strictly towards the front of such a list.
  lemma {:induction false} PathDescends(ws: Workspace, order: seq<Key>, p: seq<Key>, i: nat) returns (k: nat)
    requires Ordered(ws, order) && Distinct(order) && IsPath(ws, p) && i < |order| && p[0] == order[i]
    ensures k <= i && order[k] == p[|p| - 1] && (|p| > 1 ==> k < i)
    decreases |p|
  {
    if |p| == 1 {
      k := i;
    } else {
      assert p[1] in order[..i];
      var j :| 0 <= j < i && order[j] == p[1];
      assert IsPath(ws, p[1..]);
      k := PathDescends(ws, order, p[1..], j);
    }
  }

  lemma OrderedIsAcyclic(ws: Workspace, order: seq<Key>, root: Key)
    requires Ordered(ws, order) && Distinct(order) && root in order
    ensures !Cyclic(ws, root)
    ensures forall k :: Reaches(ws, root, k) ==> k in order
  {
    var r :| 0 <= r < |order| && order[r] == root;
    forall k | Reaches(ws, root, k) ensures k in order {
      var p :| IsPath(ws, p) && p[0] == root && p[|p| - 1] == k;
      var i := PathDescends(ws, order, p, r);
    }
    if Cyclic(ws, root) {
      var p, i, j :| IsPath(ws, p) && p[0] == root && 0 <= i < j < |p| && p[i] == p[j];
      assert IsPath(ws, p[..i + 1]) && IsPath(ws, p[i..j + 1]);
      var a := PathDescends(ws, order, p[..i + 1], r);
      var b := PathDescends(ws, order, p[i..j + 1], a);
    }
  }

  // ---- The graph while it is being expanded ----

  ghost predicate Done(nodes: Nodes, k: Key) {
    k in nodes && nodes[k].target
  }

  // The keys being expanded are exactly those on the stack of calls.
  ghost predicate Stacked(nodes: Nodes, stack: seq<Key>) {
    && Distinct(stack)
    && (forall k :: k in stack ==> k in nodes && !nodes[k].target)
    && (forall k :: k in nodes ==> (nodes[k].expanding <==> k in stack))
    && (forall k :: k in nodes ==> nodes[k].target || k in stack)
  }

  // A finished node has its dependencies, which are finished and know it as a user.
  ghost predicate Finished(ws: Workspace, nodes: Nodes, k: Key)
    requires k in nodes
  {
    nodes[k].target ==> k in ws && nodes[k].deps == ws[k] && forall d :: d in ws[k] ==> Used(nodes, d, k)
  }

  ghost predicate Used(nodes: Nodes, d: Key, u: Key) {
    Done(nodes, d) && u in nodes[d].usages
  }

  ghost predicate UsagesOk(ws: Workspace, nodes: Nodes, k: Key)
    requires k in nodes
  {
    forall u :: u in nodes[k].usages ==> u in nodes && u in ws && k in ws[u]
  }

  ghost predicate NodesOk(ws: Workspace, nodes: Nodes) {
    && (forall k :: k in nodes ==> Finished(ws, nodes, k))
    && (forall k :: k in nodes ==> UsagesOk(ws, nodes, k))
  }

  // The finished nodes, in the order in which they were finished.
  ghost predicate OrderOk(ws: Workspace, nodes: Nodes, order: seq<Key>) {
    Distinct(order) && Ordered(ws, order) && forall k :: k in order <==> Done(nodes, k)
  }

  // Leaves are the finished nodes with all dependencies built, less those in skip.
  ghost predicate LeavesOk(ws: Workspace, nodes: Nodes, leaves: set<Key>, built: set<Key>, skip: set<Key>) {
    forall k :: k in leaves <==> Done(nodes, k) && k in ws && ws[k] <= built && k !in skip
  }

  // ---- One node at a time ----

  // The caller is the last key on the stack, or there is none.
  ghost predicate CalledFrom(ws: Workspace, stack: seq<Key>, parent: Option<Key>, key: Key) {
    if stack == [] then parent.None?
    else parent == Some(stack[|stack| - 1]) && IsPath(ws, stack + [key])
  }

  // Entering a node that is not being expanded.
  function Entered(nodes: Nodes, key: Key, parent: Option<Key>): Nodes {
    var node := if key in nodes then nodes[key] else Node(false, {}, false, {});
    nodes[key := node.(expanding := true, usages := node.usages + if parent.Some? then {parent.value} else {})]
  }

  lemma CallerUses(ws: Workspace, nodes: Nodes, stack: seq<Key>, parent: Option<Key>, key: Key)
    requires Stacked(nodes, stack) && CalledFrom(ws, stack, parent, key)
    ensures parent.Some? ==> parent.value in nodes && parent.value in ws && key in ws[parent.value]
  {
    if stack != [] {
      var p, n := stack + [key], |stack| - 1;
      assert p[n] == stack[n] && p[n + 1] == key && stack[n] in stack;
    }
  }

  lemma EnterNew(ws: Workspace, nodes: Nodes, stack: seq<Key>, parent: Option<Key>, key: Key)
    requires Stacked(nodes, stack) && NodesOk(ws, nodes) && CalledFrom(ws, stack, parent, key)
    requires key in ws && key !in nodes
    ensures Stacked(Entered(nodes, key, parent), stack + [key]) && NodesOk(ws, Entered(nodes, key, parent))
    ensures forall k :: Done(Entered(nodes, key, parent), k) <==> Done(nodes, k)
  {
    CallerUses(ws, nodes, stack, parent, key);
    var e := Entered(nodes, key, parent);
    forall k | k in e ensures Finished(ws, e, k) && UsagesOk(ws, e, k) {
      if k != key {
        assert Finished(ws, nodes, k) && UsagesOk(ws, nodes, k);
        forall d | nodes[k].target && d in ws[k] ensures Used(e, d, k) {
          assert Used(nodes, d, k);
        }
      }
    }
  }

  lemma EnterDone(ws: Workspace, nodes: Nodes, stack: seq<Key>, parent: Option<Key>, key: Key)
    requires Stacked(nodes, stack) && NodesOk(ws, nodes) && CalledFrom(ws, stack, parent, key)
    requires Done(nodes, key) && !nodes[key].expanding
    ensures var e := Entered(nodes, key, parent); var f := e[key := e[key].(expanding := false)];
            && Stacked(f, stack) && NodesOk(ws, f)
            && (forall k :: Done(f, k) <==> Done(nodes, k))
            && (parent.Some? ==> Used(f, key, parent.value))
            && key in ws && f[key].deps == ws[key]
  {
    assert Finished(ws, nodes, key);
    CallerUses(ws, nodes, stack, parent, key);
    var e := Entered(nodes, key, parent);
    var f := e[key := e[key].(expanding := false)];
    forall k | k in f ensures Finished(ws, f, k) && UsagesOk(ws, f, k) {
      assert Finished(ws, nodes, k) && UsagesOk(ws, nodes, k);
      forall d | nodes[k].target && d in ws[k] ensures Used(f, d, k) {
        assert Used(nodes, d, k);
      }
    }
  }

  // Leaving a node all of whose dependencies are finished.
  lemma LeaveNode(ws: Workspace, nodes: Nodes, stack: seq<Key>, key: Key, order: seq<Key>)
    requires Stacked(nodes, stack + [key]) && NodesOk(ws, nodes) && OrderOk(ws, nodes, order)
    requires key in ws && key in nodes && forall d :: d in ws[key] ==> Used(nodes, d, key)
    ensures var f := nodes[key := nodes[key].(target := true, deps := ws[key], expanding := false)];
            && Stacked(f, stack) && NodesOk(ws, f) && OrderOk(ws, f, order + [key])
            && (forall k :: Done(f, k) <==> Done(nodes, k) || k == key)
  {
    var f := nodes[key := nodes[key].(target := true, deps := ws[key], expanding := false)];
    var all := stack + [key];
    assert key in all;
    forall k | k in stack ensures k != key && k in all {
      var i :| 0 <= i < |stack| && stack[i] == k;
      assert all[i] == k && all[|stack|] == key;
    }
    assert Distinct(stack) by {
      forall i, j | 0 <= i < j < |stack| ensures stack[i] != stack[j] {
        assert all[i] != all[j];
      }
    }
    forall k | k in f ensures Finished(ws, f, k) && UsagesOk(ws, f, k) {
      assert Finished(ws, nodes, k) && UsagesOk(ws, nodes, k);
      forall d | f[k].target && d in ws[k] ensures Used(f, d, k) {
        assert Used(nodes, d, k);
      }
    }
    assert key !in order;
    var o := order + [key];
    forall i | 0 <= i < |o| ensures o[i] in ws && forall d :: d in ws[o[i]] ==> d in o[..i] {
      if i < |order| {
        assert o[..i] == order[..i];
      } else {
        assert o[..i] == order;
        forall d | d in ws[key] ensures d in order {
          assert Used(nodes, d, key);
        }
      }
    }
  }

  // ---- The builder ----

  // Why an expansion failed: a path from the first key of the stack that meets a key
  // again, or that ends in a key that cannot be looked up.
  ghost predicate Explains(ws: Workspace, error: BuildError, p: seq<Key>) {
    && IsPath(ws, p)
    && match error
       case Recursion => exists i, j :: 0 <= i < j < |p| && p[i] == p[j]
       case LookupFailed => p[|p| - 1] !in ws
       case _ => false
  }

  ghost function OnStack(stack: seq<Key>): set<Key> {
    set k | k in stack
  }

  // Nodes are never removed, and keep their users and their targets.
  ghost predicate Grew(a: Nodes, b: Nodes) {
    forall k :: k in a ==> k in b && a[k].usages <= b[k].usages && (a[k].target ==> b[k].target)
  }

  lemma StillUsed(a: Nodes, b: Nodes, d: Key, u: Key)
    requires Grew(a, b) && Used(a, d, u)
    ensures Used(b, d, u)
  {
  }

  // Where key stands with respect to the stack.
  lemma StackFacts(ws: Workspace, nodes: Nodes, stack: seq<Key>, parent: Option<Key>, key: Key)
    requires Stacked(nodes, stack) && CalledFrom(ws, stack, parent, key)
    ensures IsPath(ws, stack + [key]) && |stack + [key]| > 0
    ensures key in nodes && nodes[key].expanding ==> key in stack && !Done(nodes, key)
    ensures !(key in nodes && nodes[key].expanding) ==>
              && key !in stack && OnStack(stack + [key]) == OnStack(stack) + {key} && key !in OnStack(stack)
              && (key in nodes ==> nodes[key].target)
  {
    assert stack == [] ==> IsPath(ws, stack + [key]);
  }

  lemma MeetsAgain(ws: Workspace, stack: seq<Key>, key: Key)
    requires IsPath(ws, stack + [key]) && key in stack
    ensures Explains(ws, Recursion, stack + [key])
  {
    var p := stack + [key];
    var i :| 0 <= i < |stack| && stack[i] == key;
    assert p[i] == p[|stack|];
  }

  lemma CannotLookUp(ws: Workspace, stack: seq<Key>, key: Key)
    requires IsPath(ws, stack + [key]) && key !in ws
    ensures Explains(ws, LookupFailed, stack + [key])
  {
  }

  lemma SameDone(ws: Workspace, a: Nodes, b: Nodes, order: seq<Key>, leaves: set<Key>, built: set<Key>)
    requires forall k :: Done(b, k) <==> Done(a, k)
    ensures OrderOk(ws, a, order) ==> OrderOk(ws, b, order)
    ensures LeavesOk(ws, a, leaves, built, {}) ==> LeavesOk(ws, b, leaves, built, {})
  {
  }

  lemma LeavesAfter(ws: Workspace, a: Nodes, b: Nodes, leaves: set<Key>, built: set<Key>, key: Key)
    requires LeavesOk(ws, a, leaves, built, {}) && key in ws
    requires forall k :: Done(b, k) <==> Done(a, k) || k == key
    ensures LeavesOk(ws, b, if ws[key] <= built then leaves + {key} else leaves, built, {})
  {
  }

  // Every node can be reached from the target that is being built.
  ghost predicate From(ws: Workspace, origin: Key, nodes: Nodes) {
    forall k :: k in nodes ==> Reaches(ws, origin, k)
  }

  lemma EnterFrom(ws: Workspace, origin: Key, nodes: Nodes, stack: seq<Key>, key: Key, parent: Option<Key>)
    requires From(ws, origin, nodes) && IsPath(ws, stack + [key]) && ((stack + [key])[0] == origin || key in nodes)
    ensures From(ws, origin, Entered(nodes, key, parent))
  {
    var p := stack + [key];
    assert p[|p| - 1] == key;
    if key !in nodes {
      assert Reaches(ws, origin, key);
    }
  }

  // Entering a new node, expanding its children and leaving it loses nothing.
  lemma GrewNew(before: Nodes, expanded: Nodes, key: Key, parent: Option<Key>, deps: set<Key>)
    requires key !in before && key in expanded && Grew(Entered(before, key, parent), expanded)
    ensures var after := expanded[key := expanded[key].(target := true, deps := deps, expanding := false)];
            Grew(before, after) && Done(after, key) && (parent.Some? ==> Used(after, key, parent.value))
  {
    var e := Entered(before, key, parent);
    forall k | k in before ensures k in e && e[k] == before[k] {
    }
    assert key in e;
  }

  lemma SameKeys(ws: Workspace, origin: Key, a: Nodes, b: Nodes)
    requires From(ws, origin, a) && forall k :: k in b ==> k in a
    ensures From(ws, origin, b)
  {
  }

  lemma KeptNode(a: Nodes, b: Nodes, key: Key)
    requires Grew(a, b) && key in a
    ensures key in b
  {
  }

  lemma GrewDone(before: Nodes, key: Key, parent: Option<Key>)
    requires Done(before, key) && !before[key].expanding
    ensures var e := Entered(before, key, parent); var after := e[key := e[key].(expanding := false)];
            Grew(before, after) && (parent.None? ==> after == before)
  {
    var e := Entered(before, key, parent);
    var after := e[key := e[key].(expanding := false)];
    if parent.None? {
      assert after[key] == before[key];
      assert after == before;
    }
  }

  // ---- Facts about the execution ----

  // Each key built so far was new, could be built, and had all its dependencies.
  ghost predicate LogOk(ws: Workspace, nodes: Nodes, failing: set<Key>, initial: set<Key>, log: seq<Key>) {
    && Distinct(log)
    && forall i :: 0 <= i < |log| ==> EntryOk(ws, nodes, failing, initial, log, i)
  }

  ghost predicate EntryOk(ws: Workspace, nodes: Nodes, failing: set<Key>, initial: set<Key>, log: seq<Key>, i: nat)
    requires i < |log|
  {
    && Done(nodes, log[i]) && log[i] in ws && log[i] !in initial && log[i] !in failing
    && ws[log[i]] <= initial + OnStack(log[..i])
  }

  // The same in terms of the graph: only targets below root, each once, after all its dependencies, and
  // none that fails or had been built before.
  ghost predicate BuiltSafely(ws: Workspace, failing: set<Key>, initial: set<Key>, root: Key, log: seq<Key>) {
    && Distinct(log)
    && forall i :: 0 <= i < |log| ==>
         && Reaches(ws, root, log[i]) && log[i] in ws && log[i] !in failing && log[i] !in initial
         && ws[log[i]] <= initial + OnStack(log[..i])
  }

  lemma LogIsSafe(ws: Workspace, nodes: Nodes, failing: set<Key>, initial: set<Key>, root: Key, log: seq<Key>)
    requires LogOk(ws, nodes, failing, initial, log) && From(ws, root, nodes)
    ensures BuiltSafely(ws, failing, initial, root, log)
  {
    hide Reaches;
    forall i | 0 <= i < |log|
      ensures Reaches(ws, root, log[i]) && log[i] in ws && log[i] !in failing && log[i] !in initial
      ensures ws[log[i]] <= initial + OnStack(log[..i])
    {
      assert EntryOk(ws, nodes, failing, initial, log, i);
    }
  }

  lemma LeafFacts(ws: Workspace, nodes: Nodes, leaves: set<Key>, built: set<Key>, log: seq<Key>, key: Key)
    requires LeavesOk(ws, nodes, leaves, built, OnStack(log)) && key in leaves
    ensures Done(nodes, key) && key in ws && ws[key] <= built && key !in log
  {
  }

  lemma DepsFacts(ws: Workspace, nodes: Nodes, key: Key)
    requires NodesOk(ws, nodes) && Done(nodes, key)
    ensures key in ws && nodes[key].deps == ws[key]
  {
    assert Finished(ws, nodes, key);
  }

  lemma UserDone(ws: Workspace, nodes: Nodes, key: Key, u: Key)
    requires NodesOk(ws, nodes) && Stacked(nodes, []) && key in nodes && u in nodes[key].usages
    ensures Done(nodes, u) && u in ws && key in ws[u]
  {
    assert UsagesOk(ws, nodes, key);
  }

  lemma LogGrows(ws: Workspace, nodes: Nodes, failing: set<Key>, initial: set<Key>, log: seq<Key>, built: set<Key>, key: Key)
    requires LogOk(ws, nodes, failing, initial, log) && built == initial + OnStack(log)
    requires Done(nodes, key) && key in ws && ws[key] <= built && key !in built && key !in failing
    ensures LogOk(ws, nodes, failing, initial, log + [key])
    ensures built + {key} == initial + OnStack(log + [key])
  {
    var l := log + [key];
    forall i | 0 <= i < |l| ensures EntryOk(ws, nodes, failing, initial, l, i) {
      if i < |log| {
        assert EntryOk(ws, nodes, failing, initial, log, i);
        assert l[..i] == log[..i];
      } else {
        assert l[..i] == log;
      }
    }
  }

  // The users of a newly built key that became ready are exactly the new leaves.
  lemma NewLeaves(ws: Workspace, nodes: Nodes, failing: set<Key>, initial: set<Key>, before: set<Key>, after: set<Key>,
    built: set<Key>, log: seq<Key>, key: Key)
    requires NodesOk(ws, nodes) && Stacked(nodes, []) && LogOk(ws, nodes, failing, initial, log)
    requires LeavesOk(ws, nodes, before, built, OnStack(log)) && key in before && key !in built
    requires built == initial + OnStack(log)
    requires forall k :: k in after <==>
               k in before - {key} || (k in nodes[key].usages && k in ws && ws[k] <= built + {key})
    ensures LeavesOk(ws, nodes, after, built + {key}, OnStack(log + [key]))
  {
    var skip := OnStack(log + [key]);
    assert skip == OnStack(log) + {key};
    forall k ensures k in after <==> Done(nodes, k) && k in ws && ws[k] <= built + {key} && k !in skip {
      if k in after && k !in before - {key} {
        UserDone(ws, nodes, key, k);
        NotYetBuilt(ws, nodes, failing, initial, built, log, key, k);
      }
      if Done(nodes, k) && k in ws && ws[k] <= built + {key} && k !in skip && key in ws[k] {
        assert Finished(ws, nodes, k) && Used(nodes, key, k);
      }
    }
  }

  // A user of a key that was not built cannot have been built, and is not the key itself.
  lemma NotYetBuilt(ws: Workspace, nodes: Nodes, failing: set<Key>, initial: set<Key>, built: set<Key>, log: seq<Key>, key: Key, u: Key)
    requires LogOk(ws, nodes, failing, initial, log) && built == initial + OnStack(log) && key !in built
    requires u in ws && key in ws[u] && key in ws && ws[key] <= built
    ensures u !in log && u != key
  {
    forall i | 0 <= i < |log| ensures log[i] != u {
      assert EntryOk(ws, nodes, failing, initial, log, i);
    }
  }

  lemma EmptyGraph(ws: Workspace, failing: set<Key>, initial: set<Key>, root: Key)
    ensures Stacked(map[], []) && NodesOk(ws, map[]) && OrderOk(ws, map[], []) && From(ws, root, map[])
    ensures LeavesOk(ws, map[], {}, initial, {})
  {
  }

  lemma StartsExecution(ws: Workspace, nodes: Nodes, failing: set<Key>, initial: set<Key>, leaves: set<Key>)
    requires LeavesOk(ws, nodes, leaves, initial, {})
    ensures LeavesOk(ws, nodes, leaves, initial, OnStack([])) && LogOk(ws, nodes, failing, initial, [])
    ensures initial == initial + OnStack([])
  {
    assert OnStack([]) == {};
  }

  lemma RootInOrder(ws: Workspace, nodes: Nodes, order: seq<Key>, root: Key)
    requires OrderOk(ws, nodes, order) && Done(nodes, root)
    ensures root in order && !Cyclic(ws, root)
  {
    OrderedIsAcyclic(ws, order, root);
  }

  // A failed expansion, told in terms of the graph.
  lemma Explained(ws: Workspace, root: Key, error: BuildError, p: seq<Key>)
    requires Explains(ws, error, p) && p[0] == root
    ensures error == Recursion ==> Cyclic(ws, root)
    ensures error == LookupFailed ==> !Known(ws, root)
    ensures error in {Recursion, LookupFailed}
  {
    if error == LookupFailed {
      assert Reaches(ws, root, p[|p| - 1]);
    }
  }

  lemma NothingBuilt(ws: Workspace, failing: set<Key>, initial: set<Key>, root: Key)
    ensures initial == initial + OnStack([]) && BuiltSafely(ws, failing, initial, root, [])
  {
    assert OnStack([]) == {};
  }

  lemma LogFits(ws: Workspace, nodes: Nodes, failing: set<Key>, initial: set<Key>, log: seq<Key>, order: seq<Key>)
    requires LogOk(ws, nodes, failing, initial, log) && OrderOk(ws, nodes, order)
    ensures |log| <= |order|
  {
    var a, b := OnStack(log), OnStack(order);
    DistinctSize(log, a);
    DistinctSize(order, b);
    forall k | k in a ensures k in b {
      var i :| 0 <= i < |log| && log[i] == k;
      assert EntryOk(ws, nodes, failing, initial, log, i);
    }
    SubsetSize(a, b);
  }

  // Without leaves nothing is left to build: the first unbuilt node would be a leaf.
  lemma {:induction false} BuiltUpTo(ws: Workspace, nodes: Nodes, initial: set<Key>, leaves: set<Key>, built: set<Key>,
    log: seq<Key>, order: seq<Key>, n: nat)
    requires OrderOk(ws, nodes, order) && n <= |order| && leaves == {} && built == initial + OnStack(log)
    requires LeavesOk(ws, nodes, leaves, built, OnStack(log))
    ensures forall i :: 0 <= i < n ==> order[i] in log
  {
    if n > 0 {
      BuiltUpTo(ws, nodes, initial, leaves, built, log, order, n - 1);
      var k := order[n - 1];
      forall d | d in ws[k] ensures d in built {
        assert d in order[..n - 1];
      }
      assert k in order && k !in leaves;
    }
  }

  lemma AllBuilt(ws: Workspace, nodes: Nodes, failing: set<Key>, initial: set<Key>, leaves: set<Key>, built: set<Key>,
    log: seq<Key>, order: seq<Key>)
    requires OrderOk(ws, nodes, order) && leaves == {} && built == initial + OnStack(log)
    requires LeavesOk(ws, nodes, leaves, built, OnStack(log)) && LogOk(ws, nodes, failing, initial, log)
    ensures forall k :: k in order <==> k in log
  {
    BuiltUpTo(ws, nodes, initial, leaves, built, log, order, |order|);
    forall k | k in log ensures k in order {
      var i :| 0 <= i < |log| && log[i] == k;
      assert EntryOk(ws, nodes, failing, initial, log, i);
    }
  }

  // What has been built when everything went well.
  lemma Completed(ws: Workspace, nodes: Nodes, failing: set<Key>, initial: set<Key>, log: seq<Key>, order: seq<Key>, root: Key)
    requires OrderOk(ws, nodes, order) && LogOk(ws, nodes, failing, initial, log) && From(ws, root, nodes)
    requires root in order && forall k :: k in order <==> k in log
    ensures Known(ws, root) && !Cyclic(ws, root) && Distinct(log) && Ordered(ws, log)
    ensures forall k :: Reaches(ws, root, k) ==> k !in failing && k !in initial
    ensures forall k :: k in log <==> Reaches(ws, root, k)
  {
    hide IsPath;
    OrderedIsAcyclic(ws, order, root);
    forall k | k in log ensures k in ws && k !in failing && k !in initial && Reaches(ws, root, k) {
      var i :| 0 <= i < |log| && log[i] == k;
      assert EntryOk(ws, nodes, failing, initial, log, i);
      assert k in nodes;
    }
    forall i | 0 <= i < |log| ensures log[i] in ws && forall d :: d in ws[log[i]] ==> d in log[..i] {
      assert EntryOk(ws, nodes, failing, initial, log, i);
      var j :| 0 <= j < |order| && order[j] == log[i];
      forall d | d in ws[log[i]] ensures d in log[..i] {
        assert d in order[..j];
        assert d in order && d in log && d !in initial;
      }
    }
  }

  class Builder {
    const ws: Workspace
    const failing: set<Key>  // targets whose build step fails
    var built: set<Key>
    var nodes: Nodes
    var leaves: set<Key>
    ghost var origin: Key      // the target asked for
    ghost var order: seq<Key>  // finished nodes, in order
    ghost var log: seq<Key>    // targets built by this call, in order

    constructor (ws: Workspace, failing: set<Key>)
      ensures this.ws == ws && this.failing == failing && built == {}
    {
      this.ws, this.failing, built, nodes, leaves := ws, failing, {}, map[], {};
      origin, order, log := 0, [], [];
    }

    ghost predicate GraphOk(stack: seq<Key>)
      reads this
    {
      && Stacked(nodes, stack) && NodesOk(ws, nodes) && OrderOk(ws, nodes, order) && From(ws, origin, nodes)
    }

    // Adds the targets below key to the graph, as far as they are not in it yet, and
    // makes key a leaf when its dependencies are built.
    method ExpandNode(key: Key, parent: Option<Key>, ghost stack: seq<Key>)
      returns (r: Result<(), BuildError>, ghost path: seq<Key>)
      requires GraphOk(stack) && CalledFrom(ws, stack, parent, key)
      requires Done(nodes, key) || ((stack + [key])[0] == origin && LeavesOk(ws, nodes, leaves, built, {}))
      modifies this`nodes, this`leaves, this`order
      ensures r.Ok? ==> GraphOk(stack) && Grew(old(nodes), nodes) && Done(nodes, key)
      ensures r.Ok? && old(LeavesOk(ws, nodes, leaves, built, {})) ==> LeavesOk(ws, nodes, leaves, built, {})
      ensures r.Ok? && parent.Some? ==> Used(nodes, key, parent.value)
      ensures r.Err? ==> Explains(ws, r.error, path) && (stack + [key])[0] == path[0]
      ensures old(Done(nodes, key)) ==>
                && r.Ok? && order == old(order) && key in ws
                && leaves == old(leaves) + (if ws[key] <= built then {key} else {})
                && (parent.None? ==> nodes == old(nodes))
      decreases ws.Keys - OnStack(stack), 0
    {
      hide Stacked, NodesOk, OrderOk, LeavesOk, Explains, Grew, CalledFrom, From;
      path := stack + [key];
      ghost var before, had := nodes, LeavesOk(ws, nodes, leaves, built, {});
      StackFacts(ws, nodes, stack, parent, key);
      if key in nodes && nodes[key].expanding {
        MeetsAgain(ws, stack, key);
        return Err(Recursion), path;
      }
      EnterFrom(ws, origin, nodes, stack, key, parent);
      nodes := Entered(nodes, key, parent);
      if !nodes[key].target {
        if key !in ws {
          CannotLookUp(ws, stack, key);
          return Err(LookupFailed), path;
        }
        EnterNew(ws, before, stack, parent, key);
        SameDone(ws, before, nodes, order, leaves, built);
        r, path := ExpandDeps(key, stack);
        if r.Err? {
          return;
        }
        assert key in nodes by { KeptNode(Entered(before, key, parent), nodes, key); }
        ghost var expanded := nodes;
        LeaveNode(ws, nodes, stack, key, order);
        nodes := nodes[key := nodes[key].(target := true, deps := ws[key])];
        nodes := nodes[key := nodes[key].(expanding := false)];
        assert nodes == expanded[key := expanded[key].(target := true, deps := ws[key], expanding := false)];
        order := order + [key];
        LeavesAfter(ws, expanded, nodes, leaves, built, key);
        GrewNew(before, expanded, key, parent, ws[key]);
        SameKeys(ws, origin, expanded, nodes);
      } else {
        EnterDone(ws, before, stack, parent, key);
        SameKeys(ws, origin, before, nodes[key := nodes[key].(expanding := false)]);
        nodes := nodes[key := nodes[key].(expanding := false)];
        SameDone(ws, before, nodes, order, leaves, built);
        if had {
          LeavesAfter(ws, before, nodes, leaves, built, key);
        }
        GrewDone(before, key, parent);
      }
      if nodes[key].deps <= built {
        leaves := leaves + {key};
      }
      r := Ok(());
    }

    method ExpandDeps(key: Key, ghost stack: seq<Key>) returns (r: Result<(), BuildError>, ghost path: seq<Key>)
      requires GraphOk(stack + [key]) && IsPath(ws, stack + [key]) && (stack + [key])[0] == origin
      requires key in ws && key in nodes && LeavesOk(ws, nodes, leaves, built, {})
      modifies this`nodes, this`leaves, this`order
      ensures r.Ok? ==> GraphOk(stack + [key]) && Grew(old(nodes), nodes) && LeavesOk(ws, nodes, leaves, built, {})
      ensures r.Ok? ==> forall d :: d in ws[key] ==> Used(nodes, d, key)
      ensures r.Err? ==> Explains(ws, r.error, path) && (stack + [key])[0] == path[0]
      decreases ws.Keys - OnStack(stack + [key]), 1
    {
      hide Stacked, NodesOk, OrderOk, LeavesOk, Explains, From;
      ghost var all := stack + [key];
      path := all;
      assert all[|all| - 1] == key;
      var rest := ws[key];
      while rest != {}
        invariant rest <= ws[key]
        invariant GraphOk(all) && Grew(old(nodes), nodes) && LeavesOk(ws, nodes, leaves, built, {})
        invariant forall d :: d in ws[key] - rest ==> Used(nodes, d, key)
      {
        var d :| d in rest;
        ghost var before := nodes;
        PathExtends(ws, all, d);
        assert (all + [d])[0] == all[0];
        r, path := ExpandNode(d, Some(key), all);
        if r.Err? {
          return;
        }
        forall e | e in ws[key] - rest ensures Used(nodes, e, key) {
          StillUsed(before, nodes, e, key);
        }
        rest := rest - {d};
      }
      r := Ok(());
    }

    // ---- Execution ----

    ghost predicate ExecOk(initial: set<Key>)
      reads this
    {
      && GraphOk([])
      && built == initial + OnStack(log)
      && LogOk(ws, nodes, failing, initial, log)
      && LeavesOk(ws, nodes, leaves, built, OnStack(log))
    }

    // Builds one leaf and offers its users as leaves.
    method ExecuteNode(key: Key, ghost initial: set<Key>) returns (r: Result<(), BuildError>)
      requires ExecOk(initial) && key in leaves
      modifies this
      ensures nodes == old(nodes) && order == old(order) && origin == old(origin)
      ensures r.Ok? ==> ExecOk(initial) && log == old(log) + [key]
      ensures r.Err? ==> (r.error == AlreadyBuilt && key in initial) || (r.error == BuildFailed && key in failing)
      ensures r.Err? ==> built == old(built) && log == old(log)
      ensures old(leaves) >= {key} && Done(nodes, key)
    {
      hide Stacked, NodesOk, OrderOk, From, LogOk;
      LeafFacts(ws, nodes, leaves, built, log, key);
      leaves := leaves - {key};
      if key in built {
        return Err(AlreadyBuilt);
      }
      if key !in nodes {
        return Err(MissingNode);
      }
      var node := nodes[key];
      if !node.target {
        return Err(MissingTarget);
      }
      DepsFacts(ws, nodes, key);
      var rest := node.deps;
      while rest != {} {
        var d :| d in rest;
        if d !in built {
          return Err(BeforeDependencies);
        }
        rest := rest - {d};
      }
      if key in failing {
        return Err(BuildFailed);
      }
      LogGrows(ws, nodes, failing, initial, log, built, key);
      ghost var before := leaves;
      built := built + {key};
      log := log + [key];
      var users := node.usages;
      while users != {}
        invariant GraphOk([]) && users <= node.usages && nodes == old(nodes) && order == old(order)
        invariant origin == old(origin) && built == old(built) + {key} && log == old(log) + [key]
        invariant forall k :: k in leaves <==> k in before || (k in node.usages - users && k in ws && ws[k] <= built)
      {
        var u :| u in users;
        UserDone(ws, nodes, key, u);
        var s, path := ExpandNode(u, None, []);
        users := users - {u};
      }
      NewLeaves(ws, nodes, failing, initial, old(leaves), leaves, old(built), old(log), key);
      r := Ok(());
    }

    // Expands the graph below root and builds all of it.
    method BuildTarget(root: Key) returns (r: Result<Key, BuildError>)
      modifies this
      ensures r.Ok? <==>
                && Known(ws, root) && !Cyclic(ws, root)
                && (forall k :: Reaches(ws, root, k) ==> k !in failing && k !in old(built))
      ensures r.Ok? ==> r.value == root
      // Whether it succeeds or not, what has been built is what was built safely.
      ensures built == old(built) + OnStack(log) && BuiltSafely(ws, failing, old(built), root, log)
      ensures r == Err(Recursion) || r == Err(LookupFailed) ==> log == []
      ensures r.Ok? ==> Distinct(log) && Ordered(ws, log) && forall k :: k in log <==> Reaches(ws, root, k)
      ensures Known(ws, root) && Cyclic(ws, root) ==> r == Err(Recursion)
      ensures r == Err(Recursion) ==> Cyclic(ws, root)
      ensures r == Err(LookupFailed) ==> !Known(ws, root)
      ensures r.Err? ==> r.error in {Recursion, LookupFailed, AlreadyBuilt, BuildFailed}
      ensures r == Err(AlreadyBuilt) ==> exists k :: Reaches(ws, root, k) && k in old(built)
      ensures r == Err(BuildFailed) ==> exists k :: Reaches(ws, root, k) && k in failing
    {
      hide Stacked, NodesOk, OrderOk, LeavesOk, LogOk, Explains, Known, Cyclic, Reaches, Ordered, BuiltSafely;
      ghost var initial := built;
      nodes, leaves, origin, order, log := map[], {}, root, [], [];
      EmptyGraph(ws, failing, initial, root);
      var e, path := ExpandNode(root, None, []);
      if e.Err? {
        Explained(ws, root, e.error, path);
        NothingBuilt(ws, failing, initial, root);
        return Err(e.error);
      }
      StartsExecution(ws, nodes, failing, initial, leaves);
      RootInOrder(ws, nodes, order, root);
      while leaves != {}
        invariant ExecOk(initial) && OrderOk(ws, nodes, order) && root in order && origin == root
        decreases |order| - |log|
      {
        var key :| key in leaves;
        ghost var n := log;
        LogIsSafe(ws, nodes, failing, initial, root, log);
        var x := ExecuteNode(key, initial);
        assert Reaches(ws, root, key);
        if x.Err? {
          return Err(x.error);
        }
        LogFits(ws, nodes, failing, initial, log, order);
      }
      AllBuilt(ws, nodes, failing, initial, leaves, built, log, order);
      Completed(ws, nodes, failing, initial, log, order, root);
      LogIsSafe(ws, nodes, failing, initial, root, log);
      if root !in built {
        return Err(NotBuilt);
      }
      r := Ok(root);
    }
  }
}
