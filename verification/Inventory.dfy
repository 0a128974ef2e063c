/** Executor IDs of an Ansible inventory (deploy/scripts/executor-ids.py, executor_ids). */
module Inventory {
  import opened Wrappers

  /** A group's `hosts` or `children` as found in the JSON: missing, a list of names, or anything else. */
  datatype Field = Absent | Names(names: seq<string>) | NotNames

  datatype Group = Group(hosts: Field, children: Field) | NotAnObject

  type Groups = map<string, Group>

  datatype InventoryError = MissingGroup(name: string) | NotAGroup(name: string) | BadField(name: string)

  const ROOT := "executors"

  function NamesOf(f: Field): seq<string> {
    if f.Names? then f.names else []
  }

  /** Why a group cannot be read, or None. */
  function Problem(inv: Groups, name: string): Option<InventoryError> {
    if name !in inv then Some(MissingGroup(name))
    else if inv[name].NotAnObject? then Some(NotAGroup(name))
    else if inv[name].hosts.NotNames? || inv[name].children.NotNames? then Some(BadField(name))
    else None
  }

  predicate Good(inv: Groups, name: string)
    ensures Good(inv, name) ==> name in inv && inv[name].Group?
  {
    Problem(inv, name).None?
  }

  function Children(inv: Groups, name: string): seq<string>
    requires Good(inv, name)
  {
    NamesOf(inv[name].children)
  }

  function Hosts(inv: Groups, name: string): seq<string>
    requires Good(inv, name)
  {
    NamesOf(inv[name].hosts)
  }

  // ----- The meaning: recursive depth-first preorder

  function Elements(s: seq<string>): set<string> {
    set x | x in s
  }

  /** The groups visited before, then `name` and what it leads to that was not visited yet. */
  function Visit(inv: Groups, name: string, order: seq<string>): (r: Result<seq<string>, InventoryError>)
    ensures r.Success? ==> order <= r.value
    decreases inv.Keys - Elements(order), 0
  {
    if name in order then Success(order)
    else if !Good(inv, name) then Failure(Problem(inv, name).value)
    else
      assert name in inv.Keys - Elements(order) && name !in inv.Keys - Elements(order + [name]);
      VisitAll(inv, Children(inv, name), order + [name])
  }

  function VisitAll(inv: Groups, names: seq<string>, order: seq<string>): (r: Result<seq<string>, InventoryError>)
    ensures r.Success? ==> order <= r.value
    decreases inv.Keys - Elements(order), 1 + |names|
  {
    if names == [] then Success(order)
    else match Visit(inv, names[0], order)
      case Failure(e) => Failure(e)
      case Success(after) =>
        assert inv.Keys - Elements(after) <= inv.Keys - Elements(order);
        VisitAll(inv, names[1..], after)
  }

  /** Names added to an ordered dictionary of hosts: an old name keeps its place. */
  function AddHosts(hosts: seq<string>, names: seq<string>): seq<string>
    decreases |names|
  {
    if names == [] then hosts
    else AddHosts(if names[0] in hosts then hosts else hosts + [names[0]], names[1..])
  }

  /** The hosts of some groups in order, each once. */
  function HostsOf(inv: Groups, order: seq<string>): seq<string>
    requires forall g | g in order :: Good(inv, g)
  {
    if order == [] then []
    else
      var last := order[|order| - 1];
      assert last in order;
      AddHosts(HostsOf(inv, order[..|order| - 1]), Hosts(inv, last))
  }

  function IdsOf(hosts: seq<string>, executorIds: map<string, string>): seq<string> {
    seq(|hosts|, i requires 0 <= i < |hosts| => if hosts[i] in executorIds then executorIds[hosts[i]] else hosts[i])
  }

  ghost function ExecutorIds(inv: Groups, executorIds: map<string, string>): Result<seq<string>, InventoryError> {
    match VisitAll(inv, [ROOT], [])
    case Failure(e) => Failure(e)
    case Success(order) =>
      VisitedAreGood(inv, [ROOT], []);
      Success(IdsOf(HostsOf(inv, order), executorIds))
  }

  lemma {:induction false} VisitedAreGood(inv: Groups, names: seq<string>, order: seq<string>)
    requires forall g | g in order :: Good(inv, g)
    ensures var r := VisitAll(inv, names, order); r.Success? ==> forall g | g in r.value :: Good(inv, g)
    decreases inv.Keys - Elements(order), |names|
  {
    if names != [] {
      var name := names[0];
      if name !in order && Good(inv, name) {
        assert name in inv.Keys - Elements(order) && name !in inv.Keys - Elements(order + [name]);
        VisitedAreGood(inv, Children(inv, name), order + [name]);
      }
      var after := Visit(inv, name, order);
      if after.Success? {
        assert inv.Keys - Elements(after.value) <= inv.Keys - Elements(order);
        VisitedAreGood(inv, names[1..], after.value);
      }
    }
  }

  // ----- What the preorder visits: exactly the reachable groups

  /** A chain of groups from the root, each a child of the one before. */
  ghost predicate IsPath(inv: Groups, path: seq<string>) {
    && |path| > 0 && path[0] == ROOT
    && forall i | 0 <= i < |path| - 1 :: Good(inv, path[i]) && path[i + 1] in Children(inv, path[i])
  }

  ghost predicate Reachable(inv: Groups, name: string) {
    exists path: seq<string> :: IsPath(inv, path) && path[|path| - 1] == name
  }

  lemma RootIsReachable(inv: Groups)
    ensures Reachable(inv, ROOT)
  {
    assert IsPath(inv, [ROOT]);
  }

  lemma ChildIsReachable(inv: Groups, name: string, child: string)
    requires Reachable(inv, name) && Good(inv, name) && child in Children(inv, name)
    ensures Reachable(inv, child)
  {
    var path: seq<string> :| IsPath(inv, path) && path[|path| - 1] == name;
    assert IsPath(inv, path + [child]);
  }

  /** Only reachable groups are visited, and a failure names a reachable group that cannot be read. */
  lemma {:induction false} VisitsOnlyReachable(inv: Groups, names: seq<string>, order: seq<string>)
    requires forall g | g in names || g in order :: Reachable(inv, g)
    ensures match VisitAll(inv, names, order)
      case Success(after) => forall g | g in after :: Reachable(inv, g)
      case Failure(e) => Reachable(inv, e.name) && Problem(inv, e.name) == Some(e)
    decreases inv.Keys - Elements(order), |names|
  {
    if names != [] {
      var name := names[0];
      if name !in order && Good(inv, name) {
        assert name in inv.Keys - Elements(order) && name !in inv.Keys - Elements(order + [name]);
        forall child | child in Children(inv, name) ensures Reachable(inv, child) { ChildIsReachable(inv, name, child); }
        VisitsOnlyReachable(inv, Children(inv, name), order + [name]);
      }
      var after := Visit(inv, name, order);
      if after.Success? {
        assert inv.Keys - Elements(after.value) <= inv.Keys - Elements(order);
        VisitsOnlyReachable(inv, names[1..], after.value);
      }
    }
  }

  /** Everything asked for, and every child of a newly visited group, ends up visited; nothing twice. */
  ghost predicate Closed(inv: Groups, before: seq<string>, after: seq<string>) {
    forall g | g in after && g !in before :: Good(inv, g) && forall c | c in Children(inv, g) :: c in after
  }

  ghost predicate NoRepeats(s: seq<string>) {
    forall i, j | 0 <= i < j < |s| :: s[i] != s[j]
  }

  lemma {:induction false} VisitsAllReachable(inv: Groups, names: seq<string>, order: seq<string>)
    requires NoRepeats(order)
    ensures match VisitAll(inv, names, order)
      case Failure(_) => true
      case Success(after) => (forall g | g in names :: g in after) && Closed(inv, order, after) && NoRepeats(after)
    decreases inv.Keys - Elements(order), |names|
  {
    if names != [] {
      var name := names[0];
      if name !in order && Good(inv, name) {
        assert name in inv.Keys - Elements(order) && name !in inv.Keys - Elements(order + [name]);
        VisitsAllReachable(inv, Children(inv, name), order + [name]);
      }
      var after := Visit(inv, name, order);
      if after.Success? {
        assert inv.Keys - Elements(after.value) <= inv.Keys - Elements(order);
        assert name in after.value && Closed(inv, order, after.value) && NoRepeats(after.value);
        VisitsAllReachable(inv, names[1..], after.value);
      }
    }
  }

  lemma {:induction false} PathStaysInside(inv: Groups, order: seq<string>, path: seq<string>)
    requires ROOT in order && Closed(inv, [], order) && IsPath(inv, path)
    ensures path[|path| - 1] in order
    decreases |path|
  {
    if |path| > 1 {
      var shorter := path[..|path| - 1];
      assert IsPath(inv, shorter);
      PathStaysInside(inv, order, shorter);
    }
  }

  /** The traversal succeeds if and only if every reachable group is present and well formed. */
  lemma SucceedsExactly(inv: Groups)
    ensures VisitAll(inv, [ROOT], []).Success? <==> forall g | Reachable(inv, g) :: Good(inv, g)
  {
    RootIsReachable(inv);
    VisitsOnlyReachable(inv, [ROOT], []);
    if VisitAll(inv, [ROOT], []).Success? {
      forall g | Reachable(inv, g) ensures Good(inv, g) { ReachableIsVisited(inv, g); }
    }
  }

  lemma ReachableIsVisited(inv: Groups, g: string)
    requires VisitAll(inv, [ROOT], []).Success? && Reachable(inv, g)
    ensures g in VisitAll(inv, [ROOT], []).value && Good(inv, g)
  {
    VisitsAllReachable(inv, [ROOT], []);
    var path: seq<string> :| IsPath(inv, path) && path[|path| - 1] == g;
    assert ROOT in [ROOT];
    PathStaysInside(inv, VisitAll(inv, [ROOT], []).value, path);
  }

  /** On success every reachable group is visited, exactly once, and no other. */
  lemma VisitsReachableOnce(inv: Groups)
    requires VisitAll(inv, [ROOT], []).Success?
    ensures var order := VisitAll(inv, [ROOT], []).value;
      NoRepeats(order) && forall g :: g in order <==> Reachable(inv, g)
  {
    RootIsReachable(inv);
    VisitsOnlyReachable(inv, [ROOT], []);
    VisitsAllReachable(inv, [ROOT], []);
    forall g | Reachable(inv, g) ensures g in VisitAll(inv, [ROOT], []).value { ReachableIsVisited(inv, g); }
  }

  lemma {:induction false} AddedHosts(hosts: seq<string>, names: seq<string>)
    requires NoRepeats(hosts)
    ensures var all := AddHosts(hosts, names);
      NoRepeats(all) && hosts <= all && forall h :: h in all <==> h in hosts || h in names
    decreases |names|
  {
    if names != [] {
      AddedHosts(if names[0] in hosts then hosts else hosts + [names[0]], names[1..]);
    }
  }

  /** A group's hosts are added in the order listed. */
  lemma {:induction false} HostsInListedOrder(hosts: seq<string>, names: seq<string>, i: nat)
    requires NoRepeats(hosts) && i <= |names|
    ensures AddHosts(hosts, names[..i]) <= AddHosts(hosts, names)
    decreases |names|
  {
    if i == 0 {
      AddedHosts(hosts, names);
    } else {
      assert names[..i][1..] == names[1..][..i - 1];
      HostsInListedOrder(if names[0] in hosts then hosts else hosts + [names[0]], names[1..], i - 1);
    }
  }

  /** The hosts of some groups are listed once each, and groups visited later never move them. */
  lemma {:induction false} HostsOnce(inv: Groups, order: seq<string>)
    requires forall g | g in order :: Good(inv, g)
    ensures NoRepeats(HostsOf(inv, order))
    ensures forall h :: h in HostsOf(inv, order) <==> exists g :: g in order && h in Hosts(inv, g)
    ensures order != [] ==> HostsOf(inv, order[..|order| - 1]) <= HostsOf(inv, order)
    decreases |order|
  {
    if order != [] {
      var before, last := order[..|order| - 1], order[|order| - 1];
      HostsOnce(inv, before);
      assert order == before + [last] && last in order;
      AddedHosts(HostsOf(inv, before), Hosts(inv, last));
    }
  }

  /** Every host of every reachable group is listed exactly once. */
  lemma ListsReachableHostsOnce(inv: Groups)
    requires VisitAll(inv, [ROOT], []).Success?
    ensures forall g | g in VisitAll(inv, [ROOT], []).value :: Good(inv, g)
    ensures var hosts := HostsOf(inv, VisitAll(inv, [ROOT], []).value);
      && NoRepeats(hosts)
      && forall h :: h in hosts <==> exists g :: Reachable(inv, g) && Good(inv, g) && h in Hosts(inv, g)
  {
    VisitedAreGood(inv, [ROOT], []);
    VisitsReachableOnce(inv);
    HostsOnce(inv, VisitAll(inv, [ROOT], []).value);
  }

  lemma {:induction false} VisitAllInParts(inv: Groups, a: seq<string>, b: seq<string>, order: seq<string>)
    ensures VisitAll(inv, a + b, order) == match VisitAll(inv, a, order)
      case Failure(e) => Failure(e)
      case Success(after) => VisitAll(inv, b, after)
    decreases |a|
  {
    if a == [] {
      assert a + b == b;
    } else {
      assert (a + b)[1..] == a[1..] + b;
      var after := Visit(inv, a[0], order);
      if after.Success? { VisitAllInParts(inv, a[1..], b, after.value); }
    }
  }

  /** A group can be read if it is an object whose hosts and children are lists of names or missing. */
  lemma GoodExactly(inv: Groups, name: string)
    ensures Good(inv, name) <==>
      && name in inv && inv[name].Group?
      && (inv[name].hosts == Absent || inv[name].hosts.Names?) && (inv[name].children == Absent || inv[name].children.Names?)
    ensures Problem(inv, name) == Some(MissingGroup(name)) <==> name !in inv
    ensures Problem(inv, name) == Some(NotAGroup(name)) <==> name in inv && inv[name] == NotAnObject
    ensures Problem(inv, name) == Some(BadField(name)) <==>
      name in inv && inv[name].Group? && (inv[name].hosts == NotNames || inv[name].children == NotNames)
    ensures Good(inv, name) && inv[name].hosts.Names? ==> Hosts(inv, name) == inv[name].hosts.names
    ensures Good(inv, name) && inv[name].hosts == Absent ==> Hosts(inv, name) == []
    ensures Good(inv, name) && inv[name].children == Absent ==> Children(inv, name) == []
  {}

  lemma {:induction false} HostsGrow(inv: Groups, a: seq<string>, b: seq<string>)
    requires a <= b && forall g | g in b :: Good(inv, g)
    ensures forall g | g in a :: Good(inv, g)
    ensures HostsOf(inv, a) <= HostsOf(inv, b)
    decreases |b|
  {
    assert forall g | g in a :: g in b;
    if |a| < |b| {
      HostsGrow(inv, a, b[..|b| - 1]);
      HostsOnce(inv, b);
    } else {
      assert a == b;
    }
  }

  /**
  Children are visited in the order listed: whatever the first i children of a group lead to, groups and hosts, comes
  before anything only later children lead to.
  */
  lemma SiblingsInOrder(inv: Groups, name: string, order: seq<string>, names: seq<string>, i: nat)
    requires name !in order && Good(inv, name) && inv[name].children == Names(names) && i <= |names|
    requires Visit(inv, name, order).Success? && forall g | g in order :: Good(inv, g)
    ensures var first, all := VisitAll(inv, names[..i], order + [name]), Visit(inv, name, order).value;
      && first.Success? && order + [name] <= first.value <= all
      && (forall g | g in all :: Good(inv, g)) && (forall g | g in first.value :: Good(inv, g))
      && HostsOf(inv, first.value) <= HostsOf(inv, all)
  {
    assert names == names[..i] + names[i..];
    VisitAllInParts(inv, names[..i], names[i..], order + [name]);
    assert name in inv.Keys - Elements(order) && name !in inv.Keys - Elements(order + [name]);
    VisitedAreGood(inv, names, order + [name]);
    HostsGrow(inv, VisitAll(inv, names[..i], order + [name]).value, Visit(inv, name, order).value);
  }

  /** Every listed host is answered for by its executor ID, or by its own name if it has none. */
  lemma IdsAnswerHosts(inv: Groups, executorIds: map<string, string>, i: nat)
    requires ExecutorIds(inv, executorIds).Success? && i < |ExecutorIds(inv, executorIds).value|
    ensures VisitAll(inv, ["executors"], []).Success?
    ensures var order := VisitAll(inv, ["executors"], []).value;
      && (forall g | g in order :: Good(inv, g))
      && var hosts := HostsOf(inv, order);
      && |ExecutorIds(inv, executorIds).value| == |hosts|
      && (hosts[i] in executorIds ==> ExecutorIds(inv, executorIds).value[i] == executorIds[hosts[i]])
      && (hosts[i] !in executorIds ==> ExecutorIds(inv, executorIds).value[i] == hosts[i])
  {
    VisitedAreGood(inv, ["executors"], []);
  }

  // ----- The explicit stack

  function Reversed(s: seq<string>): (r: seq<string>)
    ensures |r| == |s| && forall i | 0 <= i < |s| :: r[i] == s[|s| - 1 - i]
  {
    if s == [] then [] else Reversed(s[1..]) + [s[0]]
  }

  /** Popping a name and pushing its children leaves the remaining visits unchanged. */
  lemma PopVisits(inv: Groups, pending: seq<string>, order: seq<string>)
    requires pending != []
    ensures var name, rest := pending[|pending| - 1], pending[..|pending| - 1];
      VisitAll(inv, Reversed(pending), order) ==
      if name in order then VisitAll(inv, Reversed(rest), order)
      else if !Good(inv, name) then Failure(Problem(inv, name).value)
      else VisitAll(inv, Reversed(rest + Reversed(Children(inv, name))), order + [name])
  {
    var name, rest := pending[|pending| - 1], pending[..|pending| - 1];
    assert Reversed(pending) == [name] + Reversed(rest);
    assert Reversed(pending)[1..] == Reversed(rest);
    if name !in order && Good(inv, name) {
      var children := Children(inv, name);
      assert Reversed(rest + Reversed(children)) == children + Reversed(rest);
      VisitAllInParts(inv, children, Reversed(rest), order + [name]);
    }
  }

  lemma HostsOneMore(inv: Groups, order: seq<string>, name: string)
    requires Good(inv, name) && forall g | g in order :: Good(inv, g)
    ensures forall g | g in order + [name] :: Good(inv, g)
    ensures HostsOf(inv, order + [name]) == AddHosts(HostsOf(inv, order), Hosts(inv, name))
  {
    assert (order + [name])[..|order|] == order;
  }

  /** Looking a group up and checking its two fields. */
  method ReadGroup(inv: Groups, name: string) returns (problem: Option<InventoryError>)
    ensures problem == Problem(inv, name)
  {
    if name !in inv { return Some(MissingGroup(name)); }
    var group := inv[name];
    if group.NotAnObject? { return Some(NotAGroup(name)); }
    if group.hosts.NotNames? { return Some(BadField(name)); }
    if group.children.NotNames? { return Some(BadField(name)); }
    problem := None;
  }

  method ComputeExecutorIds(inv: Groups, executorIds: map<string, string>) returns (r: Result<seq<string>, InventoryError>)
    ensures r == ExecutorIds(inv, executorIds)
  {
    var hosts: seq<string>, visited: set<string> := [], {};
    var pending := [ROOT];
    ghost var order: seq<string> := [];
    assert Reversed([ROOT]) == [ROOT];
    while pending != []
      invariant forall g :: g in visited <==> g in order
      invariant forall g | g in order :: Good(inv, g)
      invariant hosts == HostsOf(inv, order)
      invariant VisitAll(inv, Reversed(pending), order) == VisitAll(inv, [ROOT], [])
      decreases inv.Keys - visited, |pending|
    {
      PopVisits(inv, pending, order);
      var name := pending[|pending| - 1];
      pending := pending[..|pending| - 1];
      if name in visited { continue; }
      visited := visited + {name};
      var problem := ReadGroup(inv, name);
      if problem.Some? {
        assert VisitAll(inv, [ROOT], []) == Failure(problem.value);
        return Failure(problem.value);
      }
      HostsOneMore(inv, order, name);
      order := order + [name];
      hosts := AddHosts(hosts, Hosts(inv, name));
      pending := pending + Reversed(Children(inv, name));
    }
    assert VisitAll(inv, Reversed(pending), order) == Success(order);
    r := Success(IdsOf(hosts, executorIds));
  }
}
