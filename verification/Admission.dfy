/**
 * Runtime admission policies: how many nodes an entity may register for a
 * runtime, in total and per role, and that no run exceeds the limits.
 */
module Admission {
  import opened Wrappers

  type NodeId = nat
  type EntityId = nat
  type RuntimeId = nat
  type Epoch = nat
  type Role = nat

  datatype Node = Node(id: NodeId, entity: EntityId, expiration: Epoch, runtimes: set<RuntimeId>, roles: set<Role>)

  predicate IsExpired(n: Node, epoch: Epoch) { n.expiration < epoch }

  /**
   * The whitelist maps an entity to its limit per role (no entries: no limits).
   * The per-role policies map an entity to its limit (zero: no limit).
   */
  datatype Policy = Policy(
    entityWhitelist: Option<map<EntityId, map<Role, nat>>>,
    perRole: map<Role, Option<map<EntityId, nat>>>)

  /** The most nodes with the role that the entity may have, if limited. */
  function WhitelistLimit(p: Policy, entity: EntityId, role: Role): Option<nat> {
    if p.entityWhitelist.None? then None
    else
      var entities := p.entityWhitelist.value;
      if entity !in entities then Some(0)
      else if |entities[entity]| == 0 then None
      else if role !in entities[entity] then Some(0)
      else Some(entities[entity][role])
  }

  function RoleLimit(p: Policy, entity: EntityId, role: Role): Option<nat> {
    if role !in p.perRole || p.perRole[role].None? then None
    else
      var entities := p.perRole[role].value;
      if entity !in entities then Some(0)
      else if entities[entity] == 0 then None
      else Some(entities[entity])
  }

  predicate Within(count: nat, limit: Option<nat>) {
    limit.Some? ==> count <= limit.value
  }

  // ---- counting ----

  /** A node other than the new one, in good standing, for the same runtime. */
  predicate Relevant(n: Node, newNode: Node, rt: RuntimeId, epoch: Epoch) {
    n.id != newNode.id && !IsExpired(n, epoch) && rt in n.runtimes
  }

  function Count(nodes: seq<Node>, newNode: Node, rt: RuntimeId, epoch: Epoch, role: Role): nat {
    if nodes == [] then 0
    else
      var n := nodes[|nodes| - 1];
      Count(nodes[..|nodes| - 1], newNode, rt, epoch, role)
      + if Relevant(n, newNode, rt, epoch) && role in n.roles then 1 else 0
  }

  lemma {:induction false} CountGrows(nodes: seq<Node>, newNode: Node, rt: RuntimeId, epoch: Epoch, role: Role, i: nat)
    requires i <= |nodes|
    ensures Count(nodes[..i], newNode, rt, epoch, role) <= Count(nodes, newNode, rt, epoch, role)
    decreases |nodes| - i
  {
    if i == |nodes| {
      assert nodes[..i] == nodes;
    } else {
      CountGrows(nodes, newNode, rt, epoch, role, i + 1);
      assert nodes[..i + 1][..i] == nodes[..i];
    }
  }

  /**
   * The loop leaves early, yet for every limit of at least one it decides on
   * the full count; with limit zero it only looks for some relevant node.
   */
  method VerifyNodeCount(
    nodes: seq<Node>, newNode: Node, rt: RuntimeId, epoch: Epoch, role: Role, maxNodes: nat)
    returns (ok: bool)
    ensures maxNodes >= 1 ==> (ok <==> Count(nodes, newNode, rt, epoch, role) + 1 <= maxNodes)
    ensures maxNodes == 0 ==> (ok <==> forall i :: 0 <= i < |nodes| ==> !Relevant(nodes[i], newNode, rt, epoch))
  {
    var curNodes: nat := 0;
    for i := 0 to |nodes|
      invariant curNodes == Count(nodes[..i], newNode, rt, epoch, role)
      invariant maxNodes >= 1 ==> curNodes + 1 <= maxNodes
      invariant maxNodes == 0 ==> forall k :: 0 <= k < i ==> !Relevant(nodes[k], newNode, rt, epoch)
    {
      var n := nodes[i];
      assert nodes[..i + 1][..i] == nodes[..i];
      if n.id == newNode.id || IsExpired(n, epoch) || rt !in n.runtimes {
        continue;
      }
      if role in n.roles {
        curNodes := curNodes + 1;
      }
      if curNodes + 1 > maxNodes {
        CountGrows(nodes, newNode, rt, epoch, role, i + 1);
        return false;
      }
    }
    assert nodes[..|nodes|] == nodes;
    return true;
  }

  // ---- the policy ----

  /** With the new node counted, every role it has stays within both limits. */
  ghost predicate Admits(p: Policy, nodes: seq<Node>, newNode: Node, rt: RuntimeId, epoch: Epoch) {
    && (p.entityWhitelist.Some? ==> newNode.entity in p.entityWhitelist.value)
    && forall role :: role in newNode.roles ==>
         var count := Count(nodes, newNode, rt, epoch, role) + 1;
         Within(count, WhitelistLimit(p, newNode.entity, role)) && Within(count, RoleLimit(p, newNode.entity, role))
  }

  method VerifyWhitelist(
    p: Policy, roles: seq<Role>, nodes: seq<Node>, newNode: Node, rt: RuntimeId, epoch: Epoch)
    returns (ok: bool)
    requires p.entityWhitelist.Some?
    requires forall role :: role in newNode.roles ==> role in roles
    ensures ok <==>
            && newNode.entity in p.entityWhitelist.value
            && forall role :: role in newNode.roles ==>
                 Within(Count(nodes, newNode, rt, epoch, role) + 1, WhitelistLimit(p, newNode.entity, role))
  {
    var entities := p.entityWhitelist.value;
    if newNode.entity !in entities {
      return false;
    }
    var maxNodes := entities[newNode.entity];
    if |maxNodes| == 0 {
      return true;
    }
    for i := 0 to |roles|
      invariant forall k :: 0 <= k < i && roles[k] in newNode.roles ==>
                  Within(Count(nodes, newNode, rt, epoch, roles[k]) + 1, WhitelistLimit(p, newNode.entity, roles[k]))
    {
      var role := roles[i];
      if role !in newNode.roles {
        continue;
      }
      if role !in maxNodes || maxNodes[role] == 0 {
        return false;
      }
      var within := VerifyNodeCount(nodes, newNode, rt, epoch, role, maxNodes[role]);
      if !within {
        return false;
      }
    }
    return true;
  }

  method VerifyRole(
    p: Policy, nodes: seq<Node>, newNode: Node, rt: RuntimeId, epoch: Epoch, role: Role)
    returns (ok: bool)
    requires role in p.perRole
    ensures ok <==> Within(Count(nodes, newNode, rt, epoch, role) + 1, RoleLimit(p, newNode.entity, role))
  {
    if p.perRole[role].None? {
      return true;
    }
    var entities := p.perRole[role].value;
    if newNode.entity !in entities {
      return false;
    }
    if entities[newNode.entity] == 0 {
      return true;
    }
    ok := VerifyNodeCount(nodes, newNode, rt, epoch, role, entities[newNode.entity]);
  }

  /** nodes are those of the new node's entity; roles lists all roles there are. */
  method Verify(
    p: Policy, roles: seq<Role>, nodes: seq<Node>, newNode: Node, rt: RuntimeId, epoch: Epoch)
    returns (ok: bool)
    requires forall role :: role in newNode.roles ==> role in roles
    ensures ok <==> Admits(p, nodes, newNode, rt, epoch)
  {
    if p.entityWhitelist.Some? {
      var listed := VerifyWhitelist(p, roles, nodes, newNode, rt, epoch);
      if !listed {
        return false;
      }
    }
    if |p.perRole| > 0 {
      for i := 0 to |roles|
        invariant forall k :: 0 <= k < i && roles[k] in newNode.roles ==>
                    Within(Count(nodes, newNode, rt, epoch, roles[k]) + 1, RoleLimit(p, newNode.entity, roles[k]))
      {
        var role := roles[i];
        if role !in newNode.roles || role !in p.perRole {
          continue;
        }
        var within := VerifyRole(p, nodes, newNode, rt, epoch, role);
        if !within {
          return false;
        }
      }
    }
    return true;
  }

  // ---- the registry over time ----

  /** The registered nodes by identifier, and the current epoch. */
  datatype Registry = Registry(now: Epoch, nodes: map<NodeId, Node>)

  /** The nodes of the entity that count towards its limit for the role. */
  function Standing(r: Registry, entity: EntityId, rt: RuntimeId, role: Role): set<NodeId> {
    set id | id in r.nodes && r.nodes[id].entity == entity && !IsExpired(r.nodes[id], r.now)
             && rt in r.nodes[id].runtimes && role in r.nodes[id].roles
  }

  /** What the lookup of an entity's nodes returns: each of them once. */
  ghost predicate Lists(nodes: seq<Node>, r: Registry, entity: EntityId) {
    && (forall i, j :: 0 <= i < j < |nodes| ==> nodes[i].id != nodes[j].id)
    && (forall i :: 0 <= i < |nodes| ==>
        nodes[i].id in r.nodes && r.nodes[nodes[i].id] == nodes[i] && nodes[i].entity == entity)
    && (forall id :: id in r.nodes && r.nodes[id].entity == entity ==> r.nodes[id] in nodes)
    && (forall id :: id in r.nodes ==> r.nodes[id].id == id)
  }

  function CountedIds(nodes: seq<Node>, newNode: Node, rt: RuntimeId, epoch: Epoch, role: Role): set<NodeId> {
    set i | 0 <= i < |nodes| && Relevant(nodes[i], newNode, rt, epoch) && role in nodes[i].roles :: nodes[i].id
  }

  lemma {:induction false} CountIsSize(nodes: seq<Node>, newNode: Node, rt: RuntimeId, epoch: Epoch, role: Role)
    requires forall i, j :: 0 <= i < j < |nodes| ==> nodes[i].id != nodes[j].id
    ensures Count(nodes, newNode, rt, epoch, role) == |CountedIds(nodes, newNode, rt, epoch, role)|
  {
    if nodes != [] {
      hide CountedIds, Relevant;
      var last := |nodes| - 1;
      var front, n := nodes[..last], nodes[last];
      CountIsSize(front, newNode, rt, epoch, role);
      CountedStep(nodes, newNode, rt, epoch, role);
    }
  }

  lemma {:induction false} CountedStep(nodes: seq<Node>, newNode: Node, rt: RuntimeId, epoch: Epoch, role: Role)
    requires nodes != [] && forall i, j :: 0 <= i < j < |nodes| ==> nodes[i].id != nodes[j].id
    ensures var front, n := nodes[..|nodes| - 1], nodes[|nodes| - 1];
            var before := CountedIds(front, newNode, rt, epoch, role);
            && n.id !in before
            && CountedIds(nodes, newNode, rt, epoch, role)
               == if Relevant(n, newNode, rt, epoch) && role in n.roles then before + {n.id} else before
  {
    hide Relevant;
  }

  /** The count is the number of standing nodes other than the new one. */
  lemma {:induction false} CountMeaning(r: Registry, nodes: seq<Node>, newNode: Node, rt: RuntimeId, role: Role)
    requires Lists(nodes, r, newNode.entity)
    ensures Count(nodes, newNode, rt, r.now, role) == |Standing(r, newNode.entity, rt, role) - {newNode.id}|
  {
    CountIsSize(nodes, newNode, rt, r.now, role);
    var counted := CountedIds(nodes, newNode, rt, r.now, role);
    var standing := Standing(r, newNode.entity, rt, role) - {newNode.id};
    forall id | id in standing ensures id in counted {
      var i :| 0 <= i < |nodes| && nodes[i] == r.nodes[id];
      assert Relevant(nodes[i], newNode, rt, r.now);
    }
    assert counted == standing;
  }

  /** Admission, said of the registry instead of a list of nodes. */
  ghost predicate AdmitsIn(p: Policy, r: Registry, newNode: Node, rt: RuntimeId) {
    && (p.entityWhitelist.Some? ==> newNode.entity in p.entityWhitelist.value)
    && forall role :: role in newNode.roles ==>
         var count := |Standing(r, newNode.entity, rt, role) - {newNode.id}| + 1;
         Within(count, WhitelistLimit(p, newNode.entity, role)) && Within(count, RoleLimit(p, newNode.entity, role))
  }

  lemma {:induction false} AdmitsMeaning(p: Policy, r: Registry, nodes: seq<Node>, newNode: Node, rt: RuntimeId)
    requires Lists(nodes, r, newNode.entity)
    ensures Admits(p, nodes, newNode, rt, r.now) <==> AdmitsIn(p, r, newNode, rt)
  {
    forall role | role in newNode.roles
      ensures Count(nodes, newNode, rt, r.now, role) == |Standing(r, newNode.entity, rt, role) - {newNode.id}|
    {
      CountMeaning(r, nodes, newNode, rt, role);
    }
  }

  /**
   * Who is admitted, in terms of the policy's own tables: a whitelist admits
   * only entities it lists; one that limits an entity at all does so for every
   * role, with none left for roles that it does not mention; a per-role
   * whitelist takes zero for no limit.
   */
  lemma {:induction false} AdmittedExactly(p: Policy, r: Registry, nodes: seq<Node>, newNode: Node, rt: RuntimeId)
    requires Lists(nodes, r, newNode.entity)
    ensures Admits(p, nodes, newNode, rt, r.now) <==>
            var entity := newNode.entity;
            && (p.entityWhitelist.Some? ==>
                var allowed := p.entityWhitelist.value;
                && entity in allowed
                && (allowed[entity] != map[] ==>
                    forall role :: role in newNode.roles ==>
                      && role in allowed[entity]
                      && |Standing(r, entity, rt, role) - {newNode.id}| < allowed[entity][role]))
            && (forall role :: role in newNode.roles && role in p.perRole && p.perRole[role].Some? ==>
                  var allowed := p.perRole[role].value;
                  && entity in allowed
                  && (allowed[entity] > 0 ==>
                      |Standing(r, entity, rt, role) - {newNode.id}| < allowed[entity]))
  {
    hide Lists, Standing, Admits;
    AdmitsMeaning(p, r, nodes, newNode, rt);
    if p.entityWhitelist.Some? && newNode.entity in p.entityWhitelist.value {
      EmptyMap(p.entityWhitelist.value[newNode.entity]);
    }
  }

  lemma {:induction false} EmptyMap(m: map<Role, nat>)
    ensures |m| == 0 <==> m == map[]
  {
  }

  /** `nodes` is what the lookup of the entity's nodes returned for the registration. */
  datatype Step = Advance(epochs: nat) | RegisterNode(node: Node, nodes: seq<Node>) | RemoveNode(id: NodeId)

  /** A (re-)registration for the runtime must be admitted; others need not. */
  ghost function Next(p: Policy, rt: RuntimeId, r: Registry, step: Step): (r': Registry) {
    match step
    case Advance(epochs) => r.(now := r.now + epochs)
    case RegisterNode(n, nodes) =>
      if rt in n.runtimes && !Admits(p, nodes, n, rt, r.now) then r else r.(nodes := r.nodes[n.id := n])
    case RemoveNode(id) => r.(nodes := r.nodes - {id})
  }

  ghost function Run(p: Policy, rt: RuntimeId, steps: seq<Step>): (r: Registry) {
    if steps == [] then Registry(0, map[])
    else Next(p, rt, Run(p, rt, steps[..|steps| - 1]), steps[|steps| - 1])
  }

  ghost predicate LooksUp(r: Registry, step: Step) {
    step.RegisterNode? ==> Lists(step.nodes, r, step.node.entity)
  }

  /** Every lookup of a run has returned the entity's nodes at that time. */
  ghost predicate AllLookUp(p: Policy, rt: RuntimeId, steps: seq<Step>) {
    forall i :: 0 <= i < |steps| ==> LooksUp(Run(p, rt, steps[..i]), steps[i])
  }

  ghost predicate WithinLimits(p: Policy, rt: RuntimeId, r: Registry, entity: EntityId, role: Role) {
    var count := |Standing(r, entity, rt, role)|;
    Within(count, WhitelistLimit(p, entity, role)) && Within(count, RoleLimit(p, entity, role))
  }

  lemma {:induction false} SubsetSize(a: set<NodeId>, b: set<NodeId>)
    requires a <= b
    ensures |a| <= |b|
  {
    assert b == a + (b - a);
  }

  lemma {:induction false} AdmittedWithin(p: Policy, rt: RuntimeId, r: Registry, n: Node, role: Role)
    requires AdmitsIn(p, r, n, rt) && role in n.roles
    ensures WithinLimits(p, rt, r.(nodes := r.nodes[n.id := n]), n.entity, role)
  {
    hide WhitelistLimit, RoleLimit;
    var others := Standing(r, n.entity, rt, role) - {n.id};
    var after := Standing(r.(nodes := r.nodes[n.id := n]), n.entity, rt, role);
    SubsetSize(after, others + {n.id});
  }

  lemma {:induction false} NextWithinLimits(
    p: Policy, rt: RuntimeId, r: Registry, step: Step, entity: EntityId, role: Role)
    requires WithinLimits(p, rt, r, entity, role) && LooksUp(r, step)
    ensures WithinLimits(p, rt, Next(p, rt, r, step), entity, role)
  {
    hide WhitelistLimit, RoleLimit, Admits, Lists, AdmitsIn;
    if step.RegisterNode? {
      AdmitsMeaning(p, r, step.nodes, step.node, rt);
    }
    var r' := Next(p, rt, r, step);
    if && step.RegisterNode? && r' != r && rt in step.node.runtimes
       && step.node.entity == entity && role in step.node.roles {
      AdmittedWithin(p, rt, r, step.node, role);
    } else {
      SubsetSize(Standing(r', entity, rt, role), Standing(r, entity, rt, role));
    }
  }

  /**
   * In every run of epoch advances, admitted registrations and removals, under
   * a fixed policy, no entity ever exceeds a limit for any role.
   */
  lemma {:induction false} RunWithinLimits(p: Policy, rt: RuntimeId, steps: seq<Step>, entity: EntityId, role: Role)
    requires AllLookUp(p, rt, steps)
    ensures WithinLimits(p, rt, Run(p, rt, steps), entity, role)
  {
    hide Next, LooksUp, WithinLimits;
    if steps == [] {
      EmptyWithin(p, rt, entity, role);
    } else {
      var last := |steps| - 1;
      assert LooksUp(Run(p, rt, steps[..last]), steps[last]);
      forall i | 0 <= i < last ensures LooksUp(Run(p, rt, steps[..last][..i]), steps[..last][i]) {
        assert steps[..last][..i] == steps[..i];
      }
      RunWithinLimits(p, rt, steps[..last], entity, role);
      NextWithinLimits(p, rt, Run(p, rt, steps[..last]), steps[last], entity, role);
    }
  }

  lemma {:induction false} EmptyWithin(p: Policy, rt: RuntimeId, entity: EntityId, role: Role)
    ensures WithinLimits(p, rt, Registry(0, map[]), entity, role)
  {
    assert Standing(Registry(0, map[]), entity, rt, role) == {};
  }

  /** The same in terms of the policy's tables, of nodes that expire at the current epoch or later. */
  lemma {:induction false} RunWithinTables(p: Policy, rt: RuntimeId, steps: seq<Step>, entity: EntityId, role: Role)
    requires AllLookUp(p, rt, steps)
    ensures var r := Run(p, rt, steps);
            var n := |set id | && id in r.nodes && r.nodes[id].entity == entity && r.nodes[id].expiration >= r.now
                               && rt in r.nodes[id].runtimes && role in r.nodes[id].roles|;
            && (p.entityWhitelist.Some? ==>
                var allowed := p.entityWhitelist.value;
                && (entity !in allowed ==> n == 0)
                && (entity in allowed && allowed[entity] != map[] ==>
                    n <= if role in allowed[entity] then allowed[entity][role] else 0))
            && (role in p.perRole && p.perRole[role].Some? ==>
                var allowed := p.perRole[role].value;
                && (entity !in allowed ==> n == 0)
                && (entity in allowed && allowed[entity] > 0 ==> n <= allowed[entity]))
  {
    hide Run, AllLookUp;
    RunWithinLimits(p, rt, steps, entity, role);
    if p.entityWhitelist.Some? && entity in p.entityWhitelist.value {
      EmptyMap(p.entityWhitelist.value[entity]);
    }
    var r := Run(p, rt, steps);
    assert Standing(r, entity, rt, role)
        == set id | && id in r.nodes && r.nodes[id].entity == entity && r.nodes[id].expiration >= r.now
                    && rt in r.nodes[id].runtimes && role in r.nodes[id].roles;
  }
}
