/**
 Role resolution: a depth-first walk of the inheritance graph, cycles included, that
 collects the privileges of every role it can reach, and the check made against them.
 */
module Authz {
  import opened Bytes

  datatype Role = Role(name: string, db: string)

  datatype Resource = Resource(db: string, collection: string, cluster: bool, any: bool)

  datatype Privilege = Privilege(resource: Resource, actions: seq<string>)

  datatype Custom = Custom(privileges: seq<Privilege>, inherits: seq<Role>)

  /** Built-in roles are a fixed function of the role; custom roles are what the catalog holds. */
  datatype Catalog = Catalog(builtin: Role -> Option<seq<Privilege>>, custom: map<Role, Custom>)

  const ANY_ACTION: string := "anyAction"

  predicate IsSystemCollection(collection: string) { "system." <= collection }

  predicate Covers(r: Resource, target: Resource) {
    if r.any then true
    else if target.cluster then r.cluster
    else if r.cluster then false
    else if r.db != "" && r.db != target.db then false
    else if r.collection != "" then r.collection == target.collection
    else !IsSystemCollection(target.collection)
  }

  /** What a role contributes by itself: a built-in role hides a custom one of the same name. */
  function Own(g: Catalog, r: Role): seq<Privilege> {
    if g.builtin(r).Some? then g.builtin(r).value
    else if r in g.custom then g.custom[r].privileges
    else []
  }

  /** Built-in and unknown roles inherit nothing. */
  function Inherits(g: Catalog, r: Role): seq<Role> {
    if g.builtin(r).None? && r in g.custom then g.custom[r].inherits else []
  }

  // ---------------------------------------------------------------- reachability

  ghost predicate Chain(g: Catalog, path: seq<Role>) {
    forall i :: 0 <= i < |path| - 1 ==> path[i + 1] in Inherits(g, path[i])
  }

  ghost predicate Reaches(g: Catalog, from: Role, to: Role) {
    exists path :: |path| > 0 && path[0] == from && path[|path| - 1] == to && Chain(g, path)
  }

  ghost predicate Reachable(g: Catalog, roles: seq<Role>, r: Role) {
    exists from :: from in roles && Reaches(g, from, r)
  }

  lemma ReachesSelf(g: Catalog, r: Role)
    ensures Reaches(g, r, r)
  {
    var path := [r];
    assert Chain(g, path);
  }

  lemma ReachesStep(g: Catalog, from: Role, via: Role, to: Role)
    requires via in Inherits(g, from) && Reaches(g, via, to)
    ensures Reaches(g, from, to)
  {
    var path :| |path| > 0 && path[0] == via && path[|path| - 1] == to && Chain(g, path);
    var longer := [from] + path;
    forall i | 0 <= i < |longer| - 1 ensures longer[i + 1] in Inherits(g, longer[i]) {
      if i > 0 { assert path[i] in Inherits(g, path[i - 1]); }
    }
    assert Chain(g, longer) && longer[0] == from && longer[|longer| - 1] == to;
  }

  /** A set closed under inheritance holds everything its members reach. */
  lemma {:induction false} ClosedHolds(g: Catalog, seen: set<Role>, path: seq<Role>)
    requires forall x, y :: x in seen && y in Inherits(g, x) ==> y in seen
    requires |path| > 0 && path[0] in seen && Chain(g, path)
    ensures path[|path| - 1] in seen
    decreases |path|
  {
    if |path| > 1 {
      var rest := path[1..];
      assert path[0 + 1] in Inherits(g, path[0]);
      forall i | 0 <= i < |rest| - 1 ensures rest[i + 1] in Inherits(g, rest[i]) {
        assert path[i + 1 + 1] in Inherits(g, path[i + 1]);
      }
      ClosedHolds(g, seen, rest);
    }
  }

  // --------------------------------------------------------------------- the walk

  /** The privileges of a list of roles, one role after another. */
  function Flatten(g: Catalog, order: seq<Role>): seq<Privilege> {
    if order == [] then [] else Flatten(g, order[..|order| - 1]) + Own(g, order[|order| - 1])
  }

  predicate Distinct(order: seq<Role>) {
    forall i, j :: 0 <= i < j < |order| ==> order[i] != order[j]
  }

  /** Every role added since before has its parents among the seen. */
  ghost predicate ClosedSince(g: Catalog, before: set<Role>, seen: set<Role>) {
    forall x, y :: x in seen && x !in before && y in Inherits(g, x) ==> y in seen
  }

  ghost predicate AllReachedFrom(g: Catalog, r: Role, before: set<Role>, seen: set<Role>) {
    forall x :: x in seen && x !in before ==> Reaches(g, r, x)
  }

  class Resolver {
    var seen: set<Role>
    var out: seq<Privilege>
    ghost var order: seq<Role>

    ghost predicate Valid(g: Catalog)
      reads this
    {
      Distinct(order) && (forall r :: r in order <==> r in seen) && out == Flatten(g, order)
    }

    constructor ()
      ensures seen == {} && out == [] && order == []
    {
      seen, out, order := {}, [], [];
    }

    /** Marks a role and takes its own privileges. */
    method Visit(g: Catalog, r: Role)
      requires Valid(g) && r !in seen
      modifies this
      ensures Valid(g) && seen == old(seen) + {r} && order == old(order) + [r]
    {
      seen := seen + {r};
      order := order + [r];
      assert order[..|order| - 1] == old(order);
      out := out + Own(g, r);
    }

    method Walk(g: Catalog, r: Role)
      requires Valid(g)
      modifies this
      ensures Valid(g) && r in seen && old(seen) <= seen && old(order) <= order
      ensures ClosedSince(g, old(seen), seen) && AllReachedFrom(g, r, old(seen), seen)
      decreases g.custom.Keys - seen
    {
      hide Flatten, Reaches, ClosedSince, AllReachedFrom, Distinct;
      if r in seen {
        WalkedAlready(g, r, seen);
        return;
      }
      ghost var before := seen;
      Visit(g, r);
      JustVisited(g, r, before);
      if g.builtin(r).Some? || r !in g.custom {
        FinishWalk(g, r, [], before, seen);
        return;
      }
      var inherits := g.custom[r].inherits;
      var i := 0;
      while i < |inherits|
        invariant 0 <= i <= |inherits| && Valid(g)
        invariant before + {r} <= seen && old(order) <= order
        invariant forall k :: 0 <= k < i ==> inherits[k] in seen
        invariant ClosedSince(g, before + {r}, seen)
        invariant AllReachedFrom(g, r, before, seen)
      {
        ghost var mid := seen;
        Walk(g, inherits[i]);
        ExtendWalk(g, r, inherits[i], before, mid, seen);
        i := i + 1;
      }
      FinishWalk(g, r, inherits, before, seen);
    }
  }

  lemma WalkedAlready(g: Catalog, r: Role, seen: set<Role>)
    ensures ClosedSince(g, seen, seen) && AllReachedFrom(g, r, seen, seen)
  {
  }

  lemma JustVisited(g: Catalog, r: Role, before: set<Role>)
    ensures ClosedSince(g, before + {r}, before + {r}) && AllReachedFrom(g, r, before, before + {r})
  {
    ReachesSelf(g, r);
  }

  lemma FinishWalk(g: Catalog, r: Role, parents: seq<Role>, before: set<Role>, seen: set<Role>)
    requires parents == Inherits(g, r) && (forall k :: 0 <= k < |parents| ==> parents[k] in seen)
    requires ClosedSince(g, before + {r}, seen)
    ensures ClosedSince(g, before, seen)
  {
  }

  lemma ExtendWalk(g: Catalog, r: Role, parent: Role, before: set<Role>, mid: set<Role>, seen: set<Role>)
    requires parent in Inherits(g, r) && before + {r} <= mid <= seen
    requires ClosedSince(g, before + {r}, mid) && ClosedSince(g, mid, seen)
    requires AllReachedFrom(g, r, before, mid) && AllReachedFrom(g, parent, mid, seen)
    ensures ClosedSince(g, before + {r}, seen) && AllReachedFrom(g, r, before, seen)
  {
    forall x | x in seen && x !in before ensures Reaches(g, r, x) {
      if x !in mid { ReachesStep(g, r, parent, x); }
    }
  }

  ghost predicate AllReachable(g: Catalog, roles: seq<Role>, seen: set<Role>) {
    forall x :: x in seen ==> Reachable(g, roles, x)
  }

  /** One more starting role walked. */
  lemma NextRole(g: Catalog, roles: seq<Role>, i: nat, before: set<Role>, seen: set<Role>)
    requires i < |roles| && before <= seen
    requires ClosedSince(g, {}, before) && ClosedSince(g, before, seen)
    requires AllReachable(g, roles[..i], before) && AllReachedFrom(g, roles[i], before, seen)
    ensures ClosedSince(g, {}, seen) && AllReachable(g, roles[..i + 1], seen)
  {
    hide Reaches;
    forall x | x in seen ensures Reachable(g, roles[..i + 1], x) {
      if x in before {
        var from :| from in roles[..i] && Reaches(g, from, x);
        assert from in roles[..i + 1];
      } else {
        assert roles[i] in roles[..i + 1];
      }
    }
  }

  /** A closed set of reachable roles that holds the starting roles holds exactly the reachable ones. */
  lemma ExactlyReachable(g: Catalog, roles: seq<Role>, seen: set<Role>)
    requires ClosedSince(g, {}, seen) && AllReachable(g, roles, seen)
    requires forall k :: 0 <= k < |roles| ==> roles[k] in seen
    ensures forall r :: r in seen <==> Reachable(g, roles, r)
  {
    forall r | Reachable(g, roles, r) ensures r in seen {
      var from :| from in roles && Reaches(g, from, r);
      var path :| |path| > 0 && path[0] == from && path[|path| - 1] == r && Chain(g, path);
      ClosedHolds(g, seen, path);
    }
  }

  /** out is the privileges of exactly the reachable roles, each taken once, in the order of their visit. */
  ghost predicate Collected(g: Catalog, roles: seq<Role>, order: seq<Role>, out: seq<Privilege>) {
    Distinct(order) && (forall r :: r in order <==> Reachable(g, roles, r)) && out == Flatten(g, order)
  }

  /** Resolve ends on every catalog and collects each reachable role's own privileges exactly once. */
  method Resolve(g: Catalog, roles: seq<Role>) returns (out: seq<Privilege>)
    ensures exists order :: Collected(g, roles, order, out)
  {
    hide Flatten, Reachable, ClosedSince, AllReachedFrom, Distinct, AllReachable;
    var walker := new Resolver();
    StartEmpty(g, roles);
    var i := 0;
    while i < |roles|
      invariant 0 <= i <= |roles| && fresh(walker) && walker.Valid(g)
      invariant forall k :: 0 <= k < i ==> roles[k] in walker.seen
      invariant ClosedSince(g, {}, walker.seen) && AllReachable(g, roles[..i], walker.seen)
    {
      ghost var before := walker.seen;
      walker.Walk(g, roles[i]);
      NextRole(g, roles, i, before, walker.seen);
      i := i + 1;
    }
    out := walker.out;
    assert roles[..i] == roles;
    ExactlyReachable(g, roles, walker.seen);
    assert Collected(g, roles, walker.order, out);
  }

  lemma StartEmpty(g: Catalog, roles: seq<Role>)
    ensures ClosedSince(g, {}, {}) && AllReachable(g, roles[..0], {}) && Distinct([]) && Flatten(g, []) == []
  {
  }

  // -------------------------------------------------------------------- the check

  predicate Permits(p: Privilege, action: string, target: Resource) {
    Covers(p.resource, target) && (action in p.actions || ANY_ACTION in p.actions)
  }

  /** The grant is on any resource, or on the cluster where that is the target, or agrees with the target's names. */
  predicate InReach(grant: Resource, target: Resource) {
    grant.any
    || (target.cluster && grant.cluster)
    || (!target.cluster && !grant.cluster && grant.db in {"", target.db}
        && (grant.collection == target.collection || (grant.collection == "" && !("system." <= target.collection))))
  }

  /** The order of the tests in the check does not matter: it decides exactly this. */
  lemma CoversIsReach(grant: Resource, target: Resource)
    ensures Covers(grant, target) <==> InReach(grant, target)
  {
    assert |"system."| == 7;
  }

  lemma PermitsIs(p: Privilege, action: string, target: Resource)
    ensures Permits(p, action, target)
       <==> InReach(p.resource, target) && (action in p.actions || "anyAction" in p.actions)
  {
    CoversIsReach(p.resource, target);
  }

  method Authorized(ps: seq<Privilege>, action: string, target: Resource) returns (ok: bool)
    ensures ok <==> exists p :: p in ps && Permits(p, action, target)
    ensures ok <==> exists p :: p in ps && InReach(p.resource, target)
                                && (action in p.actions || "anyAction" in p.actions)
  {
    forall p | p in ps { PermitsIs(p, action, target); }
    for i := 0 to |ps|
      invariant forall k :: 0 <= k < i ==> !Permits(ps[k], action, target)
    {
      if Covers(ps[i].resource, target) {
        var actions := ps[i].actions;
        for j := 0 to |actions|
          invariant forall k :: 0 <= k < j ==> actions[k] != action && actions[k] != ANY_ACTION
        {
          if actions[j] == action || actions[j] == ANY_ACTION {
            assert ps[i] in ps && Permits(ps[i], action, target);
            return true;
          }
        }
      }
    }
    return false;
  }

  lemma {:induction false} FlattenMembers(g: Catalog, order: seq<Role>, p: Privilege)
    ensures p in Flatten(g, order) <==> exists r :: r in order && p in Own(g, r)
  {
    if order != [] {
      var init, last := order[..|order| - 1], order[|order| - 1];
      FlattenMembers(g, init, p);
      assert order == init + [last];
      if p in Own(g, last) { assert last in order; }
      if p in Flatten(g, init) {
        var r :| r in init && p in Own(g, r);
        assert r in order;
      }
      if r :| r in order && p in Own(g, r) {
        assert r in init || r == last;
      }
    }
  }

  /** Some role the user can reach holds the privilege. */
  ghost predicate Holds(g: Catalog, roles: seq<Role>, p: Privilege) {
    exists r :: Reachable(g, roles, r) && p in Own(g, r)
  }

  ghost predicate Allowed(g: Catalog, roles: seq<Role>, action: string, target: Resource) {
    exists p :: Holds(g, roles, p) && InReach(p.resource, target) && (action in p.actions || "anyAction" in p.actions)
  }

  lemma AllowedIs(g: Catalog, roles: seq<Role>, action: string, target: Resource)
    ensures Allowed(g, roles, action, target)
       <==> exists r, p :: Reachable(g, roles, r) && p in Own(g, r) && Permits(p, action, target)
  {
    hide Reachable, Own, InReach, Permits;
    forall p ensures Permits(p, action, target)
                <==> InReach(p.resource, target) && (action in p.actions || "anyAction" in p.actions)
    {
      PermitsIs(p, action, target);
    }
    if r, p :| Reachable(g, roles, r) && p in Own(g, r) && Permits(p, action, target) {
      assert Holds(g, roles, p);
    }
    if Allowed(g, roles, action, target) {
      var p :| Holds(g, roles, p) && InReach(p.resource, target) && (action in p.actions || "anyAction" in p.actions);
      var r :| Reachable(g, roles, r) && p in Own(g, r);
      assert Permits(p, action, target);
    }
  }

  /** A user may act exactly when some role they can reach grants it. */
  method MayAct(g: Catalog, roles: seq<Role>, action: string, target: Resource) returns (ok: bool)
    ensures ok <==> exists r, p :: Reachable(g, roles, r) && p in Own(g, r) && Permits(p, action, target)
    ensures ok <==> Allowed(g, roles, action, target)
  {
    hide Reachable, Own, Permits, Holds, Allowed;
    var ps := Resolve(g, roles);
    ghost var order :| Collected(g, roles, order, ps);
    ok := Authorized(ps, action, target);
    if ok {
      ghost var p :| p in ps && Permits(p, action, target);
      FlattenMembers(g, order, p);
      ghost var r :| r in order && p in Own(g, r);
      assert Reachable(g, roles, r);
    }
    if r, p :| Reachable(g, roles, r) && p in Own(g, r) && Permits(p, action, target) {
      assert r in order;
      FlattenMembers(g, order, p);
    }
    AllowedIs(g, roles, action, target);
  }

  /** A system collection is open only to a grant that names it, or to one on any resource. */
  lemma SystemCollectionsNeedNaming(r: Resource, db: string, collection: string)
    requires IsSystemCollection(collection)
    ensures Covers(r, Resource(db, collection, false, false))
       <==> r.any || (!r.cluster && (r.db == "" || r.db == db) && r.collection == collection)
  {
    assert collection != "" by { assert |"system."| == 7; }
  }
}
