/**
 Who may do what, said of the grants themselves: which resources a grant reaches, and
 what a user may do with the roles they can reach, over every catalog.
 */
module Grants {
  import opened Bytes
  import opened Authz

  lemma ClusterCovered(grant: Resource, target: Resource)
    requires target.cluster
    ensures Covers(grant, target) <==> grant.any || grant.cluster
  {
    CoversIsReach(grant, target);
  }

  lemma OrdinaryCovered(grant: Resource, db: string, collection: string)
    requires !("system." <= collection)
    ensures Covers(grant, Resource(db, collection, false, false))
       <==> grant.any || (!grant.cluster && grant.db in {"", db} && grant.collection in {"", collection})
  {
    CoversIsReach(grant, Resource(db, collection, false, false));
  }

  // ------------------------------------------------------------ what a user may do

  /** Without a grant on any resource or on the cluster nothing may be done to the cluster. */
  lemma ClusterNeedsGrant(g: Catalog, roles: seq<Role>, action: string, target: Resource)
    requires target.cluster
    requires forall p :: Holds(g, roles, p) ==> !p.resource.any && !p.resource.cluster
    ensures !Allowed(g, roles, action, target)
  {
    hide Holds;
  }

  /** Grants that name other databases allow nothing on this one. */
  lemma DatabasesAreApart(g: Catalog, roles: seq<Role>, action: string, target: Resource)
    requires !target.cluster
    requires forall p :: Holds(g, roles, p) ==> !p.resource.any && p.resource.db !in {"", target.db}
    ensures !Allowed(g, roles, action, target)
  {
    hide Holds;
  }

  // --------------------------------------------------------------- what roles bring

  lemma OwnRole(g: Catalog, roles: seq<Role>, r: Role)
    requires r in roles
    ensures Reachable(g, roles, r)
  {
    ReachesSelf(g, r);
  }

  /** A built-in role brings its privileges. */
  lemma BuiltinRoleGrants(g: Catalog, roles: seq<Role>, r: Role, p: Privilege)
    requires r in roles && g.builtin(r).Some? && p in g.builtin(r).value
    ensures Holds(g, roles, p)
  {
    hide Reachable;
    OwnRole(g, roles, r);
  }

  /** A custom role brings its own privileges and all that the roles it inherits bring. */
  lemma CustomRoleGrants(g: Catalog, roles: seq<Role>, r: Role, p: Privilege)
    requires r in roles && g.builtin(r).None? && r in g.custom
    requires p in g.custom[r].privileges || Holds(g, g.custom[r].inherits, p)
    ensures Holds(g, roles, p)
  {
    hide Reaches;
    OwnRole(g, roles, r);
    if p !in g.custom[r].privileges {
      var from :| Reachable(g, g.custom[r].inherits, from) && p in Own(g, from);
      var via :| via in g.custom[r].inherits && Reaches(g, via, from);
      ReachesStep(g, r, via, from);
      assert Reachable(g, roles, from);
    }
  }

  /** Nothing else does: a privilege held comes from a role of the user's own or one that it inherits. */
  lemma HeldThroughRoles(g: Catalog, roles: seq<Role>, p: Privilege) returns (r: Role)
    requires Holds(g, roles, p)
    ensures r in roles
    ensures g.builtin(r).Some? ==> p in g.builtin(r).value
    ensures g.builtin(r).None? ==>
              r in g.custom && (p in g.custom[r].privileges || Holds(g, g.custom[r].inherits, p))
  {
    var to :| Reachable(g, roles, to) && p in Own(g, to);
    r :| r in roles && Reaches(g, r, to);
    var path :| |path| > 0 && path[0] == r && path[|path| - 1] == to && Chain(g, path);
    if |path| > 1 {
      assert path[0 + 1] in Inherits(g, path[0]);
      ChainTail(g, path);
      assert Reaches(g, path[1], to);
      assert Reachable(g, g.custom[r].inherits, to);
    }
  }

  lemma ChainTail(g: Catalog, path: seq<Role>)
    requires |path| > 1 && Chain(g, path)
    ensures Chain(g, path[1..]) && path[1..][|path| - 2] == path[|path| - 1]
  {
    forall i | 0 <= i < |path[1..]| - 1 ensures path[1..][i + 1] in Inherits(g, path[1..][i]) {
      assert path[i + 1 + 1] in Inherits(g, path[i + 1]);
    }
  }

  /** A custom role under a built-in role's name changes nothing. */
  lemma BuiltinHidesCustom(g: Catalog, r: Role, c: Custom, roles: seq<Role>, p: Privilege)
    requires g.builtin(r).Some?
    ensures Holds(g, roles, p) <==> Holds(g.(custom := g.custom[r := c]), roles, p)
  {
    var g' := g.(custom := g.custom[r := c]);
    assert forall x :: Own(g, x) == Own(g', x) && Inherits(g, x) == Inherits(g', x);
    SameReach(g, g', roles);
  }

  lemma SameReach(g: Catalog, g': Catalog, roles: seq<Role>)
    requires forall x :: Inherits(g, x) == Inherits(g', x)
    ensures forall x :: Reachable(g, roles, x) <==> Reachable(g', roles, x)
  {
    hide Inherits;
    assert forall path :: Chain(g, path) <==> Chain(g', path);
    assert forall x, y :: Reaches(g, x, y) <==> Reaches(g', x, y);
  }
}
