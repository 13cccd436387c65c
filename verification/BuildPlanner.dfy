/**
 PackageBuilder.BuildOrder of toolchain_main.py: a depth-first search that lists packages after
 their dependencies, and fails on an unknown package or a dependency cycle.
 */
module BuildPlanner {

  type Package = string

  /** self._packages, reduced to the 'dependencies' entry of each package. */
  type Packages = map<Package, seq<Package>>

  datatype Plan =
    | Order(packages: seq<Package>)
    | UnknownPackage(name: Package)
    | DependencyCycle(path: seq<Package>)

  predicate DependsOn(packages: Packages, a: Package, b: Package) {
    a in packages && b in packages[a]
  }

  /** Every element depends on the next. */
  predicate IsChain(packages: Packages, p: seq<Package>) {
    forall i :: 0 <= i < |p| - 1 ==> DependsOn(packages, p[i], p[i + 1])
  }

  ghost predicate ChainTo(packages: Packages, start: Package, p: seq<Package>, x: Package) {
    p != [] && p[0] == start && p[|p| - 1] == x && IsChain(packages, p)
  }

  /** `x` is `start` or one of its transitive dependencies. */
  ghost predicate Reaches(packages: Packages, start: Package, x: Package) {
    exists p :: ChainTo(packages, start, p, x)
  }

  ghost predicate Needed(packages: Packages, targets: seq<Package>, x: Package) {
    exists t :: t in targets && Reaches(packages, t, x)
  }

  predicate NoDuplicates(s: seq<Package>) { forall i, j :: 0 <= i < j < |s| ==> s[i] != s[j] }

  /** The last element of a chain occurs in it before. */
  predicate IsCycle(p: seq<Package>) { p != [] && p[|p| - 1] in p[..|p| - 1] }

  /** Every listed package is known, listed once, and listed after all its dependencies. */
  predicate Topological(packages: Packages, order: seq<Package>) {
    && NoDuplicates(order)
    && forall i :: 0 <= i < |order| ==>
         order[i] in packages && forall d :: d in packages[order[i]] ==> d in order[..i]
  }

  /** Everything needed is known, and no chain of dependencies from a target closes into a cycle. */
  ghost predicate Buildable(packages: Packages, targets: seq<Package>) {
    && (forall x :: Needed(packages, targets, x) ==> x in packages)
    && forall p :: p != [] && p[0] in targets && IsChain(packages, p) ==> !IsCycle(p)
  }

  // ---------- Chains ----------

  lemma ReachesSelf(packages: Packages, x: Package)
    ensures Reaches(packages, x, x)
  {
    assert ChainTo(packages, x, [x], x);
  }

  lemma ReachesThrough(packages: Packages, a: Package, b: Package, x: Package)
    requires DependsOn(packages, a, b) && Reaches(packages, b, x)
    ensures Reaches(packages, a, x)
  {
    var p :| ChainTo(packages, b, p, x);
    var q := [a] + p;
    assert forall i :: 1 <= i < |q| - 1 ==> q[i] == p[i - 1] && q[i + 1] == p[i];
    assert ChainTo(packages, a, q, x);
  }

  /** Distinct known packages are no more than there are known packages. */
  lemma {:induction false} DistinctFit(packages: Packages, p: seq<Package>)
    requires NoDuplicates(p) && forall i :: 0 <= i < |p| ==> p[i] in packages
    ensures |p| <= |packages.Keys|
  {
    var s := set i | 0 <= i < |p| :: p[i];
    CountDistinct(p, s);
    SubsetSize(s, packages.Keys);
  }

  lemma {:induction false} CountDistinct(p: seq<Package>, s: set<Package>)
    requires NoDuplicates(p) && forall x :: x in s <==> x in p
    ensures |s| == |p|
  {
    if p == [] {
      assert s == {};
    } else {
      var rest := p[1..];
      assert forall x :: x in rest ==> x in p && x != p[0];
      assert forall x :: x in s - {p[0]} <==> x in rest by {
        forall x | x in p && x != p[0] ensures x in rest {
          var i :| 0 <= i < |p| && p[i] == x;
          assert rest[i - 1] == x;
        }
      }
      CountDistinct(rest, s - {p[0]});
    }
  }

  lemma {:induction false} SubsetSize(s: set<Package>, t: set<Package>)
    requires s <= t
    ensures |s| <= |t|
  {
    if s != {} {
      var x :| x in s;
      SubsetSize(s - {x}, t - {x});
    }
  }

  lemma TopologicalAppend(packages: Packages, order: seq<Package>, target: Package)
    requires Topological(packages, order) && target !in order && target in packages
    requires forall d :: d in packages[target] ==> d in order
    ensures Topological(packages, order + [target])
  {
    var next := order + [target];
    forall i | 0 <= i < |next| ensures next[i] in packages && forall d :: d in packages[next[i]] ==> d in next[..i] {
      assert next[..i] == order[..i];
    }
  }

  // ---------- The search ----------

  class OrderBuilder {
    const packages: Packages
    var order: seq<Package>
    var orderSet: set<Package>

    ghost predicate Valid()
      reads this
    {
      Topological(packages, order) && (forall x :: x in orderSet <==> x in order)
    }

    constructor (packages: Packages)
      ensures this.packages == packages && Valid() && order == []
    {
      this.packages := packages;
      order, orderSet := [], {};
    }

    /** Nested function Add.  Exceptions are the two failing plans.  The path of the search so far
        holds distinct known packages, so the recursion is at most one call deeper than there are packages. */
    method Add(target: Package, path: seq<Package>) returns (plan: Plan)
      requires Valid() && IsChain(packages, path + [target])
      requires NoDuplicates(path) && forall x :: x in path ==> x in packages && x !in order
      requires |path| <= |packages.Keys|
      modifies this
      ensures Valid() && old(order) <= order
      ensures forall x :: x in order && x !in old(order) ==> Reaches(packages, target, x) && x !in path
      ensures plan.Order? ==> plan.packages == order && target in order
      ensures plan.UnknownPackage? ==> plan.name !in packages && Reaches(packages, target, plan.name)
      ensures plan.DependencyCycle? ==>
                path + [target] <= plan.path && IsChain(packages, plan.path) && IsCycle(plan.path)
      decreases |packages.Keys| - |path|
    {
      ReachesSelf(packages, target);
      if target in orderSet {
        return Order(order);
      }
      if target !in packages {
        return UnknownPackage(target);
      }
      var nextPath := path + [target];
      assert nextPath[..|path|] == path;
      if target in path {
        return DependencyCycle(nextPath);
      }
      DistinctFit(packages, nextPath);
      var dependencies := packages[target];
      for i := 0 to |dependencies|
        invariant Valid() && old(order) <= order
        invariant forall x :: x in order && x !in old(order) ==> Reaches(packages, target, x) && x !in nextPath
        invariant forall d :: d in dependencies[..i] ==> d in order
      {
        var d := dependencies[i];
        assert DependsOn(packages, target, d);
        ExtendChain(packages, path, target, d);
        ghost var before := order;
        plan := Add(d, nextPath);
        assert forall x :: x in before ==> x in order;
        assert dependencies[..i + 1] == dependencies[..i] + [d];
        forall x | Reaches(packages, d, x) ensures Reaches(packages, target, x) {
          ReachesThrough(packages, target, d, x);
        }
        if !plan.Order? {
          return;
        }
      }
      assert dependencies[..|dependencies|] == dependencies;
      TopologicalAppend(packages, order, target);
      order := order + [target];
      orderSet := orderSet + {target};
      plan := Order(order);
    }

    method BuildOrder(targets: seq<Package>, ignoreDependencies: bool) returns (plan: Plan)
      requires Valid() && order == []
      modifies this
      ensures ignoreDependencies ==> plan == Order(targets)
      ensures !ignoreDependencies ==> (plan.Order? <==> Buildable(packages, targets))
      ensures !ignoreDependencies && plan.Order? ==>
                && Topological(packages, plan.packages)
                && forall x :: x in plan.packages <==> Needed(packages, targets, x)
      ensures plan.UnknownPackage? ==> plan.name !in packages && Needed(packages, targets, plan.name)
      ensures plan.DependencyCycle? ==>
                && IsChain(packages, plan.path) && IsCycle(plan.path) && plan.path[0] in targets
    {
      if ignoreDependencies {
        return Order(targets);
      }
      for i := 0 to |targets|
        invariant Valid()
        invariant forall x :: x in order ==> Needed(packages, targets, x)
        invariant forall t :: t in targets[..i] ==> t in order
      {
        ghost var before := order;
        plan := Add(targets[i], []);
        assert forall t :: t in before ==> t in order;
        assert targets[..i + 1] == targets[..i] + [targets[i]];
        forall x | Reaches(packages, targets[i], x) ensures Needed(packages, targets, x) {
          assert targets[i] in targets;
        }
        if !plan.Order? {
          return;
        }
      }
      plan := Order(order);
      forall x | Needed(packages, targets, x) ensures x in order {
        var t :| t in targets && Reaches(packages, t, x);
        var p :| ChainTo(packages, t, p, x);
        ChainInOrder(packages, order, p, |p| - 1);
      }
      OrderMeansSound(packages, targets, order);
    }
  }

  lemma ExtendChain(packages: Packages, path: seq<Package>, target: Package, d: Package)
    requires IsChain(packages, path + [target]) && DependsOn(packages, target, d)
    ensures IsChain(packages, path + [target] + [d])
  {
    var p, q := path + [target], path + [target] + [d];
    forall i | 0 <= i < |q| - 1 ensures DependsOn(packages, q[i], q[i + 1]) {
      if i < |p| - 1 {
        assert DependsOn(packages, p[i], p[i + 1]);
      }
    }
  }

  /** A chain from a listed package stays in a topological list, and every step goes back in it. */
  lemma {:induction false} ChainInOrder(packages: Packages, order: seq<Package>, p: seq<Package>, k: nat)
    requires Topological(packages, order) && IsChain(packages, p) && k < |p| && p[0] in order
    ensures forall i :: 0 <= i <= k ==> p[i] in order
    ensures forall i, j :: 0 <= i < j <= k ==> Before(order, p[j], p[i])
  {
    if k > 0 {
      ChainInOrder(packages, order, p, k - 1);
      assert DependsOn(packages, p[k - 1], p[k]);
      var a :| 0 <= a < |order| && order[a] == p[k - 1];
      assert p[k] in order[..a];
      assert Before(order, p[k], p[k - 1]);
      forall i | 0 <= i < k ensures Before(order, p[k], p[i]) {
        if i < k - 1 {
          BeforeTransitive(order, p[k], p[k - 1], p[i]);
        }
      }
    }
  }

  /** `x` is listed earlier than `y`. */
  ghost predicate Before(order: seq<Package>, x: Package, y: Package) {
    exists i, j :: 0 <= i < j < |order| && order[i] == x && order[j] == y
  }

  lemma BeforeTransitive(order: seq<Package>, x: Package, y: Package, z: Package)
    requires NoDuplicates(order) && Before(order, x, y) && Before(order, y, z)
    ensures Before(order, x, z)
  {
  }

  /** An order of exactly what is needed, after its dependencies, leaves no room for an unknown package or
      a cycle. */
  lemma OrderMeansSound(packages: Packages, targets: seq<Package>, order: seq<Package>)
    requires Topological(packages, order) && forall x :: x in order <==> Needed(packages, targets, x)
    ensures Buildable(packages, targets)
  {
    forall p | p != [] && p[0] in targets && IsChain(packages, p) ensures !IsCycle(p) {
      ReachesSelf(packages, p[0]);
      ChainInOrder(packages, order, p, |p| - 1);
    }
  }
}
