/** The trigger report of ui/report2.php: all templated triggers that descend from a set of template triggers. */
module TemplateClosure {

  type Id = nat

  /** Each templated trigger with the id of the trigger it was inherited from, which need not be templated itself. */
  type Inheritance = map<Id, Id>

  /** The API call: the templated triggers inherited directly from one of the given triggers. */
  function ChildrenOf(from: Inheritance, parents: set<Id>): (r: set<Id>) {
    set t | t in from && from[t] in parents
  }

  ghost predicate Closed(from: Inheritance, s: set<Id>) {
    forall t | t in from && from[t] in s :: t in s
  }

  /** A line of inheritance from a seed down to t. */
  ghost predicate Line(from: Inheritance, seeds: set<Id>, path: seq<Id>, t: Id) {
    && path != [] && path[0] in seeds && path[|path| - 1] == t
    && forall i | 0 < i < |path| :: path[i] in from && from[path[i]] == path[i - 1]
  }

  ghost predicate Descends(from: Inheritance, seeds: set<Id>, t: Id) {
    exists path :: Line(from, seeds, path, t)
  }

  lemma ChildDescends(from: Inheritance, seeds: set<Id>, t: Id)
    requires t in from && Descends(from, seeds, from[t])
    ensures Descends(from, seeds, t)
  {
    var path :| Line(from, seeds, path, from[t]);
    assert Line(from, seeds, path + [t], t);
  }

  lemma SeedDescends(from: Inheritance, seeds: set<Id>, t: Id)
    requires t in seeds
    ensures Descends(from, seeds, t)
  {
    assert Line(from, seeds, [t], t);
  }

  /** A closed set that contains the seeds contains every line of inheritance from them. */
  lemma {:induction false} LineStaysInside(from: Inheritance, seeds: set<Id>, s: set<Id>, path: seq<Id>, t: Id)
    requires seeds <= s && Closed(from, s) && Line(from, seeds, path, t)
    ensures t in s
  {
    if |path| > 1 {
      var init := path[..|path| - 1];
      assert Line(from, seeds, init, init[|init| - 1]);
      LineStaysInside(from, seeds, s, init, init[|init| - 1]);
      assert path[|path| - 1] in from;
    }
  }

  /** The set of descendants is the least closed set around the seeds. */
  lemma LeastClosedSetIsDescendants(from: Inheritance, seeds: set<Id>, r: set<Id>)
    requires seeds <= r && Closed(from, r) && forall t | t in r :: Descends(from, seeds, t)
    ensures forall t :: t in r <==> Descends(from, seeds, t)
    ensures forall s: set<Id> | seeds <= s && Closed(from, s) :: r <= s
  {
    forall s: set<Id>, t | seeds <= s && Closed(from, s) && Descends(from, seeds, t) ensures t in s {
      var path :| Line(from, seeds, path, t);
      LineStaysInside(from, seeds, s, path, t);
    }
  }

  /**
   The page's loop. It ends on every inheritance table, cyclic ones included, because each round that goes on
   has found triggers not seen before.
   */
  method Descendants(from: Inheritance, seeds: set<Id>) returns (all: set<Id>)
    ensures forall t :: t in all <==> Descends(from, seeds, t)
    ensures seeds <= all && Closed(from, all)
    ensures forall s: set<Id> | seeds <= s && Closed(from, s) :: all <= s
  {
    all := seeds;
    var found := seeds;
    forall t | t in seeds ensures Descends(from, seeds, t) {
      SeedDescends(from, seeds, t);
    }
    while found != {}
      invariant seeds <= all && found <= all <= seeds + from.Keys
      invariant forall t | t in all :: Descends(from, seeds, t)
      invariant forall t | t in from && from[t] in all - found :: t in all
      decreases seeds + from.Keys - all, found
    {
      ghost var before := all;
      found := ChildrenOf(from, found) - all;
      all := all + found;
      forall t | t in found ensures Descends(from, seeds, t) {
        ChildDescends(from, seeds, t);
      }
      if found != {} {
        var t :| t in found;
        assert t in seeds + from.Keys - before && t !in seeds + from.Keys - all;
      }
    }
    LeastClosedSetIsDescendants(from, seeds, all);
  }
}
