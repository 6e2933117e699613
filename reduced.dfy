/** `reduced_to_table`: the groups of a grouped area sum become a series of areas keyed by
    transition id, in square kilometres (the sums are square metres), sorted by id. */
module Reductions {
  import opened Wrappers
  import opened Sorting
  import opened TransitionCodes

  /** One group of the reducer's response: its class value and its summed pixel area. */
  datatype Group = Group(transition: int, sum: real)

  /** The (id, area / 1e6) entry a group contributes. */
  function Scaled(g: Group): (int, real)
  {
    (g.transition, g.sum / 1000000.0)
  }

  function ScaledAll(groups: seq<Group>): (s: seq<(int, real)>)
    ensures |s| == |groups| && forall k :: 0 <= k < |groups| ==> s[k] == Scaled(groups[k])
  {
    seq(|groups|, k requires 0 <= k < |groups| => Scaled(groups[k]))
  }

  /** `reduced_to_table` on the reducer's response (`None` when it returned nothing):
      subscripting `None` is a TypeError and an empty group list has no `transition`
      column, an AttributeError; otherwise the entries are the scaled groups, sorted by id. */
  function ReducedToTable(reduced: Option<seq<Group>>): (r: Result<seq<(int, real)>>)
    ensures reduced.None? ==> r.Err? && r.error.TypeError?
    ensures reduced.Some? && |reduced.value| == 0 ==> r.Err? && r.error.AttributeError?
    ensures reduced.Some? && |reduced.value| > 0 ==>
              r.Ok? && SortedByKey(r.value) && multiset(r.value) == multiset(ScaledAll(reduced.value))
  {
    match reduced
    case None => Err(TypeError("'NoneType' object is not subscriptable"))
    case Some(groups) =>
      if |groups| == 0 then Err(AttributeError("transition"))
      else Ok(SortByKey(ScaledAll(groups)))
  }

  /** One entry per group: the table has as many entries as there are groups, every group
      appears as (id, sum / 1e6), and every entry comes from some group. */
  lemma ReducedEntries(groups: seq<Group>)
    requires |groups| > 0
    ensures var r := ReducedToTable(Some(groups));
            r.Ok? && |r.value| == |groups|
            && (forall k :: 0 <= k < |groups| ==> (groups[k].transition, groups[k].sum / 1000000.0) in r.value)
            && (forall e :: e in r.value ==> exists k :: 0 <= k < |groups| && e == Scaled(groups[k]))
  {
    var s := ScaledAll(groups);
    var t := ReducedToTable(Some(groups)).value;
    assert |multiset(t)| == |multiset(s)|;
    forall k | 0 <= k < |groups|
      ensures (groups[k].transition, groups[k].sum / 1000000.0) in t
    {
      assert s[k] in multiset(s);
    }
    forall e | e in t
      ensures exists k :: 0 <= k < |groups| && e == Scaled(groups[k])
    {
      assert e in multiset(t);
      assert e in multiset(s);
      var k :| 0 <= k < |s| && s[k] == e;
    }
  }

  /** With distinct ids (as a grouped reducer reports them), looking up an id in the table
      gives that group's area in square kilometres: ids and values stay paired. */
  lemma ReducedLookup(groups: seq<Group>, k: nat)
    requires k < |groups|
    requires forall p, q :: 0 <= p < q < |groups| ==> groups[p].transition != groups[q].transition
    ensures var r := ReducedToTable(Some(groups));
            r.Ok? && Lookup(r.value, groups[k].transition) == Some(groups[k].sum / 1000000.0)
  {
    var t := ReducedToTable(Some(groups)).value;
    LookupScaled(groups, t, k);
  }

  /** Any reordering of the scaled groups looks each id up to its scaled sum. */
  lemma LookupScaled(groups: seq<Group>, t: seq<(int, real)>, k: nat)
    requires k < |groups|
    requires forall p, q :: 0 <= p < q < |groups| ==> groups[p].transition != groups[q].transition
    requires multiset(t) == multiset(ScaledAll(groups))
    ensures Lookup(t, groups[k].transition) == Some(groups[k].sum / 1000000.0)
  {
    forall p, q | 0 <= p < q < |t| ensures t[p].0 != t[q].0
    {
      IdsStayDistinct(groups, t, p, q);
    }
    assert ScaledAll(groups)[k] == Scaled(groups[k]);
    assert Scaled(groups[k]) in multiset(ScaledAll(groups));
    LookupMember(t, groups[k].transition, groups[k].sum / 1000000.0);
  }

  /** A permutation of the scaled groups repeats no id when the groups do not. */
  lemma IdsStayDistinct(groups: seq<Group>, t: seq<(int, real)>, p: nat, q: nat)
    requires forall a, b :: 0 <= a < b < |groups| ==> groups[a].transition != groups[b].transition
    requires multiset(t) == multiset(ScaledAll(groups))
    requires p < q < |t|
    ensures t[p].0 != t[q].0
  {
    var s := ScaledAll(groups);
    assert t[p] in multiset(s) && t[q] in multiset(s);
    var a :| 0 <= a < |s| && s[a] == t[p];
    var b :| 0 <= b < |s| && s[b] == t[q];
    if t[p].0 == t[q].0 {
      assert a == b;
      MultisetTwice(t, p, q);
      ScaledOnce(groups, a);
    }
  }

  /** An element at two positions occurs at least twice. */
  lemma MultisetTwice<T>(s: seq<T>, p: nat, q: nat)
    requires p < q < |s| && s[p] == s[q]
    ensures multiset(s)[s[p]] >= 2
  {
    assert s == s[..p] + [s[p]] + s[p + 1..q] + [s[q]] + s[q + 1..];
  }

  /** With distinct ids, each scaled group occurs once. */
  lemma {:induction false} ScaledOnce(groups: seq<Group>, a: nat)
    requires a < |groups|
    requires forall p, q :: 0 <= p < q < |groups| ==> groups[p].transition != groups[q].transition
    ensures multiset(ScaledAll(groups))[Scaled(groups[a])] == 1
  {
    var n := |groups| - 1;
    var front := groups[..n];
    assert ScaledAll(groups) == ScaledAll(front) + [Scaled(groups[n])];
    if a < n {
      ScaledOnce(front, a);
      assert groups[a].transition != groups[n].transition;
    } else {
      forall q | 0 <= q < n ensures ScaledAll(front)[q] != Scaled(groups[a]) {
        assert groups[q].transition != groups[a].transition;
      }
      assert Scaled(groups[a]) !in multiset(ScaledAll(front));
    }
  }
}
