/**
 * Grouping keyed values with a JavaScript `Map`: walking the input once,
 * pushing each value onto the entry for its key and creating the entry on
 * first sight, then reading `map.values()` in insertion order.
 */
module Grouping {
  import opened Wrappers

  datatype Group<K, V> = Group(key: K, members: seq<V>)

  /** The values of `pairs` filed under `k`, in input order. */
  function Members<K(==,!new), V>(pairs: seq<(K, V)>, k: K): seq<V> {
    if |pairs| == 0 then []
    else Members(pairs[..|pairs| - 1], k)
         + (if pairs[|pairs| - 1].0 == k then [pairs[|pairs| - 1].1] else [])
  }

  /** The index of the first pair filed under `k`, or `|pairs|` when there is none. */
  function FirstAt<K(==,!new), V>(pairs: seq<(K, V)>, k: K): (r: nat)
    ensures r <= |pairs|
    ensures r < |pairs| ==> pairs[r].0 == k
    ensures forall j :: 0 <= j < r ==> pairs[j].0 != k
  {
    FirstFrom(pairs, k, 0)
  }

  function FirstFrom<K(==,!new), V>(pairs: seq<(K, V)>, k: K, i: nat): (r: nat)
    requires i <= |pairs|
    requires forall j :: 0 <= j < i ==> pairs[j].0 != k
    ensures i <= r <= |pairs|
    ensures r < |pairs| ==> pairs[r].0 == k
    ensures forall j :: 0 <= j < r ==> pairs[j].0 != k
    decreases |pairs| - i
  {
    if i == |pairs| || pairs[i].0 == k then i else FirstFrom(pairs, k, i + 1)
  }

  /** The index of the group for `k`, if there is one. */
  function FindKey<K(==,!new), V>(gs: seq<Group<K, V>>, k: K): (r: Option<nat>)
    ensures r.Some? ==> r.value < |gs| && gs[r.value].key == k
    ensures r.None? ==> forall i :: 0 <= i < |gs| ==> gs[i].key != k
  {
    if |gs| == 0 then None
    else if gs[|gs| - 1].key == k then
      match FindKey(gs[..|gs| - 1], k)
      case Some(i) => Some(i)
      case None => Some(|gs| - 1)
    else FindKey(gs[..|gs| - 1], k)
  }

  ghost predicate DistinctKeys<K, V>(gs: seq<Group<K, V>>) {
    forall i, j :: 0 <= i < j < |gs| ==> gs[i].key != gs[j].key
  }

  /** The number of values held by all groups together. */
  function Size<K, V>(gs: seq<Group<K, V>>): nat {
    if |gs| == 0 then 0 else Size(gs[..|gs| - 1]) + |gs[|gs| - 1].members|
  }

  /** One step of the walk: push onto the existing entry, or create a new last entry. */
  function Add<K(==,!new), V>(gs: seq<Group<K, V>>, k: K, v: V): seq<Group<K, V>> {
    match FindKey(gs, k)
    case Some(i) => gs[i := gs[i].(members := gs[i].members + [v])]
    case None => gs + [Group(k, [v])]
  }

  ghost predicate KeysCover<K(!new), V>(pairs: seq<(K, V)>, gs: seq<Group<K, V>>) {
    forall k :: FindKey(gs, k).Some? <==> FirstAt(pairs, k) < |pairs|
  }

  ghost predicate MembersExact<K(!new), V>(pairs: seq<(K, V)>, gs: seq<Group<K, V>>) {
    forall i :: 0 <= i < |gs| ==> gs[i].members == Members(pairs, gs[i].key)
  }

  ghost predicate NoEmptyGroup<K, V>(gs: seq<Group<K, V>>) {
    forall i :: 0 <= i < |gs| ==> |gs[i].members| > 0
  }

  ghost predicate FirstOccurrenceOrder<K(!new), V>(pairs: seq<(K, V)>, gs: seq<Group<K, V>>) {
    forall i, j :: 0 <= i < j < |gs| ==> FirstAt(pairs, gs[i].key) < FirstAt(pairs, gs[j].key)
  }

  /**
   * The grouping of `pairs` by their first component. Keys are distinct, a
   * key has a group exactly when some pair carries it, each group holds all
   * and only its key's values in input order (so it is never empty and the
   * groups together hold every value once), and groups are ordered by the
   * first occurrence of their key.
   */
  function GroupBy<K(==,!new), V>(pairs: seq<(K, V)>): (gs: seq<Group<K, V>>)
    ensures DistinctKeys(gs)
    ensures KeysCover(pairs, gs)
    ensures MembersExact(pairs, gs)
    ensures NoEmptyGroup(gs)
    ensures Size(gs) == |pairs|
    ensures FirstOccurrenceOrder(pairs, gs)
  {
    if |pairs| == 0 then []
    else
      var prefix := pairs[..|pairs| - 1];
      var last := pairs[|pairs| - 1];
      var before := GroupBy(prefix);
      assert pairs == prefix + [(last.0, last.1)];
      AddDistinct(before, last.0, last.1);
      AddCovers(prefix, before, last.0, last.1);
      AddMembers(prefix, before, last.0, last.1);
      AddSize(before, last.0, last.1);
      AddOrder(prefix, before, last.0, last.1);
      Add(before, last.0, last.1)
  }

  /** Groups are ordered as their keys' first occurrences are. */
  lemma OrderOfFirsts<K(!new), V>(pairs: seq<(K, V)>, gs: seq<Group<K, V>>, i: nat, j: nat)
    requires FirstOccurrenceOrder(pairs, gs) && i < |gs| && j < |gs|
    requires FirstAt(pairs, gs[i].key) < FirstAt(pairs, gs[j].key)
    ensures i < j
  {
  }

  lemma FirstAtSnoc<K(!new), V>(prefix: seq<(K, V)>, p: (K, V), k: K)
    ensures FirstAt(prefix + [p], k)
            == if FirstAt(prefix, k) < |prefix| then FirstAt(prefix, k)
               else if p.0 == k then |prefix| else |prefix| + 1
  {
    var s := prefix + [p];
    var a := FirstAt(prefix, k);
    var b := FirstAt(s, k);
    if a < |prefix| {
      assert s[a].0 == k;
      assert b <= a;
      assert prefix[b] == s[b];
    } else {
      assert forall j :: 0 <= j < |prefix| ==> s[j] == prefix[j];
      assert s[|prefix|] == p;
    }
  }

  lemma MembersSnoc<K(!new), V>(prefix: seq<(K, V)>, k: K, v: V, k': K)
    ensures Members(prefix + [(k, v)], k') == Members(prefix, k') + (if k == k' then [v] else [])
  {
    var pairs := prefix + [(k, v)];
    assert pairs[..|pairs| - 1] == prefix;
  }

  lemma {:induction false} SizeUpdate<K, V>(gs: seq<Group<K, V>>, i: nat, g: Group<K, V>)
    requires i < |gs|
    ensures Size(gs[i := g]) == Size(gs) - |gs[i].members| + |g.members|
    decreases |gs|
  {
    var t := gs[i := g];
    if i < |gs| - 1 {
      assert t[..|t| - 1] == gs[..|gs| - 1][i := g];
      SizeUpdate(gs[..|gs| - 1], i, g);
    } else {
      assert t[..|t| - 1] == gs[..|gs| - 1];
    }
  }

  /** `Add` keeps the keys it finds and adds `k` only when it was missing. */
  lemma AddKeys<K(!new), V>(gs: seq<Group<K, V>>, k: K, v: V)
    ensures |Add(gs, k, v)| == if FindKey(gs, k).Some? then |gs| else |gs| + 1
    ensures forall i :: 0 <= i < |gs| ==> Add(gs, k, v)[i].key == gs[i].key
    ensures FindKey(gs, k).None? ==> Add(gs, k, v)[|gs|].key == k
  {
  }

  lemma AddDistinct<K(!new), V>(gs: seq<Group<K, V>>, k: K, v: V)
    requires DistinctKeys(gs)
    ensures DistinctKeys(Add(gs, k, v))
  {
    AddKeys(gs, k, v);
  }

  lemma AddCovers<K(!new), V>(prefix: seq<(K, V)>, gs: seq<Group<K, V>>, k: K, v: V)
    requires KeysCover(prefix, gs)
    ensures KeysCover(prefix + [(k, v)], Add(gs, k, v))
  {
    var pairs := prefix + [(k, v)];
    var t := Add(gs, k, v);
    AddKeys(gs, k, v);
    forall k' ensures FindKey(t, k').Some? <==> FirstAt(pairs, k') < |pairs| {
      FirstAtSnoc(prefix, (k, v), k');
      if FindKey(gs, k').Some? {
        assert t[FindKey(gs, k').value].key == k';
      }
      if FindKey(t, k').Some? {
        var i := FindKey(t, k').value;
        if i < |gs| {
          assert gs[i].key == k';
        }
      }
      if k' == k && FindKey(gs, k).None? {
        assert t[|gs|].key == k';
      }
    }
  }

  lemma AddMembers<K(!new), V>(prefix: seq<(K, V)>, gs: seq<Group<K, V>>, k: K, v: V)
    requires DistinctKeys(gs) && MembersExact(prefix, gs) && KeysCover(prefix, gs)
    ensures MembersExact(prefix + [(k, v)], Add(gs, k, v))
  {
    var pairs := prefix + [(k, v)];
    var t := Add(gs, k, v);
    AddKeys(gs, k, v);
    forall i | 0 <= i < |t| ensures t[i].members == Members(pairs, t[i].key) {
      MembersSnoc(prefix, k, v, t[i].key);
      if i == |gs| {
        assert FirstAt(prefix, k) == |prefix|;
        MembersAbsent(prefix, k);
      }
    }
  }

  lemma {:induction false} MembersAbsent<K(!new), V>(pairs: seq<(K, V)>, k: K)
    requires FirstAt(pairs, k) == |pairs|
    ensures Members(pairs, k) == []
    decreases |pairs|
  {
    if |pairs| > 0 {
      var prefix := pairs[..|pairs| - 1];
      assert pairs == prefix + [pairs[|pairs| - 1]];
      FirstAtSnoc(prefix, pairs[|pairs| - 1], k);
      MembersAbsent(prefix, k);
    }
  }

  lemma AddSize<K(!new), V>(gs: seq<Group<K, V>>, k: K, v: V)
    ensures Size(Add(gs, k, v)) == Size(gs) + 1
    ensures NoEmptyGroup(gs) ==> NoEmptyGroup(Add(gs, k, v))
  {
    match FindKey(gs, k)
    case Some(i) =>
      SizeUpdate(gs, i, gs[i].(members := gs[i].members + [v]));
    case None =>
      var t := gs + [Group(k, [v])];
      assert t[..|t| - 1] == gs;
  }

  lemma AddOrder<K(!new), V>(prefix: seq<(K, V)>, gs: seq<Group<K, V>>, k: K, v: V)
    requires KeysCover(prefix, gs) && FirstOccurrenceOrder(prefix, gs)
    ensures FirstOccurrenceOrder(prefix + [(k, v)], Add(gs, k, v))
  {
    var pairs := prefix + [(k, v)];
    var t := Add(gs, k, v);
    AddKeys(gs, k, v);
    forall i | 0 <= i < |gs| ensures FirstAt(pairs, gs[i].key) == FirstAt(prefix, gs[i].key) < |prefix| {
      assert FindKey(gs, gs[i].key).Some?;
      FirstAtSnoc(prefix, (k, v), gs[i].key);
    }
    if FindKey(gs, k).None? {
      FirstAtSnoc(prefix, (k, v), k);
    }
  }

  /** `map.get(k) ?? []`: the members of the group for `k`, or none. */
  function Lookup<K(==,!new), V>(gs: seq<Group<K, V>>, k: K): seq<V> {
    match FindKey(gs, k)
    case Some(i) => gs[i].members
    case None => []
  }

  /** Looking a key up in the grouping gives exactly that key's values, in input order. */
  lemma LookupGroupBy<K(!new), V>(pairs: seq<(K, V)>, k: K)
    ensures Lookup(GroupBy(pairs), k) == Members(pairs, k)
  {
    var gs := GroupBy(pairs);
    if FindKey(gs, k).None? {
      MembersAbsent(pairs, k);
    }
  }

  /** Every value filed under `k` comes from a pair carrying `k`. */
  lemma {:induction false} MembersFrom<K(!new), V>(pairs: seq<(K, V)>, k: K, v: V)
    requires v in Members(pairs, k)
    ensures (k, v) in pairs
    decreases |pairs|
  {
    var n := |pairs| - 1;
    var prefix := pairs[..n];
    if v in Members(prefix, k) {
      MembersFrom(prefix, k, v);
      assert forall p :: p in prefix ==> p in pairs;
    } else {
      assert pairs[n] == (k, v);
    }
  }
}
