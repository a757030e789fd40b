/**
 The relational operators the queries are built from, over tables as sequences.
 */
module Relational {
  import opened Wrappers
  import opened Collections

  function Matching<A, B>(on: (A, B) -> bool, x: A): B -> bool { (y: B) => on(x, y) }

  function Paired<A, B>(x: A): B -> (A, Option<B>) { (y: B) => (x, Some(y)) }

  /** LEFT JOIN: every match of every left row, and the left row padded with NULL when there is none. */
  function LeftJoin<A, B>(left: seq<A>, right: seq<B>, on: (A, B) -> bool): seq<(A, Option<B>)> {
    if left == [] then []
    else
      var hits := Filter(right, Matching(on, left[0]));
      (if hits == [] then [(left[0], None)] else Map(hits, Paired(left[0]))) + LeftJoin(left[1..], right, on)
  }

  /** At most one right row matches `x`. */
  ghost predicate AtMostOne<A, B>(right: seq<B>, on: (A, B) -> bool, x: A) {
    forall i, j | 0 <= i < j < |right| :: !(on(x, right[i]) && on(x, right[j]))
  }

  lemma {:induction false} FilterAtMostOne<A, B>(right: seq<B>, on: (A, B) -> bool, x: A)
    requires AtMostOne(right, on, x)
    ensures |Filter(right, Matching(on, x))| <= 1
  {
    if right == [] {
    } else {
      FilterAtMostOne(right[1..], on, x);
      forall i | 0 <= i < |right[1..]| ensures !(on(x, right[0]) && on(x, right[1..][i])) {
        assert right[1..][i] == right[i + 1];
      }
      CountZero(right[1..], Matching(on, x));
      FilterLength(right[1..], Matching(on, x));
    }
  }

  /** The row a LEFT JOIN gives `x` when at most one right row matches. */
  ghost predicate JoinedRow<A, B>(row: (A, Option<B>), x: A, right: seq<B>, on: (A, B) -> bool) {
    && row.0 == x
    && match row.1
       case Some(y) => y in right && on(x, y)
       case None => forall y | y in right :: !on(x, y)
  }

  /** The first left row contributes exactly one row. */
  lemma JoinHead<A, B>(left: seq<A>, right: seq<B>, on: (A, B) -> bool)
    requires left != [] && AtMostOne(right, on, left[0])
    ensures var joined := LeftJoin(left, right, on);
      |joined| >= 1 && JoinedRow(joined[0], left[0], right, on) && joined[1..] == LeftJoin(left[1..], right, on)
  {
    FilterAtMostOne(right, on, left[0]);
    var hits := Filter(right, Matching(on, left[0]));
    if hits != [] {
      assert hits[0] in hits;
    } else {
      assert forall y | y in right :: !Matching(on, left[0])(y);
    }
  }

  lemma {:induction false} LeftJoinLength<A, B>(left: seq<A>, right: seq<B>, on: (A, B) -> bool)
    requires forall x | x in left :: AtMostOne(right, on, x)
    ensures |LeftJoin(left, right, on)| == |left|
  {
    if left == [] {
    } else {
      JoinHead(left, right, on);
      LeftJoinLength(left[1..], right, on);
    }
  }

  lemma {:induction false} LeftJoinRow<A, B>(left: seq<A>, right: seq<B>, on: (A, B) -> bool, i: nat)
    requires i < |left| && forall x | x in left :: AtMostOne(right, on, x)
    ensures |LeftJoin(left, right, on)| == |left|
    ensures JoinedRow(LeftJoin(left, right, on)[i], left[i], right, on)
  {
    LeftJoinLength(left, right, on);
    JoinHead(left, right, on);
    if i == 0 {
    } else {
      LeftJoinRow(left[1..], right, on, i - 1);
      assert LeftJoin(left, right, on)[i] == LeftJoin(left, right, on)[1..][i - 1];
    }
  }

  /** With at most one match each, a LEFT JOIN neither drops nor multiplies rows. */
  lemma LeftJoinKeepsRows<A, B>(left: seq<A>, right: seq<B>, on: (A, B) -> bool)
    requires forall x | x in left :: AtMostOne(right, on, x)
    ensures var joined := LeftJoin(left, right, on);
      && |joined| == |left|
      && forall i | 0 <= i < |left| :: JoinedRow(joined[i], left[i], right, on)
  {
    LeftJoinLength(left, right, on);
    forall i | 0 <= i < |left| ensures JoinedRow(LeftJoin(left, right, on)[i], left[i], right, on) {
      LeftJoinRow(left, right, on, i);
    }
  }

  // GROUP BY key with COUNT(*)

  function EqualTo<K(==)>(k: K): K -> bool { (x: K) => x == k }

  /** One input row reaching a hash aggregate. */
  function Tally<K(==)>(groups: seq<(K, nat)>, k: K): seq<(K, nat)> {
    if groups == [] then [(k, 1)]
    else if groups[0].0 == k then [(k, groups[0].1 + 1)] + groups[1..]
    else [groups[0]] + Tally(groups[1..], k)
  }

  function GroupCount<K(==)>(keys: seq<K>): seq<(K, nat)> {
    if keys == [] then [] else Tally(GroupCount(keys[..|keys| - 1]), keys[|keys| - 1])
  }

  /** The count stored for a key, 0 without a group. */
  function Lookup<K(==)>(groups: seq<(K, nat)>, k: K): nat {
    if groups == [] then 0 else if groups[0].0 == k then groups[0].1 else Lookup(groups[1..], k)
  }

  ghost predicate OneGroupPerKey<K>(groups: seq<(K, nat)>) {
    && (forall i, j | 0 <= i < j < |groups| :: groups[i].0 != groups[j].0)
    && (forall g | g in groups :: g.1 > 0)
  }

  lemma {:induction false} LookupFinds<K(!new)>(groups: seq<(K, nat)>, k: K)
    requires OneGroupPerKey(groups)
    ensures forall g | g in groups && g.0 == k :: g.1 == Lookup(groups, k)
    ensures Lookup(groups, k) > 0 <==> exists g :: g in groups && g.0 == k
  {
    if groups == [] {
    } else {
      LookupFinds(groups[1..], k);
      assert groups[0] in groups;
      assert forall g :: g in groups <==> g == groups[0] || g in groups[1..];
    }
  }

  lemma {:induction false} TallyLookup<K(!new)>(groups: seq<(K, nat)>, k: K, x: K)
    ensures Lookup(Tally(groups, k), x) == Lookup(groups, x) + if x == k then 1 else 0
  {
    if groups == [] {
    } else {
      TallyLookup(groups[1..], k, x);
      var t := Tally(groups, k);
      assert t[1..] == if groups[0].0 == k then groups[1..] else Tally(groups[1..], k);
    }
  }

  lemma {:induction false} TallyKeepsGroups<K(!new)>(groups: seq<(K, nat)>, k: K)
    requires OneGroupPerKey(groups)
    ensures OneGroupPerKey(Tally(groups, k))
    ensures forall g | g in Tally(groups, k) :: g.0 == k || g in groups
  {
    if groups == [] {
    } else {
      var rest := groups[1..];
      TallyKeepsGroups(rest, k);
      assert forall g | g in rest :: g in groups && g.0 != groups[0].0;
      if groups[0].0 == k {
        GroupBefore((k, groups[0].1 + 1), rest);
      } else {
        GroupBefore(groups[0], Tally(rest, k));
      }
    }
  }

  lemma GroupBefore<K>(g: (K, nat), rest: seq<(K, nat)>)
    requires OneGroupPerKey(rest) && g.1 > 0 && forall o | o in rest :: o.0 != g.0
    ensures OneGroupPerKey([g] + rest)
  {
  }

  /** GROUP BY with COUNT, done in one pass, agrees with counting each key on its own. */
  lemma {:induction false} GroupCountCounts<K(!new)>(keys: seq<K>)
    ensures OneGroupPerKey(GroupCount(keys))
    ensures forall k :: Lookup(GroupCount(keys), k) == Count(keys, EqualTo(k))
  {
    if keys == [] {
    } else {
      var before, k := keys[..|keys| - 1], keys[|keys| - 1];
      GroupCountCounts(before);
      TallyKeepsGroups(GroupCount(before), k);
      assert keys == before + [k];
      forall x ensures Lookup(GroupCount(keys), x) == Count(keys, EqualTo(x)) {
        TallyLookup(GroupCount(before), k, x);
        CountAppend(before, k, EqualTo(x));
      }
    }
  }

  /** SELECT DISTINCT. */
  function SelectDistinct<K(==)>(keys: seq<K>): seq<K> {
    if keys == [] then []
    else
      var rest := SelectDistinct(keys[..|keys| - 1]);
      if keys[|keys| - 1] in rest then rest else rest + [keys[|keys| - 1]]
  }

  lemma {:induction false} SelectDistinctKeepsOne<K(!new)>(keys: seq<K>)
    ensures Distinct(SelectDistinct(keys))
    ensures forall k :: k in SelectDistinct(keys) <==> k in keys
  {
    if keys == [] {
    } else {
      SelectDistinctKeepsOne(keys[..|keys| - 1]);
      assert keys == keys[..|keys| - 1] + [keys[|keys| - 1]];
    }
  }
}
