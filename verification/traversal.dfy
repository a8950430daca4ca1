/** `getInvitedFriends`: the breadth-first walk from the best friends, one
    ring ("circle") of friends at a time. The walk is split in two: Circles
    lists the rings the loop visits, and Invite filters and concatenates
    them. GetInvitedFriends is the loop itself, proved to compute the same
    list. */
module Traversal {
  import opened Wrappers
  import opened Names
  import opened People
  import opened Expansion

  /** The first ring: the best friends, sorted by name. */
  function FirstRing(friends: seq<Person>): (r: seq<Person>)
    requires NoDupNames(friends)
    ensures StrictlySorted(r)
    ensures forall p :: p in r <==> p in friends && p.best
  {
    KeepNoDupNames(friends, IsBest);
    SortByName(Keep(friends, IsBest))
  }

  /** Every friend named by a member of a ring of known people is a key of
      the index. */
  lemma RingResolves(friends: seq<Person>, ring: seq<Person>)
    requires WellFormed(friends)
    requires Elems(ring) <= Elems(friends)
    ensures forall p, n :: p in ring && n in p.friends ==> n in BuildIndex(friends)
  {
    forall p, n | p in ring && n in p.friends ensures n in BuildIndex(friends) {
      assert p in Elems(ring);
    }
  }

  /** The right-hand side of the `queue` update: the ring's friends, found
      through `index`, without anyone already visited. */
  function ExpandRing(index: Index, ring: seq<Person>, visited: set<Person>): (next: seq<Person>)
    requires |ring| > 0
    requires Resolves(index)
    requires forall p, n :: p in ring && n in p.friends ==> n in index
    ensures StrictlySorted(next)
    ensures Elems(next) !! visited
    ensures forall p :: p in next ==> p.name in index && index[p.name] == p
  {
    KeepSorted(NextLevel(ring, index), NotIn(visited));
    Keep(NextLevel(ring, index), NotIn(visited))
  }

  /** `p` is one of `friends`, is named in the friends list of someone in
      `ring`, and is not in `seen`: the breadth-first notion of a newly
      discovered person, stated without the map/filter/sort chain of
      `getNextLevelFriends`. */
  predicate Discovered(friends: seq<Person>, ring: seq<Person>, seen: set<Person>, p: Person)
  {
    p in friends && p !in seen && exists q :: q in ring && p.name in q.friends
  }

  /** The next value of `queue` when the index is built from `friends`. */
  function NextRing(friends: seq<Person>, ring: seq<Person>, visited: set<Person>): (next: seq<Person>)
    requires WellFormed(friends)
    requires |ring| > 0
    requires Elems(ring) <= Elems(friends)
    ensures StrictlySorted(next)
    ensures Elems(next) <= Elems(friends)
    ensures Elems(next) !! visited
    ensures forall p :: p in next <==> Discovered(friends, ring, visited, p)
  {
    RingResolves(friends, ring);
    var index := BuildIndex(friends);
    var next := ExpandRing(index, ring, visited);
    assert forall p :: p in next ==> p in friends by {
      forall p | p in next ensures p in friends {
        assert index[p.name] == p;
      }
    }
    next
  }

  /** Adding a non-empty ring of unvisited people to the visited set leaves
      strictly fewer people unvisited; adding an empty ring changes nothing. */
  lemma UnvisitedShrinks(everyone: set<Person>, visited: set<Person>, next: seq<Person>)
    requires visited <= everyone
    requires Elems(next) <= everyone
    requires Elems(next) !! visited
    ensures |next| > 0 ==> |everyone - (visited + Elems(next))| < |everyone - visited|
    ensures |next| == 0 ==> visited + Elems(next) == visited
  {
    if |next| > 0 {
      var after := everyone - (visited + Elems(next));
      var before := everyone - visited;
      assert next[0] in before - after;
      assert before == after + (before - after);
    }
  }

  /** The rings the loop of `getInvitedFriends` visits, starting from
      `queue` with `visited` already seen and `level` rings done. */
  function Circles(friends: seq<Person>, queue: seq<Person>, visited: set<Person>,
                   level: nat, maxLevel: Option<nat>): (c: seq<seq<Person>>)
    requires WellFormed(friends)
    requires StrictlySorted(queue)
    requires Elems(queue) <= visited <= Elems(friends)
    ensures |c| > 0 ==> c[0] == queue
    ensures |queue| > 0 && maxLevel != Some(level) ==> |c| > 0
    ensures maxLevel.Some? && level <= maxLevel.value ==> level + |c| <= maxLevel.value
    decreases |Elems(friends) - visited|, |queue|
  {
    if |queue| == 0 || maxLevel == Some(level) then []
    else
      var next := NextRing(friends, queue, visited);
      UnvisitedShrinks(Elems(friends), visited, next);
      [queue] + Circles(friends, next, visited + Elems(next), level + 1, maxLevel)
  }

  /** Unfolds one step of Circles. */
  lemma CirclesStep(friends: seq<Person>, queue: seq<Person>, visited: set<Person>,
                    level: nat, maxLevel: Option<nat>)
    requires WellFormed(friends)
    requires StrictlySorted(queue)
    requires Elems(queue) <= visited <= Elems(friends)
    requires |queue| > 0 && maxLevel != Some(level)
    ensures var next := NextRing(friends, queue, visited);
            Circles(friends, queue, visited, level, maxLevel)
            == [queue] + Circles(friends, next, visited + Elems(next), level + 1, maxLevel)
  {
  }

  /** Every ring is non-empty, sorted by name and made of known people. */
  predicate RingsSorted(c: seq<seq<Person>>, friends: seq<Person>)
  {
    forall i :: 0 <= i < |c| ==> |c[i]| > 0 && StrictlySorted(c[i]) && Elems(c[i]) <= Elems(friends)
  }

  /** One step of CirclesSorted, with the rings as plain values. */
  lemma SortedStep(c: seq<seq<Person>>, queue: seq<Person>, rest: seq<seq<Person>>, friends: seq<Person>)
    requires c == [queue] + rest
    requires |queue| > 0 && StrictlySorted(queue) && Elems(queue) <= Elems(friends)
    requires RingsSorted(rest, friends)
    ensures RingsSorted(c, friends)
  {
    forall i | 0 < i < |c| ensures |c[i]| > 0 && StrictlySorted(c[i]) && Elems(c[i]) <= Elems(friends) {
      assert c[i] == rest[i - 1];
    }
  }

  lemma {:induction false} CirclesSorted(friends: seq<Person>, queue: seq<Person>, visited: set<Person>,
                                         level: nat, maxLevel: Option<nat>)
    requires WellFormed(friends)
    requires StrictlySorted(queue)
    requires Elems(queue) <= visited <= Elems(friends)
    ensures RingsSorted(Circles(friends, queue, visited, level, maxLevel), friends)
    decreases |Elems(friends) - visited|, |queue|
  {
    if |queue| > 0 && maxLevel != Some(level) {
      var next := NextRing(friends, queue, visited);
      var visited' := visited + Elems(next);
      UnvisitedShrinks(Elems(friends), visited, next);
      CirclesSorted(friends, next, visited', level + 1, maxLevel);
      CirclesStep(friends, queue, visited, level, maxLevel);
      SortedStep(Circles(friends, queue, visited, level, maxLevel), queue,
                 Circles(friends, next, visited', level + 1, maxLevel), friends);
    }
  }

  /** No ring after the first holds anyone in `visited`. */
  predicate LaterRingsAvoid(c: seq<seq<Person>>, visited: set<Person>)
  {
    forall i :: 0 < i < |c| ==> Elems(c[i]) !! visited
  }

  /** No one is in two rings. */
  predicate PairwiseDisjoint(c: seq<seq<Person>>)
  {
    forall i, j :: 0 <= i < j < |c| ==> Elems(c[i]) !! Elems(c[j])
  }

  /** One step of CirclesFresh, with the rings as plain values. */
  lemma AvoidStep(c: seq<seq<Person>>, queue: seq<Person>, rest: seq<seq<Person>>,
                  next: seq<Person>, visited: set<Person>)
    requires c == [queue] + rest
    requires |rest| > 0 ==> rest[0] == next
    requires Elems(next) !! visited
    requires LaterRingsAvoid(rest, visited + Elems(next))
    ensures LaterRingsAvoid(c, visited)
  {
    forall i | 0 < i < |c| ensures Elems(c[i]) !! visited {
      assert c[i] == rest[i - 1];
      if i > 1 {
        assert Elems(rest[i - 1]) !! visited + Elems(next);
      }
    }
  }

  /** One step of CirclesDisjoint, with the rings as plain values. */
  lemma DisjointStep(c: seq<seq<Person>>, queue: seq<Person>, rest: seq<seq<Person>>, visited: set<Person>)
    requires c == [queue] + rest
    requires Elems(queue) <= visited
    requires LaterRingsAvoid(c, visited)
    requires PairwiseDisjoint(rest)
    ensures PairwiseDisjoint(c)
  {
    forall i, j | 0 <= i < j < |c| ensures Elems(c[i]) !! Elems(c[j]) {
      assert c[j] == rest[j - 1];
      if i > 0 {
        assert c[i] == rest[i - 1];
      } else {
        assert Elems(c[j]) !! visited;
      }
    }
  }

  /** No ring after the first holds anyone visited before the walk reached
      it. */
  lemma {:induction false} CirclesFresh(friends: seq<Person>, queue: seq<Person>, visited: set<Person>,
                                        level: nat, maxLevel: Option<nat>)
    requires WellFormed(friends)
    requires StrictlySorted(queue)
    requires Elems(queue) <= visited <= Elems(friends)
    ensures LaterRingsAvoid(Circles(friends, queue, visited, level, maxLevel), visited)
    decreases |Elems(friends) - visited|, |queue|
  {
    if |queue| > 0 && maxLevel != Some(level) {
      var next := NextRing(friends, queue, visited);
      var visited' := visited + Elems(next);
      UnvisitedShrinks(Elems(friends), visited, next);
      CirclesFresh(friends, next, visited', level + 1, maxLevel);
      CirclesStep(friends, queue, visited, level, maxLevel);
      AvoidStep(Circles(friends, queue, visited, level, maxLevel), queue,
                Circles(friends, next, visited', level + 1, maxLevel), next, visited);
    }
  }

  /** No one is in two rings. */
  lemma {:induction false} CirclesDisjoint(friends: seq<Person>, queue: seq<Person>, visited: set<Person>,
                                           level: nat, maxLevel: Option<nat>)
    requires WellFormed(friends)
    requires StrictlySorted(queue)
    requires Elems(queue) <= visited <= Elems(friends)
    ensures PairwiseDisjoint(Circles(friends, queue, visited, level, maxLevel))
    decreases |Elems(friends) - visited|, |queue|
  {
    if |queue| > 0 && maxLevel != Some(level) {
      var next := NextRing(friends, queue, visited);
      var visited' := visited + Elems(next);
      UnvisitedShrinks(Elems(friends), visited, next);
      CirclesDisjoint(friends, next, visited', level + 1, maxLevel);
      CirclesFresh(friends, queue, visited, level, maxLevel);
      CirclesStep(friends, queue, visited, level, maxLevel);
      DisjointStep(Circles(friends, queue, visited, level, maxLevel), queue,
                   Circles(friends, next, visited', level + 1, maxLevel), visited);
    }
  }

  /** `invitedFriends`: each ring's members that pass the filter, ring after
      ring. */
  function Invite(circles: seq<seq<Person>>, filter: Filter): (r: seq<Person>)
    ensures forall p :: p in r ==> FilterFunction(filter)(p) && exists i :: 0 <= i < |circles| && p in circles[i]
  {
    if |circles| == 0 then []
    else
      var rest := Invite(circles[1..], filter);
      assert forall p :: p in rest ==> exists i :: 0 <= i < |circles| && p in circles[i] by {
        forall p | p in rest ensures exists i :: 0 <= i < |circles| && p in circles[i] {
          var i :| 0 <= i < |circles[1..]| && p in circles[1..][i];
          assert p in circles[i + 1];
        }
      }
      Keep(circles[0], FilterFunction(filter)) + rest
  }

  /** The rings of a whole run: the best friends first, then every ring
      found from the one before, until a ring is empty or `maxLevel` rings
      are done (`None` stands for no bound). */
  function Rings(friends: seq<Person>, maxLevel: Option<nat>): (c: seq<seq<Person>>)
    requires WellFormed(friends)
    ensures |c| > 0 ==> c[0] == FirstRing(friends)
    ensures |c| > 0 <==> maxLevel != Some(0) && exists p :: p in friends && p.best
    ensures RingsSorted(c, friends)
    ensures PairwiseDisjoint(c)
    ensures maxLevel.Some? ==> |c| <= maxLevel.value
  {
    var first := FirstRing(friends);
    CirclesSorted(friends, first, Elems(first), 0, maxLevel);
    CirclesDisjoint(friends, first, Elems(first), 0, maxLevel);
    Circles(friends, first, Elems(first), 0, maxLevel)
  }

  /** The list `getInvitedFriends` returns. */
  function InvitedFriends(friends: seq<Person>, filter: Filter, maxLevel: Option<nat>): (r: seq<Person>)
    requires WellFormed(friends)
    ensures forall p :: p in r ==> p in friends && FilterFunction(filter)(p)
    ensures maxLevel == Some(0) ==> r == []
    ensures (forall p :: p in friends ==> !p.best) ==> r == []
  {
    var c := Rings(friends, maxLevel);
    assert forall p :: p in Invite(c, filter) ==> p in friends by {
      forall p | p in Invite(c, filter) ensures p in friends {
        var i :| 0 <= i < |c| && p in c[i];
        assert p in Elems(c[i]);
      }
    }
    Invite(c, filter)
  }

  lemma ConcatAssoc(a: seq<Person>, b: seq<Person>, c: seq<Person>)
    ensures a + (b + c) == (a + b) + c
  {
  }

  /** Invite takes the rings one at a time. */
  lemma InviteCons(queue: seq<Person>, rest: seq<seq<Person>>, filter: Filter)
    ensures Invite([queue] + rest, filter) == Keep(queue, FilterFunction(filter)) + Invite(rest, filter)
  {
    assert ([queue] + rest)[1..] == rest;
  }

  /** One pass of the loop keeps what is left to invite in step with the
      recursive definition. */
  lemma LoopStep(friends: seq<Person>, filter: Filter, maxLevel: Option<nat>, queue: seq<Person>,
                 visited: set<Person>, level: nat, invited: seq<Person>, total: seq<Person>)
    requires WellFormed(friends)
    requires StrictlySorted(queue)
    requires Elems(queue) <= visited <= Elems(friends)
    requires |queue| != 0 && maxLevel != Some(level)
    requires invited + Invite(Circles(friends, queue, visited, level, maxLevel), filter) == total
    ensures var next := NextRing(friends, queue, visited);
            (invited + Keep(queue, FilterFunction(filter)))
            + Invite(Circles(friends, next, visited + Elems(next), level + 1, maxLevel), filter) == total
  {
    var next := NextRing(friends, queue, visited);
    UnvisitedShrinks(Elems(friends), visited, next);
    CirclesStep(friends, queue, visited, level, maxLevel);
    var rest := Circles(friends, next, visited + Elems(next), level + 1, maxLevel);
    InviteCons(queue, rest, filter);
    ConcatAssoc(invited, Keep(queue, FilterFunction(filter)), Invite(rest, filter));
  }

  /** The loop starts where InvitedFriends starts. */
  lemma LoopStart(friends: seq<Person>, filter: Filter, maxLevel: Option<nat>)
    requires WellFormed(friends)
    ensures Invite(Circles(friends, FirstRing(friends), Elems(FirstRing(friends)), 0, maxLevel), filter)
            == InvitedFriends(friends, filter, maxLevel)
  {
  }

  /** When the loop condition fails, nothing is left to invite. */
  lemma LoopEnd(friends: seq<Person>, filter: Filter, maxLevel: Option<nat>, queue: seq<Person>,
                visited: set<Person>, level: nat, invited: seq<Person>)
    requires WellFormed(friends)
    requires StrictlySorted(queue)
    requires Elems(queue) <= visited <= Elems(friends)
    requires |queue| == 0 || maxLevel == Some(level)
    ensures invited + Invite(Circles(friends, queue, visited, level, maxLevel), filter) == invited
  {
  }

  /** The loop of `getInvitedFriends`, statement by statement: `friendsMap`
      is built once, `queue` starts as the best friends sorted by name, and
      each pass pushes the ring's filtered members and moves to the next
      ring. */
  method GetInvitedFriends(friends: seq<Person>, filter: Filter, maxLevel: Option<nat>)
      returns (invited: seq<Person>)
    requires WellFormed(friends)
    ensures invited == InvitedFriends(friends, filter, maxLevel)
  {
    ghost var total := InvitedFriends(friends, filter, maxLevel);
    invited := [];
    var index := BuildIndex(friends);
    var queue := FirstRing(friends);
    var visited := Elems(queue);
    var level: nat := 0;
    LoopStart(friends, filter, maxLevel);
    assert [] + Invite(Circles(friends, queue, visited, level, maxLevel), filter) == total;
    while |queue| != 0 && maxLevel != Some(level)
      invariant StrictlySorted(queue)
      invariant Elems(queue) <= visited <= Elems(friends)
      invariant invited + Invite(Circles(friends, queue, visited, level, maxLevel), filter) == total
      decreases |Elems(friends) - visited|, |queue|
    {
      LoopStep(friends, filter, maxLevel, queue, visited, level, invited, total);
      RingResolves(friends, queue);
      var next := ExpandRing(index, queue, visited);
      UnvisitedShrinks(Elems(friends), visited, next);
      invited := invited + Keep(queue, FilterFunction(filter));
      visited := visited + Elems(next);
      queue := next;
      level := level + 1;
    }
    LoopEnd(friends, filter, maxLevel, queue, visited, level, invited);
  }
}
