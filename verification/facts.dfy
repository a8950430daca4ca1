/** What the traversal promises: no one is invited twice, the list runs ring
    by ring and by name within a ring, the filter only selects, a bounded
    run is a prefix of the unbounded one, the rings are
    exactly the breadth-first rings, and the list is never longer than the
    input. */
module TraversalFacts {
  import opened Wrappers
  import opened Names
  import opened People
  import opened Expansion
  import opened Traversal

  lemma DistinctConcat(a: seq<Person>, b: seq<Person>)
    requires Distinct(a) && Distinct(b)
    requires forall p :: p in a ==> p !in b
    ensures Distinct(a + b)
  {
    var r := a + b;
    forall i, j | 0 <= i < j < |r| ensures r[i] != r[j] {
      if j < |a| {
        assert r[i] == a[i] && r[j] == a[j];
      } else if i >= |a| {
        assert r[i] == b[i - |a|] && r[j] == b[j - |a|];
      } else {
        assert r[i] == a[i] && r[j] == b[j - |a|];
        assert r[i] in a && r[j] in b;
      }
    }
  }

  /** Filtering and concatenating sorted, pairwise disjoint rings repeats no
      one. */
  lemma {:induction false} InviteDistinct(circles: seq<seq<Person>>, filter: Filter)
    requires forall i :: 0 <= i < |circles| ==> StrictlySorted(circles[i])
    requires PairwiseDisjoint(circles)
    ensures Distinct(Invite(circles, filter))
  {
    if |circles| > 0 {
      var rest := circles[1..];
      assert PairwiseDisjoint(rest) by {
        forall i, j | 0 <= i < j < |rest| ensures Elems(rest[i]) !! Elems(rest[j]) {
          assert rest[i] == circles[i + 1] && rest[j] == circles[j + 1];
        }
      }
      InviteDistinct(rest, filter);
      var head := Keep(circles[0], FilterFunction(filter));
      KeepSorted(circles[0], FilterFunction(filter));
      StrictlySortedIsDistinct(head);
      forall p | p in Invite(rest, filter) ensures p !in circles[0] {
        var i :| 0 <= i < |rest| && p in rest[i];
        assert p in Elems(circles[i + 1]);
        assert Elems(circles[0]) !! Elems(circles[i + 1]);
      }
      DistinctConcat(head, Invite(rest, filter));
    }
  }

  /** Different people taken from a list with unique names have different
      names. */
  lemma DistinctNames(s: seq<Person>, friends: seq<Person>)
    requires NoDupNames(friends)
    requires Distinct(s)
    requires forall p :: p in s ==> p in friends
    ensures NoDupNames(s)
  {
    forall i, j | 0 <= i < j < |s| ensures s[i].name != s[j].name {
      assert s[i] in s && s[j] in s;
      var a :| 0 <= a < |friends| && friends[a] == s[i];
      var b :| 0 <= b < |friends| && friends[b] == s[j];
      assert a != b;
    }
  }

  /** No one, and no name, appears twice in the invitation list. */
  lemma NoDuplicates(friends: seq<Person>, filter: Filter, maxLevel: Option<nat>)
    requires WellFormed(friends)
    ensures Distinct(InvitedFriends(friends, filter, maxLevel))
    ensures NoDupNames(InvitedFriends(friends, filter, maxLevel))
  {
    InviteDistinct(Rings(friends, maxLevel), filter);
    DistinctNames(InvitedFriends(friends, filter, maxLevel), friends);
  }

  /** The order of an invitation list `r` against the rings `c`: whoever
      comes earlier in `r` lies in an earlier ring, or in the same ring with
      a smaller name. */
  ghost predicate RingOrdered(r: seq<Person>, c: seq<seq<Person>>)
  {
    forall i, j, k, l :: 0 <= i < j < |r| && 0 <= k < |c| && 0 <= l < |c| && r[i] in c[k] && r[j] in c[l] ==>
      k < l || (k == l && Less(r[i].name, r[j].name))
  }

  /** In pairwise disjoint rings a person lies in one ring only. */
  lemma OneRing(c: seq<seq<Person>>, p: Person, k: nat, l: nat)
    requires PairwiseDisjoint(c)
    requires k < |c| && l < |c| && p in c[k] && p in c[l]
    ensures k == l
  {
    assert p in Elems(c[k]) && p in Elems(c[l]);
  }

  /** Everyone in the list of the later rings lies in a ring after the
      first. */
  lemma InLaterRing(circles: seq<seq<Person>>, filter: Filter, p: Person) returns (m: nat)
    requires |circles| > 0
    requires p in Invite(circles[1..], filter)
    ensures 1 <= m < |circles| && p in circles[m]
  {
    var i :| 0 <= i < |circles[1..]| && p in circles[1..][i];
    m := i + 1;
  }

  /** One step of InviteOrdered: the first ring's filtered members, sorted,
      followed by a list ordered against the later rings. */
  lemma OrderedStep(circles: seq<seq<Person>>, filter: Filter, head: seq<Person>, rest: seq<Person>)
    requires |circles| > 0 && PairwiseDisjoint(circles)
    requires head == Keep(circles[0], FilterFunction(filter)) && StrictlySorted(head)
    requires rest == Invite(circles[1..], filter)
    requires RingOrdered(rest, circles[1..])
    ensures RingOrdered(head + rest, circles)
  {
    var r := head + rest;
    var h := |head|;
    forall i, j, k, l | 0 <= i < j < |r| && 0 <= k < |circles| && 0 <= l < |circles| && r[i] in circles[k] && r[j] in circles[l]
      ensures k < l || (k == l && Less(r[i].name, r[j].name))
    {
      if j < h {
        assert r[i] == head[i] && r[j] == head[j];
        OneRing(circles, r[i], 0, k);
        OneRing(circles, r[j], 0, l);
      } else if i < h {
        assert r[i] == head[i] && r[j] == rest[j - h];
        OneRing(circles, r[i], 0, k);
        var m := InLaterRing(circles, filter, r[j]);
        OneRing(circles, r[j], m, l);
      } else {
        assert r[i] == rest[i - h] && r[j] == rest[j - h];
        var m := InLaterRing(circles, filter, r[i]);
        var n := InLaterRing(circles, filter, r[j]);
        OneRing(circles, r[i], m, k);
        OneRing(circles, r[j], n, l);
        assert circles[1..][k - 1] == circles[k] && circles[1..][l - 1] == circles[l];
        assert rest[i - h] in circles[1..][k - 1] && rest[j - h] in circles[1..][l - 1];
      }
    }
  }

  /** Inviting from sorted, pairwise disjoint rings lists them ring after
      ring, and by name within a ring. */
  lemma {:induction false} InviteOrdered(circles: seq<seq<Person>>, filter: Filter)
    requires forall i :: 0 <= i < |circles| ==> StrictlySorted(circles[i])
    requires PairwiseDisjoint(circles)
    ensures RingOrdered(Invite(circles, filter), circles)
  {
    if |circles| > 0 {
      var rest := circles[1..];
      assert PairwiseDisjoint(rest) by {
        forall i, j | 0 <= i < j < |rest| ensures Elems(rest[i]) !! Elems(rest[j]) {
          assert rest[i] == circles[i + 1] && rest[j] == circles[j + 1];
        }
      }
      InviteOrdered(rest, filter);
      KeepSorted(circles[0], FilterFunction(filter));
      OrderedStep(circles, filter, Keep(circles[0], FilterFunction(filter)), Invite(rest, filter));
    }
  }

  /** The invitation list goes ring after ring from the best friends
      outward, and by name within each ring. */
  lemma InvitedOrdered(friends: seq<Person>, filter: Filter, maxLevel: Option<nat>)
    requires WellFormed(friends)
    ensures RingOrdered(InvitedFriends(friends, filter, maxLevel), Rings(friends, maxLevel))
  {
    InviteOrdered(Rings(friends, maxLevel), filter);
  }

  lemma {:induction false} DistinctCard(s: seq<Person>)
    requires Distinct(s)
    ensures |Elems(s)| == |s|
  {
    if |s| > 0 {
      assert Distinct(s[1..]) by {
        forall i, j | 0 <= i < j < |s[1..]| ensures s[1..][i] != s[1..][j] {
          assert s[1..][i] == s[i + 1] && s[1..][j] == s[j + 1];
        }
      }
      DistinctCard(s[1..]);
      assert Elems(s) == {s[0]} + Elems(s[1..]);
      assert s[0] !in Elems(s[1..]) by {
        forall k | 0 <= k < |s[1..]| ensures s[1..][k] != s[0] {
          assert s[1..][k] == s[k + 1];
        }
      }
    }
  }

  lemma {:induction false} ElemsCard(s: seq<Person>)
    ensures |Elems(s)| <= |s|
  {
    if |s| > 0 {
      ElemsCard(s[1..]);
      assert Elems(s) == {s[0]} + Elems(s[1..]);
    }
  }

  /** The loop never invites more people than there are friends. */
  lemma SizeBound(friends: seq<Person>, filter: Filter, maxLevel: Option<nat>)
    requires WellFormed(friends)
    ensures |InvitedFriends(friends, filter, maxLevel)| <= |friends|
  {
    var r := InvitedFriends(friends, filter, maxLevel);
    NoDuplicates(friends, filter, maxLevel);
    DistinctCard(r);
    ElemsCard(friends);
    var e := Elems(r);
    var all := Elems(friends);
    assert e <= all;
    assert all == e + (all - e);
  }

  lemma {:induction false} KeepAll(s: seq<Person>)
    ensures Keep(s, FilterFunction(PlainFilter)) == s
  {
    if |s| > 0 {
      KeepAll(s[1..]);
      assert s == [s[0]] + s[1..];
    }
  }

  lemma {:induction false} KeepConcat(a: seq<Person>, b: seq<Person>, f: Person -> bool)
    ensures Keep(a + b, f) == Keep(a, f) + Keep(b, f)
  {
    if |a| > 0 {
      KeepConcat(a[1..], b, f);
      assert (a + b)[1..] == a[1..] + b;
    } else {
      assert a + b == b;
    }
  }

  /** Filtering the rings one by one is filtering the accept-all list. */
  lemma {:induction false} InviteThenFilter(circles: seq<seq<Person>>, filter: Filter)
    ensures Invite(circles, filter) == Keep(Invite(circles, PlainFilter), FilterFunction(filter))
  {
    if |circles| > 0 {
      var rest := circles[1..];
      InviteThenFilter(rest, filter);
      KeepAll(circles[0]);
      KeepConcat(circles[0], Invite(rest, PlainFilter), FilterFunction(filter));
    }
  }

  /** The filter decides who is pushed, never where the walk goes: the list
      for any filter is the accept-all list with the rejected people
      removed, order kept. */
  lemma FilterIndependence(friends: seq<Person>, filter: Filter, maxLevel: Option<nat>)
    requires WellFormed(friends)
    ensures InvitedFriends(friends, filter, maxLevel)
            == Keep(InvitedFriends(friends, PlainFilter, maxLevel), FilterFunction(filter))
  {
    InviteThenFilter(Rings(friends, maxLevel), filter);
  }

  /** Every member of a ring who passes the filter is invited. */
  lemma {:induction false} InviteComplete(circles: seq<seq<Person>>, filter: Filter)
    ensures forall i, p :: 0 <= i < |circles| && p in circles[i] && FilterFunction(filter)(p) ==> p in Invite(circles, filter)
  {
    if |circles| > 0 {
      var rest := circles[1..];
      InviteComplete(rest, filter);
      InviteCons(circles[0], rest, filter);
      assert circles == [circles[0]] + rest;
      forall i, p | 0 <= i < |circles| && p in circles[i] && FilterFunction(filter)(p)
        ensures p in Invite(circles, filter)
      {
        if i > 0 {
          assert p in rest[i - 1];
        }
      }
    }
  }

  /** Who is invited: exactly the people of the visited rings that pass the
      filter. */
  lemma InvitedMembers(friends: seq<Person>, filter: Filter, maxLevel: Option<nat>)
    requires WellFormed(friends)
    ensures var c := Rings(friends, maxLevel);
            forall p :: p in InvitedFriends(friends, filter, maxLevel) <==>
              FilterFunction(filter)(p) && exists i :: 0 <= i < |c| && p in c[i]
  {
    InviteComplete(Rings(friends, maxLevel), filter);
  }

  /** `MaleFilter` and `FemaleFilter` split the accept-all list by gender:
      each keeps exactly the people of its gender, and no one is in both. */
  lemma FilterVariants(friends: seq<Person>, maxLevel: Option<nat>)
    requires WellFormed(friends)
    ensures var all := InvitedFriends(friends, PlainFilter, maxLevel);
            && (forall p :: p in InvitedFriends(friends, MaleFilter, maxLevel) <==> p in all && p.gender == "male")
            && (forall p :: p in InvitedFriends(friends, FemaleFilter, maxLevel) <==> p in all && p.gender == "female")
            && Elems(InvitedFriends(friends, MaleFilter, maxLevel)) !! Elems(InvitedFriends(friends, FemaleFilter, maxLevel))
  {
    FilterIndependence(friends, MaleFilter, maxLevel);
    FilterIndependence(friends, FemaleFilter, maxLevel);
    assert "male" != "female";
  }

  /** The first `n` rings, or all of them when there are fewer. */
  function Take(c: seq<seq<Person>>, n: nat): (r: seq<seq<Person>>)
    ensures r <= c
    ensures |r| == if n <= |c| then n else |c|
  {
    if n <= |c| then c[..n] else c
  }

  lemma TakeCons(q: seq<Person>, rest: seq<seq<Person>>, n: nat)
    requires n > 0
    ensures Take([q] + rest, n) == [q] + Take(rest, n - 1)
  {
    if n <= |rest| + 1 {
      assert ([q] + rest)[..n] == [q] + rest[..n - 1];
    }
  }

  /** `bounded` is the first `n` rings of `unbounded`. */
  ghost predicate IsTruncation(bounded: seq<seq<Person>>, unbounded: seq<seq<Person>>, n: nat)
  {
    bounded == Take(unbounded, n)
  }

  /** One step of CirclesTruncated, with the walks as plain values. */
  lemma TruncateStep(bounded: seq<seq<Person>>, unbounded: seq<seq<Person>>, queue: seq<Person>,
                     restBounded: seq<seq<Person>>, restUnbounded: seq<seq<Person>>, n: nat)
    requires n > 0
    requires bounded == [queue] + restBounded
    requires unbounded == [queue] + restUnbounded
    requires restBounded == Take(restUnbounded, n - 1)
    ensures bounded == Take(unbounded, n)
  {
    TakeCons(queue, restUnbounded, n);
  }

  /** CirclesStep with the next ring, visited set and level as plain values. */
  lemma CirclesUnfold(friends: seq<Person>, queue: seq<Person>, visited: set<Person>, level: nat,
                      maxLevel: Option<nat>, next: seq<Person>, visited': set<Person>, level': nat)
    requires WellFormed(friends)
    requires StrictlySorted(queue)
    requires Elems(queue) <= visited <= Elems(friends)
    requires |queue| > 0 && maxLevel != Some(level)
    requires next == NextRing(friends, queue, visited)
    requires visited' == visited + Elems(next) && level' == level + 1
    ensures Circles(friends, queue, visited, level, maxLevel) == [queue] + Circles(friends, next, visited', level', maxLevel)
  {
    CirclesStep(friends, queue, visited, level, maxLevel);
  }

  /** One step of CirclesTruncated: unfold both walks once. */
  lemma TruncateUnfold(friends: seq<Person>, queue: seq<Person>, visited: set<Person>, level: nat, k: nat,
                       next: seq<Person>, visited': set<Person>, level': nat)
    requires WellFormed(friends)
    requires StrictlySorted(queue)
    requires Elems(queue) <= visited <= Elems(friends)
    requires |queue| > 0 && level < k
    requires next == NextRing(friends, queue, visited)
    requires visited' == visited + Elems(next) && level' == level + 1
    requires IsTruncation(Circles(friends, next, visited', level', Some(k)),
                          Circles(friends, next, visited', level', None), k - level')
    ensures IsTruncation(Circles(friends, queue, visited, level, Some(k)),
                         Circles(friends, queue, visited, level, None), k - level)
  {
    var bounded, unbounded := Circles(friends, queue, visited, level, Some(k)), Circles(friends, queue, visited, level, None);
    var restBounded, restUnbounded := Circles(friends, next, visited', level', Some(k)), Circles(friends, next, visited', level', None);
    CirclesUnfold(friends, queue, visited, level, Some(k), next, visited', level');
    CirclesUnfold(friends, queue, visited, level, None, next, visited', level');
    TruncateStep(bounded, unbounded, queue, restBounded, restUnbounded, k - level);
  }

  /** A walk bounded at `k` rings visits exactly the first rings of the
      unbounded walk. */
  lemma {:induction false} CirclesTruncated(friends: seq<Person>, queue: seq<Person>, visited: set<Person>,
                                            level: nat, k: nat)
    requires WellFormed(friends)
    requires StrictlySorted(queue)
    requires Elems(queue) <= visited <= Elems(friends)
    requires level <= k
    ensures IsTruncation(Circles(friends, queue, visited, level, Some(k)),
                         Circles(friends, queue, visited, level, None), k - level)
    decreases |Elems(friends) - visited|, |queue|
  {
    if |queue| > 0 && level < k {
      var next := NextRing(friends, queue, visited);
      var visited', level' := visited + Elems(next), level + 1;
      UnvisitedShrinks(Elems(friends), visited, next);
      CirclesTruncated(friends, next, visited', level', k);
      TruncateUnfold(friends, queue, visited, level, k, next, visited', level');
    } else {
      TruncateBase(friends, queue, visited, level, k);
    }
  }

  /** Where the bounded walk stops at once, so does the truncation. */
  lemma TruncateBase(friends: seq<Person>, queue: seq<Person>, visited: set<Person>, level: nat, k: nat)
    requires WellFormed(friends)
    requires StrictlySorted(queue)
    requires Elems(queue) <= visited <= Elems(friends)
    requires level <= k
    requires |queue| == 0 || level == k
    ensures IsTruncation(Circles(friends, queue, visited, level, Some(k)),
                         Circles(friends, queue, visited, level, None), k - level)
  {
    if |queue| == 0 {
      assert Circles(friends, queue, visited, level, None) == [];
    }
  }

  lemma PrefixAppend(x: seq<Person>, a: seq<Person>, b: seq<Person>)
    requires a <= b
    ensures x + a <= x + b
  {
    assert x + b == (x + a) + b[|a|..];
  }

  /** Inviting from the first rings gives a prefix of inviting from all. */
  lemma {:induction false} InvitePrefix(c: seq<seq<Person>>, n: nat, filter: Filter)
    ensures Invite(Take(c, n), filter) <= Invite(c, filter)
  {
    if n > 0 && |c| > 0 {
      var q, rest := c[0], c[1..];
      InvitePrefix(rest, n - 1, filter);
      TakeCons(q, rest, n);
      assert c == [q] + rest;
      InviteCons(q, Take(rest, n - 1), filter);
      InviteCons(q, rest, filter);
      PrefixAppend(Keep(q, FilterFunction(filter)), Invite(Take(rest, n - 1), filter), Invite(rest, filter));
    } else if n == 0 {
      assert Take(c, n) == [];
    }
  }

  /** `LimitedIterator` with bound `k` walks the first `k` rings of the
      unbounded walk, so its list is a prefix of the unbounded list. */
  lemma BoundedIsPrefix(friends: seq<Person>, filter: Filter, k: nat)
    requires WellFormed(friends)
    ensures Rings(friends, Some(k)) == Take(Rings(friends, None), k)
    ensures InvitedFriends(friends, filter, Some(k)) <= InvitedFriends(friends, filter, None)
  {
    var first := FirstRing(friends);
    CirclesTruncated(friends, first, Elems(first), 0, k);
    InvitePrefix(Rings(friends, None), k, filter);
  }

  /** The people of the first `n` rings. */
  function Seen(c: seq<seq<Person>>, n: nat): (s: set<Person>)
    requires n <= |c|
    ensures forall i, p :: 0 <= i < n && p in c[i] ==> p in s
  {
    if n == 0 then {} else Seen(c, n - 1) + Elems(c[n - 1])
  }

  lemma {:induction false} SeenCons(q: seq<Person>, rest: seq<seq<Person>>, n: nat)
    requires n <= |rest|
    ensures Seen([q] + rest, n + 1) == Elems(q) + Seen(rest, n)
  {
    if n > 0 {
      SeenCons(q, rest, n - 1);
      assert ([q] + rest)[n] == rest[n - 1];
    }
  }

  /** What the walk has seen, counted from the second ring on, once the
      first ring is in `visited`. */
  lemma SeenShift(queue: seq<Person>, rest: seq<seq<Person>>, next: seq<Person>, visited: set<Person>, i: nat)
    requires Elems(queue) <= visited
    requires i <= |rest|
    requires 0 < i ==> rest[0] == next
    ensures visited + Seen([queue] + rest, i + 1)
            == (if i == 0 then visited else visited + Elems(next) + Seen(rest, i))
  {
    SeenCons(queue, rest, i);
    if i > 0 {
      assert Elems(next) <= Seen(rest, i);
    }
  }

  /** `next` holds exactly the people discovered from `ring` that are not
      in `seen`. */
  ghost predicate Expands(friends: seq<Person>, ring: seq<Person>, seen: set<Person>, next: seq<Person>)
  {
    forall p :: p in next <==> Discovered(friends, ring, seen, p)
  }

  /** Nobody outside `seen` is a friend of someone in `ring`. */
  ghost predicate Stalls(friends: seq<Person>, ring: seq<Person>, seen: set<Person>)
  {
    forall p :: !Discovered(friends, ring, seen, p)
  }

  /** Each ring of `c` after the first is what the ring before it discovers
      beyond `visited` and the rings up to it. */
  ghost predicate LayeredFrom(friends: seq<Person>, c: seq<seq<Person>>, visited: set<Person>)
  {
    forall i :: 0 <= i < |c| - 1 ==> Expands(friends, c[i], visited + Seen(c, i + 1), c[i + 1])
  }

  /** One step of CirclesBreadthFirst, with the rings as plain values. */
  lemma BreadthFirstStep(friends: seq<Person>, c: seq<seq<Person>>, queue: seq<Person>,
                         rest: seq<seq<Person>>, visited: set<Person>, next: seq<Person>)
    requires c == [queue] + rest
    requires Elems(queue) <= visited
    requires Expands(friends, queue, visited, next)
    requires |rest| > 0 ==> rest[0] == next
    requires LayeredFrom(friends, rest, visited + Elems(next))
    ensures LayeredFrom(friends, c, visited)
  {
    forall i | 0 <= i < |c| - 1
      ensures Expands(friends, c[i], visited + Seen(c, i + 1), c[i + 1])
    {
      SeenShift(queue, rest, next, visited, i);
      if i > 0 {
        assert c[i] == rest[i - 1] && c[i + 1] == rest[i];
        assert visited + Elems(next) + Seen(rest, i) == visited + Elems(next) + Seen(rest, i - 1 + 1);
      }
    }
  }

  /** Every ring after the first holds exactly the people discovered from
      the ring before it: friends of its members seen neither in `visited`
      nor in any earlier ring. */
  lemma {:induction false} CirclesBreadthFirst(friends: seq<Person>, queue: seq<Person>, visited: set<Person>,
                                               level: nat, maxLevel: Option<nat>)
    requires WellFormed(friends)
    requires StrictlySorted(queue)
    requires Elems(queue) <= visited <= Elems(friends)
    ensures LayeredFrom(friends, Circles(friends, queue, visited, level, maxLevel), visited)
    decreases |Elems(friends) - visited|, |queue|
  {
    if |queue| > 0 && maxLevel != Some(level) {
      var next := NextRing(friends, queue, visited);
      var visited' := visited + Elems(next);
      UnvisitedShrinks(Elems(friends), visited, next);
      CirclesBreadthFirst(friends, next, visited', level + 1, maxLevel);
      CirclesStep(friends, queue, visited, level, maxLevel);
      BreadthFirstStep(friends, Circles(friends, queue, visited, level, maxLevel), queue,
                       Circles(friends, next, visited', level + 1, maxLevel), visited, next);
    }
  }

  /** A run `c` started at `level` with `visited` either reaches the bound
      or ends with a ring that discovers no one. */
  ghost predicate EndsStalled(friends: seq<Person>, c: seq<seq<Person>>, visited: set<Person>,
                              level: nat, maxLevel: Option<nat>)
  {
    |c| > 0 && maxLevel != Some(level + |c|) ==> Stalls(friends, c[|c| - 1], visited + Seen(c, |c|))
  }

  /** One step of CirclesStop, with the rings as plain values. */
  lemma StopStep(friends: seq<Person>, c: seq<seq<Person>>, queue: seq<Person>, rest: seq<seq<Person>>,
                 visited: set<Person>, next: seq<Person>, level: nat, maxLevel: Option<nat>)
    requires c == [queue] + rest
    requires Elems(queue) <= visited
    requires Expands(friends, queue, visited, next)
    requires |rest| > 0 ==> rest[0] == next
    requires |rest| == 0 ==> |next| == 0 || maxLevel == Some(level + 1)
    requires EndsStalled(friends, rest, visited + Elems(next), level + 1, maxLevel)
    ensures EndsStalled(friends, c, visited, level, maxLevel)
  {
    SeenShift(queue, rest, next, visited, |rest|);
    if |rest| > 0 {
      assert c[|c| - 1] == rest[|rest| - 1];
    } else if maxLevel != Some(level + |c|) {
      assert |next| == 0;
      forall p ensures !Discovered(friends, queue, visited, p) {
        assert p !in next;
      }
    }
  }

  /** The walk stops before its bound only when the last ring discovers no
      one. */
  lemma {:induction false} CirclesStop(friends: seq<Person>, queue: seq<Person>, visited: set<Person>,
                                       level: nat, maxLevel: Option<nat>)
    requires WellFormed(friends)
    requires StrictlySorted(queue)
    requires Elems(queue) <= visited <= Elems(friends)
    ensures EndsStalled(friends, Circles(friends, queue, visited, level, maxLevel), visited, level, maxLevel)
    decreases |Elems(friends) - visited|, |queue|
  {
    if |queue| > 0 && maxLevel != Some(level) {
      var next := NextRing(friends, queue, visited);
      var visited' := visited + Elems(next);
      UnvisitedShrinks(Elems(friends), visited, next);
      CirclesStop(friends, next, visited', level + 1, maxLevel);
      CirclesStep(friends, queue, visited, level, maxLevel);
      var rest := Circles(friends, next, visited', level + 1, maxLevel);
      assert |rest| == 0 ==> |next| == 0 || maxLevel == Some(level + 1);
      StopStep(friends, Circles(friends, queue, visited, level, maxLevel), queue,
               rest, visited, next, level, maxLevel);
    }
  }

  /** The first ring is part of everything seen from it on, so counting it
      as visited up front changes nothing. */
  lemma RootSeen(friends: seq<Person>, c: seq<seq<Person>>, maxLevel: Option<nat>)
    requires |c| > 0
    requires LayeredFrom(friends, c, Elems(c[0]))
    requires EndsStalled(friends, c, Elems(c[0]), 0, maxLevel)
    ensures LayeredFrom(friends, c, {})
    ensures EndsStalled(friends, c, {}, 0, maxLevel)
  {
    forall i | 0 <= i < |c| - 1 ensures Expands(friends, c[i], {} + Seen(c, i + 1), c[i + 1]) {
      assert Elems(c[0]) <= Seen(c, i + 1);
      assert Elems(c[0]) + Seen(c, i + 1) == {} + Seen(c, i + 1);
    }
    assert Elems(c[0]) <= Seen(c, |c|);
    assert Elems(c[0]) + Seen(c, |c|) == {} + Seen(c, |c|);
  }

  /** The rings of a run are the breadth-first rings of the friend graph:
      the best friends first; then each ring holds exactly the friends of
      the ring before that are in no earlier ring (and, being sorted by
      name, is determined by them: see SortedUnique); and the walk ends with
      the bound or with a ring that discovers no one. */
  lemma BreadthFirst(friends: seq<Person>, maxLevel: Option<nat>)
    requires WellFormed(friends)
    ensures var c := Rings(friends, maxLevel);
            && (|c| > 0 ==> c[0] == FirstRing(friends))
            && LayeredFrom(friends, c, {})
            && EndsStalled(friends, c, {}, 0, maxLevel)
  {
    var first := FirstRing(friends);
    var c := Rings(friends, maxLevel);
    assert c == Circles(friends, first, Elems(first), 0, maxLevel);
    CirclesBreadthFirst(friends, first, Elems(first), 0, maxLevel);
    CirclesStop(friends, first, Elems(first), 0, maxLevel);
    if |c| > 0 {
      RootSeen(friends, c, maxLevel);
    }
  }
}
